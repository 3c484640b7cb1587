/** Call signalling between all devices of a caller and of a callee.

    The network holds messages in flight. It may delay, reorder and repeat them.
    A message with a known Message-ID is skipped, so every message is handled once
    per device. An "accepted" or "ended" message that arrives before the call
    message finds no call; it is thrown away for good, since its Message-ID is
    kept and later copies are skipped. */
module CallProtocol {
  import opened Calls

  datatype User = Caller | Callee
  datatype Device = Device(user: User, id: nat)
  datatype Kind = CallMsg | AcceptedMsg | EndedMsg
  datatype Msg = Msg(kind: Kind, from: Device, to: Device)

  /** `accepters`, `enders` and `timedOut` record which devices accepted the call
      by user action, ended it by user action, and had it ended by the ring timer. */
  datatype Net = Net(
    devices: set<Device>,
    calls: map<Device, Call>,
    inflight: set<Msg>,
    lost: set<Msg>,
    timers: set<Device>,
    accepters: set<Device>,
    enders: set<Device>,
    timedOut: set<Device>)

  /** `keep` makes a delivery a repetition: the message stays in flight. */
  datatype Step =
    | PlaceCall(d: Device, now: int)
    | AcceptCall(d: Device, now: int)
    | EndCall(d: Device, now: int)
    | FireTimer(d: Device, now: int)
    | Deliver(m: Msg, now: int, sentAt: int, ring: bool, keep: bool)

  predicate Enabled(n: Net, s: Step) {
    match s
    case PlaceCall(d, _) => d in n.devices && d.user.Caller? && n.calls == map[]
    case AcceptCall(d, _) => d in n.calls
    case EndCall(d, _) => d in n.calls
    case FireTimer(d, _) => d in n.timers && d in n.calls
    case Deliver(m, _, _, _, _) => m in n.inflight
  }

  function Fanout(n: Net, kind: Kind, d: Device): set<Msg> {
    set e | e in n.devices && e != d :: Msg(kind, d, e)
  }

  /** Device `d` takes an action of its own: its call becomes `c` and the others are told. */
  function Act(n: Net, kind: Kind, d: Device, c: Call): Net {
    n.(calls := n.calls[d := c],
       inflight := n.inflight + Fanout(n, kind, d),
       timers := if kind.CallMsg? then n.timers + {d} else n.timers,
       accepters := if kind.AcceptedMsg? then n.accepters + {d} else n.accepters,
       enders := if kind.EndedMsg? then n.enders + {d} else n.enders)
  }

  function Consume(n: Net, m: Msg, keep: bool): Net {
    n.(inflight := if keep then n.inflight else n.inflight - {m})
  }

  /** The receiver of `m` learns of the call. */
  function Learn(n: Net, m: Msg, keep: bool, c: Call, timer: bool): Net {
    Consume(n, m, keep).(calls := n.calls[m.to := c],
                         timers := if timer then n.timers + {m.to} else n.timers)
  }

  /** The receiver of `m` knows no call, so the message and all its copies have no effect. */
  function Discard(n: Net, m: Msg, keep: bool): Net {
    Consume(n, m, keep).(lost := n.lost + {m})
  }

  /** The call of the receiver of `m` becomes `c`. */
  function Hear(n: Net, m: Msg, keep: bool, c: Call): Net {
    Consume(n, m, keep).(calls := n.calls[m.to := c])
  }

  function Expire(n: Net, d: Device, c: Call, acted: bool): Net {
    n.(calls := n.calls[d := c], timers := n.timers - {d},
       timedOut := if acted then n.timedOut + {d} else n.timedOut)
  }

  /** What a message of each kind does to a known call. */
  function Heard(c: Call, kind: Kind, now: int, fromSelf: bool): Call {
    match kind
    case CallMsg => c
    case AcceptedMsg => HearAccepted(c, now)
    case EndedMsg => HearEnded(c, now, fromSelf)
  }

  function Apply(n: Net, s: Step): Net
    requires Enabled(n, s)
  {
    match s
    case PlaceCall(d, _) => Act(n, CallMsg, d, Placed())
    case AcceptCall(d, now) =>
      if CanAccept(n.calls[d]) then Act(n, AcceptedMsg, d, Accept(n.calls[d], now)) else n
    case EndCall(d, now) =>
      if CanEnd(n.calls[d]) then Act(n, EndedMsg, d, End(n.calls[d], now)) else n
    case FireTimer(d, now) =>
      Expire(n, d, Timeout(n.calls[d], now), TimerActs(n.calls[d]))
    case Deliver(m, now, sentAt, ring, keep) =>
      var incoming := m.to.user.Callee?;
      if m.to !in n.calls then
        if m.kind.CallMsg? then
          Learn(n, m, keep, Received(incoming, sentAt, now, ring), StartsTimer(incoming, sentAt, now))
        else Discard(n, m, keep)
      else if m in n.lost then Consume(n, m, keep)
      else Hear(n, m, keep, Heard(n.calls[m.to], m.kind, now, m.from.user == m.to.user))
  }

  predicate Initial(n: Net) {
    n == Net(n.devices, map[], {}, {}, {}, {}, {}, {})
  }

  /** A run: states and the steps between them. */
  ghost predicate IsRun(run: seq<Net>, steps: seq<Step>) {
    && |run| == |steps| + 1
    && Initial(run[0])
    && forall i :: 0 <= i < |steps| ==>
         Enabled(run[i], steps[i]) && run[i + 1] == Apply(run[i], steps[i])
  }

  // ------------------------------------------------------------- invariants

  ghost predicate Shape(n: Net) {
    && n.calls.Keys <= n.devices
    && n.accepters + n.enders + n.timedOut + n.timers <= n.calls.Keys
    && (forall d :: d in n.calls ==> n.calls[d].incoming == d.user.Callee?)
    && (forall m :: m in n.inflight + n.lost ==> m.from in n.calls && m.to in n.devices && m.from != m.to)
  }

  ghost predicate DevicesConsistent(n: Net) {
    forall d :: d in n.calls ==> Consistent(n.calls[d], d in n.timedOut)
  }

  /** Acceptance comes from a callee device that accepted. */
  ghost predicate Provenance(n: Net)
    requires Shape(n)
  {
    && (forall a :: a in n.accepters ==> a.user.Callee? && n.calls[a].accepted.Some?)
    && (forall m :: m in n.inflight + n.lost && m.kind.AcceptedMsg? ==> m.from in n.accepters)
    && (forall d :: d in n.calls && n.calls[d].accepted.Some? ==> n.accepters != {})
  }

  /** Some "ended" message to `d` was not thrown away. */
  ghost predicate Told(n: Net, d: Device) {
    exists e :: e in n.enders && e != d && Msg(EndedMsg, e, d) !in n.lost
  }

  /** Every "ended" message is under way, was thrown away, or has ended its receiver. */
  ghost predicate Endings(n: Net)
    requires Shape(n)
  {
    && (forall e :: e in n.enders + n.timedOut ==> n.calls[e].ended.Some?)
    && (forall m :: m in n.inflight + n.lost && m.kind.EndedMsg? ==> m.from in n.enders)
    && (forall e, d :: e in n.enders && d in n.devices && d != e ==>
          || Msg(EndedMsg, e, d) in n.inflight
          || Msg(EndedMsg, e, d) in n.lost
          || (d in n.calls && n.calls[d].ended.Some?))
  }

  ghost predicate HasReason(n: Net, d: Device) {
    d in n.enders || d in n.timedOut || Told(n, d)
  }

  /** Every device that ended the call has a reason to. */
  ghost predicate Reasons(n: Net) {
    forall d :: d in n.calls && n.calls[d].ended.Some? ==> HasReason(n, d)
  }

  ghost predicate NetInv(n: Net) {
    Shape(n) && Provenance(n) && Endings(n) && Reasons(n)
  }

  /** Only the call of `d` changes, and if it ends there is a reason. */
  lemma KeepReasons(n: Net, n': Net, d: Device)
    requires Reasons(n) && n.enders <= n'.enders && n.timedOut <= n'.timedOut
    requires n'.calls.Keys <= n.calls.Keys + {d}
    requires forall d' :: d' in n'.calls && d' != d ==> n'.calls[d'] == n.calls[d']
    requires forall m :: m in n'.lost && m !in n.lost ==> m.to !in n.calls
    requires d in n'.calls && n'.calls[d].ended.Some? ==>
               HasReason(n', d) || (d in n.calls && n.calls[d].ended.Some?)
    ensures Reasons(n')
  {
    forall d' | d' in n.calls && Told(n, d')
      ensures Told(n', d')
    {
      var e :| e in n.enders && e != d' && Msg(EndedMsg, e, d') !in n.lost;
      assert Msg(EndedMsg, e, d') !in n'.lost;
    }
  }

  /** What an action of each kind needs of the old call and does to it. */
  predicate MayAct(n: Net, kind: Kind, d: Device, c: Call) {
    match kind
    case CallMsg => n.calls == map[] && c.accepted.None? && c.ended.None?
    case AcceptedMsg =>
      && d in n.calls && n.calls[d].accepted.None? && n.calls[d].ended.None?
      && d.user.Callee? && c.accepted.Some? && c.ended.None?
    case EndedMsg =>
      d in n.calls && n.calls[d].ended.None? && c.accepted == n.calls[d].accepted && c.ended.Some?
  }

  lemma ActKeepsShape(n: Net, kind: Kind, d: Device, c: Call)
    requires Shape(n) && d in n.devices && c.incoming == d.user.Callee?
    requires MayAct(n, kind, d, c)
    ensures Shape(Act(n, kind, d, c))
  {
  }

  lemma ActKeepsProvenance(n: Net, kind: Kind, d: Device, c: Call)
    requires Shape(n) && Provenance(n) && Shape(Act(n, kind, d, c)) && MayAct(n, kind, d, c)
    ensures Provenance(Act(n, kind, d, c))
  {
  }

  lemma ActKeepsEndings(n: Net, kind: Kind, d: Device, c: Call)
    requires Shape(n) && Endings(n) && Shape(Act(n, kind, d, c)) && MayAct(n, kind, d, c)
    ensures Endings(Act(n, kind, d, c))
  {
    var n' := Act(n, kind, d, c);
    forall e, r | e in n'.enders && r in n.devices && r != e
      ensures || Msg(EndedMsg, e, r) in n'.inflight
              || Msg(EndedMsg, e, r) in n'.lost
              || (r in n'.calls && n'.calls[r].ended.Some?)
    {
      if e !in n.enders {
        assert Msg(kind, d, r) in Fanout(n, kind, d);
      }
    }
  }

  lemma ActKeepsReasons(n: Net, kind: Kind, d: Device, c: Call)
    requires Reasons(n) && MayAct(n, kind, d, c)
    ensures Reasons(Act(n, kind, d, c))
  {
    KeepReasons(n, Act(n, kind, d, c), d);
  }

  lemma ActKeeps(n: Net, kind: Kind, d: Device, c: Call)
    requires NetInv(n) && d in n.devices && c.incoming == d.user.Callee?
    requires MayAct(n, kind, d, c)
    ensures NetInv(Act(n, kind, d, c))
  {
    ActKeepsShape(n, kind, d, c);
    ActKeepsProvenance(n, kind, d, c);
    ActKeepsEndings(n, kind, d, c);
    ActKeepsReasons(n, kind, d, c);
  }

  predicate MayLearn(n: Net, m: Msg, c: Call) {
    && m in n.inflight && m.kind.CallMsg? && m.to !in n.calls
    && c.incoming == m.to.user.Callee? && c.accepted.None? && c.ended.None?
  }

  lemma LearnKeepsShape(n: Net, m: Msg, keep: bool, c: Call, timer: bool)
    requires Shape(n) && Provenance(n) && MayLearn(n, m, c)
    ensures Shape(Learn(n, m, keep, c, timer)) && Provenance(Learn(n, m, keep, c, timer))
  {
  }

  lemma LearnKeepsEndings(n: Net, m: Msg, keep: bool, c: Call, timer: bool)
    requires Shape(n) && Endings(n) && MayLearn(n, m, c) && Shape(Learn(n, m, keep, c, timer))
    ensures Endings(Learn(n, m, keep, c, timer))
  {
  }

  lemma LearnKeepsReasons(n: Net, m: Msg, keep: bool, c: Call, timer: bool)
    requires Reasons(n) && MayLearn(n, m, c)
    ensures Reasons(Learn(n, m, keep, c, timer))
  {
    KeepReasons(n, Learn(n, m, keep, c, timer), m.to);
  }

  lemma LearnKeeps(n: Net, m: Msg, keep: bool, c: Call, timer: bool)
    requires NetInv(n) && MayLearn(n, m, c)
    ensures NetInv(Learn(n, m, keep, c, timer))
  {
    LearnKeepsShape(n, m, keep, c, timer);
    LearnKeepsEndings(n, m, keep, c, timer);
    LearnKeepsReasons(n, m, keep, c, timer);
  }

  lemma DiscardKeepsReasons(n: Net, m: Msg, keep: bool)
    requires Reasons(n) && m.to !in n.calls
    ensures Reasons(Discard(n, m, keep))
  {
    KeepReasons(n, Discard(n, m, keep), m.to);
  }

  lemma DiscardKeeps(n: Net, m: Msg, keep: bool)
    requires NetInv(n) && m in n.inflight && m.to !in n.calls
    ensures NetInv(Discard(n, m, keep))
  {
    DiscardKeepsReasons(n, m, keep);
  }

  /** What a message may do to the call of its receiver. */
  predicate MayHear(n: Net, m: Msg, c: Call) {
    && m in n.inflight && m.to in n.calls && c.incoming == n.calls[m.to].incoming
    && (n.calls[m.to].accepted.Some? ==> c.accepted.Some?)
    && (c.accepted.Some? ==> n.calls[m.to].accepted.Some? || m.kind.AcceptedMsg?)
    && (c.ended.Some? <==> n.calls[m.to].ended.Some? || (m.kind.EndedMsg? && m !in n.lost))
  }

  lemma HearKeepsShape(n: Net, m: Msg, keep: bool, c: Call)
    requires Shape(n) && Provenance(n) && MayHear(n, m, c)
    ensures Shape(Hear(n, m, keep, c)) && Provenance(Hear(n, m, keep, c))
  {
  }

  lemma HearKeepsEndings(n: Net, m: Msg, keep: bool, c: Call)
    requires Shape(n) && Endings(n) && MayHear(n, m, c) && Shape(Hear(n, m, keep, c))
    ensures Endings(Hear(n, m, keep, c))
  {
  }

  lemma HearKeepsReasons(n: Net, m: Msg, keep: bool, c: Call)
    requires Shape(n) && Endings(n) && Reasons(n) && MayHear(n, m, c)
    ensures Reasons(Hear(n, m, keep, c))
  {
    var n' := Hear(n, m, keep, c);
    if m.kind.EndedMsg? && m !in n.lost {
      assert m == Msg(EndedMsg, m.from, m.to) && m.from in n'.enders;
      assert Told(n', m.to);
    }
    KeepReasons(n, n', m.to);
  }

  lemma HearKeeps(n: Net, m: Msg, keep: bool, c: Call)
    requires NetInv(n) && MayHear(n, m, c)
    ensures NetInv(Hear(n, m, keep, c))
  {
    HearKeepsShape(n, m, keep, c);
    HearKeepsEndings(n, m, keep, c);
    HearKeepsReasons(n, m, keep, c);
  }

  predicate MayExpire(n: Net, d: Device, c: Call, acted: bool) {
    && d in n.calls && c.incoming == n.calls[d].incoming && c.accepted == n.calls[d].accepted
    && (c.ended.Some? <==> n.calls[d].ended.Some? || acted)
  }

  lemma ExpireKeepsShape(n: Net, d: Device, c: Call, acted: bool)
    requires Shape(n) && Provenance(n) && MayExpire(n, d, c, acted)
    ensures Shape(Expire(n, d, c, acted)) && Provenance(Expire(n, d, c, acted))
  {
  }

  lemma ExpireKeepsEndings(n: Net, d: Device, c: Call, acted: bool)
    requires Shape(n) && Endings(n) && MayExpire(n, d, c, acted) && Shape(Expire(n, d, c, acted))
    ensures Endings(Expire(n, d, c, acted))
  {
  }

  lemma ExpireKeepsReasons(n: Net, d: Device, c: Call, acted: bool)
    requires Reasons(n) && MayExpire(n, d, c, acted)
    ensures Reasons(Expire(n, d, c, acted))
  {
    KeepReasons(n, Expire(n, d, c, acted), d);
  }

  lemma ExpireKeeps(n: Net, d: Device, c: Call, acted: bool)
    requires NetInv(n) && MayExpire(n, d, c, acted)
    ensures NetInv(Expire(n, d, c, acted))
  {
    ExpireKeepsShape(n, d, c, acted);
    ExpireKeepsEndings(n, d, c, acted);
    ExpireKeepsReasons(n, d, c, acted);
  }

  lemma HeardMay(n: Net, m: Msg, now: int)
    requires m in n.inflight && m.to in n.calls
    ensures var c := n.calls[m.to];
            MayHear(n, m, if m in n.lost then c else Heard(c, m.kind, now, m.from.user == m.to.user))
  {
  }

  /** A message for a known call may be seen as heard, even if it is skipped. */
  lemma DeliverIsHear(n: Net, m: Msg, now: int, sentAt: int, ring: bool, keep: bool)
    requires m in n.inflight && m.to in n.calls
    ensures var c := n.calls[m.to];
            Apply(n, Deliver(m, now, sentAt, ring, keep)) ==
              Hear(n, m, keep, if m in n.lost then c else Heard(c, m.kind, now, m.from.user == m.to.user))
  {
    assert n.calls == n.calls[m.to := n.calls[m.to]];
  }

  lemma DeliverStep(n: Net, s: Step)
    requires NetInv(n) && Enabled(n, s) && s.Deliver?
    ensures NetInv(Apply(n, s))
  {
    var Deliver(m, now, sentAt, ring, keep) := s;
    var incoming := m.to.user.Callee?;
    if m.to in n.calls {
      var c := n.calls[m.to];
      HeardMay(n, m, now);
      DeliverIsHear(n, m, now, sentAt, ring, keep);
      HearKeeps(n, m, keep, if m in n.lost then c else Heard(c, m.kind, now, m.from.user == m.to.user));
    } else if m.kind.CallMsg? {
      LearnKeeps(n, m, keep, Received(incoming, sentAt, now, ring), StartsTimer(incoming, sentAt, now));
    } else {
      DiscardKeeps(n, m, keep);
    }
  }

  lemma NetStep(n: Net, s: Step)
    requires NetInv(n) && Enabled(n, s)
    ensures NetInv(Apply(n, s))
  {
    match s
    case PlaceCall(d, _) => ActKeeps(n, CallMsg, d, Placed());
    case AcceptCall(d, now) =>
      if CanAccept(n.calls[d]) { ActKeeps(n, AcceptedMsg, d, Accept(n.calls[d], now)); }
    case EndCall(d, now) =>
      if CanEnd(n.calls[d]) { ActKeeps(n, EndedMsg, d, End(n.calls[d], now)); }
    case FireTimer(d, now) =>
      ExpireKeeps(n, d, Timeout(n.calls[d], now), TimerActs(n.calls[d]));
    case Deliver(_, _, _, _, _) => DeliverStep(n, s);
  }

  lemma ReplaceConsistent(n: Net, n': Net, d: Device)
    requires DevicesConsistent(n) && d in n'.calls && n'.calls == n.calls[d := n'.calls[d]]
    requires n'.timedOut - {d} == n.timedOut - {d}
    requires Consistent(n'.calls[d], d in n'.timedOut)
    ensures DevicesConsistent(n')
  {
    assert forall e :: e != d ==> (e in n'.timedOut <==> e in n'.timedOut - {d});
    assert forall e :: e != d ==> (e in n.timedOut <==> e in n.timedOut - {d});
  }

  lemma HeardKeeps(c: Call, kind: Kind, now: int, fromSelf: bool, timedOut: bool)
    requires Consistent(c, timedOut)
    ensures Consistent(Heard(c, kind, now, fromSelf), timedOut)
  {
    AcceptKeeps(c, now, timedOut);
    EndKeeps(c, now, fromSelf, timedOut);
  }

  lemma HearConsistent(n: Net, m: Msg, keep: bool, c: Call)
    requires DevicesConsistent(n) && Consistent(c, m.to in n.timedOut)
    ensures DevicesConsistent(Hear(n, m, keep, c))
  {
    ReplaceConsistent(n, Hear(n, m, keep, c), m.to);
  }

  lemma LearnConsistent(n: Net, m: Msg, keep: bool, c: Call, timer: bool)
    requires DevicesConsistent(n) && m.to !in n.timedOut && Consistent(c, false)
    ensures DevicesConsistent(Learn(n, m, keep, c, timer))
  {
    ReplaceConsistent(n, Learn(n, m, keep, c, timer), m.to);
  }

  lemma DeliverConsistent(n: Net, s: Step)
    requires n.timedOut <= n.calls.Keys && DevicesConsistent(n) && Enabled(n, s) && s.Deliver?
    ensures DevicesConsistent(Apply(n, s))
  {
    var Deliver(m, now, sentAt, ring, keep) := s;
    if m.to !in n.calls {
      var incoming := m.to.user.Callee?;
      StartsConsistent(incoming, sentAt, now, ring);
      LearnConsistent(n, m, keep, Received(incoming, sentAt, now, ring), StartsTimer(incoming, sentAt, now));
    } else if m !in n.lost {
      var c, timedOut, fromSelf := n.calls[m.to], m.to in n.timedOut, m.from.user == m.to.user;
      HeardKeeps(c, m.kind, now, fromSelf, timedOut);
      HearConsistent(n, m, keep, Heard(c, m.kind, now, fromSelf));
    }
  }

  lemma ActConsistent(n: Net, kind: Kind, d: Device, c: Call)
    requires DevicesConsistent(n) && Consistent(c, d in n.timedOut)
    ensures DevicesConsistent(Act(n, kind, d, c))
  {
    ReplaceConsistent(n, Act(n, kind, d, c), d);
  }

  lemma ConsistentStep(n: Net, s: Step)
    requires NetInv(n) && DevicesConsistent(n) && Enabled(n, s)
    ensures DevicesConsistent(Apply(n, s))
  {
    match s
    case PlaceCall(d, now) =>
      StartsConsistent(false, 0, now, false);
      ActConsistent(n, CallMsg, d, Placed());
    case AcceptCall(d, now) =>
      AcceptKeeps(n.calls[d], now, d in n.timedOut);
      ActConsistent(n, AcceptedMsg, d, Accept(n.calls[d], now));
    case EndCall(d, now) =>
      EndKeeps(n.calls[d], now, true, d in n.timedOut);
      EndIsHearingOneself(n.calls[d], now);
      ActConsistent(n, EndedMsg, d, End(n.calls[d], now));
    case FireTimer(d, now) =>
      TimeoutKeeps(n.calls[d], now, d in n.timedOut);
      ReplaceConsistent(n, Expire(n, d, Timeout(n.calls[d], now), TimerActs(n.calls[d])), d);
    case Deliver(_, _, _, _, _) => DeliverConsistent(n, s);
  }

  ghost predicate Inv(n: Net) {
    NetInv(n) && DevicesConsistent(n)
  }

  lemma {:induction false} RunInv(run: seq<Net>, steps: seq<Step>, i: nat)
    requires IsRun(run, steps) && i < |run|
    ensures Inv(run[i])
  {
    if i > 0 {
      RunInv(run, steps, i - 1);
      NetStep(run[i - 1], steps[i - 1]);
      ConsistentStep(run[i - 1], steps[i - 1]);
    }
  }
}
