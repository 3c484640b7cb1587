/** Runs in which users act only while no message is under way and no ring timer
    fires: all devices of both users agree on what happened to the call. */
module QuietCalls {
  import opened Calls
  import opened CallProtocol
  import opened CallRuns

  ghost predicate Quiet(run: seq<Net>, steps: seq<Step>)
    requires |run| == |steps| + 1
  {
    forall i :: 0 <= i < |steps| ==>
      !steps[i].FireTimer? && (!steps[i].Deliver? ==> run[i].inflight == {})
  }

  /** Where the whole system stands, and which device brought it there. */
  datatype Phase = Idle | Dialled(p: Device) | Answered(a: Device) | Over(e: Device)

  predicate Fresh(c: Call) { c.accepted.None? && c.ended.None? && c.canceled.None? }

  predicate Talking(c: Call) { c.accepted.Some? && c.ended.None? && c.canceled.None? }

  predicate Done(c: Call, answered: bool, ender: User) {
    && c.ended.Some?
    && (c.accepted.Some? <==> answered)
    && (c.canceled.Some? <==> !answered && ender.Caller?)
  }

  ghost predicate OnlyFrom(n: Net, kind: Kind, d: Device) {
    && d in n.devices
    && forall m :: m in n.inflight ==> m.kind == kind && m.from == d && m.to != d && m.to in n.devices
  }

  ghost predicate InPhase(n: Net, ph: Phase) {
    n.lost == {} &&
    match ph
    case Idle => n.calls == map[] && n.inflight == {} && n.accepters == {} && n.enders == {}
    case Dialled(p) =>
      && OnlyFrom(n, CallMsg, p) && n.accepters == {} && n.enders == {}
      && forall d :: d in n.devices ==>
           if d in n.calls then Fresh(n.calls[d]) else Msg(CallMsg, p, d) in n.inflight
    case Answered(a) =>
      && OnlyFrom(n, AcceptedMsg, a) && n.accepters != {} && n.enders == {}
      && forall d :: d in n.devices ==>
           d in n.calls
           && (Talking(n.calls[d]) || (Fresh(n.calls[d]) && Msg(AcceptedMsg, a, d) in n.inflight))
    case Over(e) =>
      && OnlyFrom(n, EndedMsg, e) && e in n.enders
      && forall d :: d in n.devices ==>
           d in n.calls
           && (|| Done(n.calls[d], n.accepters != {}, e.user)
               || (&& Msg(EndedMsg, e, d) in n.inflight
                   && if n.accepters != {} then Talking(n.calls[d]) else Fresh(n.calls[d])))
  }

  lemma HearPhase(n: Net, ph: Phase, m: Msg, keep: bool, c: Call)
    requires InPhase(n, ph) && m in n.inflight && m.to in n.calls
    requires match ph
             case Idle => true
             case Dialled(_) => c == n.calls[m.to]
             case Answered(_) => Talking(c)
             case Over(e) => Done(c, n.accepters != {}, e.user)
    ensures InPhase(Hear(n, m, keep, c), ph)
  {
    var n' := Hear(n, m, keep, c);
    assert forall d :: d in n.calls && d != m.to ==> n'.calls[d] == n.calls[d];
    assert forall m' :: m' in n.inflight && m' != m ==> m' in n'.inflight;
  }

  lemma DeliverPhase(n: Net, ph: Phase, s: Step)
    requires Shape(n) && InPhase(n, ph) && Enabled(n, s) && s.Deliver?
    ensures InPhase(Apply(n, s), ph)
  {
    var Deliver(m, now, sentAt, ring, keep) := s;
    if m.to !in n.calls {
      assert ph.Dialled?;
      assert forall m' :: m' in n.inflight && m' != m ==> m' in Apply(n, s).inflight;
    } else {
      HearPhase(n, ph, m, keep, Heard(n.calls[m.to], m.kind, now, m.from.user == m.to.user));
    }
  }

  /** Device `d` acts while nothing is under way, turning its call into `c`. */
  lemma ActedPhase(n: Net, ph: Phase, kind: Kind, d: Device, c: Call) returns (ph': Phase)
    requires InPhase(n, ph) && n.inflight == {} && d in n.devices
    requires kind.CallMsg? ==> ph.Idle? && Fresh(c)
    requires kind.AcceptedMsg? ==> ph.Dialled? && Talking(c)
    requires kind.EndedMsg? ==> (ph.Dialled? || ph.Answered?) && Done(c, n.accepters != {}, d.user)
    ensures InPhase(Act(n, kind, d, c), ph')
  {
    var n' := Act(n, kind, d, c);
    assert forall e :: e in n.devices && e != d ==> Msg(kind, d, e) in n'.inflight;
    ph' := match kind case CallMsg => Dialled(d) case AcceptedMsg => Answered(d) case EndedMsg => Over(d);
  }

  lemma ActPhase(n: Net, ph: Phase, s: Step) returns (ph': Phase)
    requires Shape(n) && InPhase(n, ph) && Enabled(n, s)
    requires !s.Deliver? && !s.FireTimer? && n.inflight == {}
    ensures InPhase(Apply(n, s), ph')
  {
    ph' := ph;
    match s {
      case PlaceCall(d, _) => ph' := ActedPhase(n, ph, CallMsg, d, Placed());
      case AcceptCall(d, now) =>
        if CanAccept(n.calls[d]) { ph' := ActedPhase(n, ph, AcceptedMsg, d, Accept(n.calls[d], now)); }
      case EndCall(d, now) =>
        if CanEnd(n.calls[d]) { ph' := ActedPhase(n, ph, EndedMsg, d, End(n.calls[d], now)); }
    }
  }

  lemma PhaseStep(n: Net, ph: Phase, s: Step, n': Net) returns (ph': Phase)
    requires Shape(n) && InPhase(n, ph) && Enabled(n, s) && n' == Apply(n, s)
    requires !s.FireTimer? && (!s.Deliver? ==> n.inflight == {})
    ensures InPhase(n', ph')
  {
    if s.Deliver? {
      DeliverPhase(n, ph, s);
      ph' := ph;
    } else {
      ph' := ActPhase(n, ph, s);
    }
  }

  lemma StartsIdle(n: Net)
    requires Initial(n)
    ensures InPhase(n, Idle)
  {
  }

  lemma QuietStep(run: seq<Net>, steps: seq<Step>, i: nat, ph: Phase) returns (ph': Phase)
    requires IsRun(run, steps) && Quiet(run, steps) && i < |steps| && InPhase(run[i], ph)
    ensures InPhase(run[i + 1], ph')
  {
    RunShape(run, steps, i);
    ph' := PhaseStep(run[i], ph, steps[i], run[i + 1]);
  }

  lemma {:induction false} RunPhase(run: seq<Net>, steps: seq<Step>, i: nat) returns (ph: Phase)
    requires IsRun(run, steps) && Quiet(run, steps) && i < |run|
    ensures InPhase(run[i], ph)
  {
    if i == 0 {
      StartsIdle(run[0]);
      ph := Idle;
    } else {
      var before := RunPhase(run, steps, i - 1);
      ph := QuietStep(run, steps, i - 1, before);
    }
  }

  /** What each side shows for a finished call, given who ended it. */
  predicate Shows(s: State, user: User, answered: bool, ender: User) {
    if answered then s.Completed?
    else if ender.Callee? then s == Declined
    else if user.Caller? then s == Canceled
    else s == Missed
  }

  /** Whenever no message is under way, every device knows the call and all
      devices carry the same marks. */
  lemma QuietDevicesAgree(run: seq<Net>, steps: seq<Step>, i: nat, d1: Device, d2: Device)
    requires IsRun(run, steps) && Quiet(run, steps) && i < |run|
    requires run[i].inflight == {} && d1 in run[i].calls && d2 in run[i].devices
    ensures d2 in run[i].calls
    ensures var c1, c2 := run[i].calls[d1], run[i].calls[d2];
            && (c1.accepted.Some? <==> c2.accepted.Some?)
            && (c1.ended.Some? <==> c2.ended.Some?)
            && (c1.canceled.Some? <==> c2.canceled.Some?)
  {
    RunShape(run, steps, i);
    var ph := RunPhase(run, steps, i);
  }

  /** Once one device has ended the call, some user ended it, and every device
      shows the matching state: Canceled against Missed, Declined against
      Declined, Completed against Completed. */
  lemma QuietOutcomesMatch(run: seq<Net>, steps: seq<Step>, i: nat, d: Device) returns (e: Device)
    requires IsRun(run, steps) && Quiet(run, steps) && i < |run|
    requires run[i].inflight == {} && d in run[i].calls && run[i].calls[d].ended.Some?
    ensures Did(run, steps, i, Ending, e)
    ensures forall d', now :: d' in run[i].devices ==>
              d' in run[i].calls
              && Shows(CallState(run[i].calls[d'], now), d'.user, run[i].accepters != {}, e.user)
  {
    RunShape(run, steps, i);
    var ph := RunPhase(run, steps, i);
    e := ph.e;
    HistoryIsFaithful(run, steps, i, e, Msg(CallMsg, e, e));
  }
}
