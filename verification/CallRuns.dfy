/** What holds over every run of the call protocol. */
module CallRuns {
  import opened Options
  import opened Calls
  import opened CallProtocol

  /** Step `s` makes device `d` accept, end or time out the call. */
  datatype Deed = Accepting | Ending | TimingOut

  predicate Does(n: Net, s: Step, deed: Deed, d: Device) {
    match deed
    case Accepting => s.AcceptCall? && s.d == d && d in n.calls && CanAccept(n.calls[d])
    case Ending => s.EndCall? && s.d == d && d in n.calls && CanEnd(n.calls[d])
    case TimingOut => s.FireTimer? && s.d == d && d in n.calls && TimerActs(n.calls[d])
  }

  ghost predicate Did(run: seq<Net>, steps: seq<Step>, i: nat, deed: Deed, d: Device)
    requires |run| == |steps| + 1 && i < |run|
  {
    exists j :: 0 <= j < i && Does(run[j], steps[j], deed, d)
  }

  /** Message `m`, or a copy of it, was handed over before its receiver knew the call. */
  ghost predicate CameTooEarly(run: seq<Net>, steps: seq<Step>, i: nat, m: Msg)
    requires |run| == |steps| + 1 && i < |run|
  {
    exists j :: 0 <= j < i && steps[j].Deliver? && steps[j].m == m
                && !m.kind.CallMsg? && m.to !in run[j].calls
  }

  lemma HistoryStep(n: Net, s: Step, d: Device, m: Msg)
    requires Enabled(n, s)
    ensures var n' := Apply(n, s);
            && (d in n'.accepters <==> d in n.accepters || Does(n, s, Accepting, d))
            && (d in n'.enders <==> d in n.enders || Does(n, s, Ending, d))
            && (d in n'.timedOut <==> d in n.timedOut || Does(n, s, TimingOut, d))
            && (m in n'.lost <==>
                  || m in n.lost
                  || (s.Deliver? && s.m == m && !m.kind.CallMsg? && m.to !in n.calls))
  {
  }

  /** The history kept in the state is what the steps did. */
  lemma {:induction false} HistoryIsFaithful(run: seq<Net>, steps: seq<Step>, i: nat, d: Device, m: Msg)
    requires IsRun(run, steps) && i < |run|
    ensures d in run[i].accepters <==> Did(run, steps, i, Accepting, d)
    ensures d in run[i].enders <==> Did(run, steps, i, Ending, d)
    ensures d in run[i].timedOut <==> Did(run, steps, i, TimingOut, d)
    ensures m in run[i].lost <==> CameTooEarly(run, steps, i, m)
  {
    if i > 0 {
      HistoryIsFaithful(run, steps, i - 1, d, m);
      HistoryStep(run[i - 1], steps[i - 1], d, m);
    }
  }

  /** A device is marked accepted only if a callee device accepted the call before. */
  lemma AcceptanceHasASource(run: seq<Net>, steps: seq<Step>, i: nat, d: Device)
    requires IsRun(run, steps) && i < |run|
    requires d in run[i].calls && run[i].calls[d].accepted.Some?
    ensures exists a: Device :: a.user.Callee? && Did(run, steps, i, Accepting, a)
  {
    RunInv(run, steps, i);
    var a :| a in run[i].accepters;
    HistoryIsFaithful(run, steps, i, a, Msg(CallMsg, a, a));
    assert a.user.Callee? && Did(run, steps, i, Accepting, a);
  }

  lemma RunShape(run: seq<Net>, steps: seq<Step>, i: nat)
    requires IsRun(run, steps) && i < |run|
    ensures Shape(run[i])
  {
    RunInv(run, steps, i);
  }

  lemma DeviceInRun(run: seq<Net>, steps: seq<Step>, i: nat, d: Device)
    requires IsRun(run, steps) && i < |run| && d in run[i].calls
    ensures Consistent(run[i].calls[d], d in run[i].timedOut) && run[i].calls[d].incoming == d.user.Callee?
  {
    RunInv(run, steps, i);
  }

  lemma OwnAcceptanceStep(n: Net, s: Step, d: Device)
    requires n.accepters <= n.calls.Keys && Enabled(n, s) && d in Apply(n, s).calls
    requires d in n.calls ==> (AcceptedHere(n.calls[d]) <==> d in n.accepters)
    ensures AcceptedHere(Apply(n, s).calls[d]) <==> d in Apply(n, s).accepters
  {
    if d in n.calls && d == (if s.Deliver? then s.m.to else s.d) {
      OnlyAcceptShowsHere(n.calls[d], s.now, s.Deliver? && s.m.from.user == s.m.to.user);
    }
  }

  lemma {:induction false} OwnAcceptanceIsRecorded(run: seq<Net>, steps: seq<Step>, i: nat, d: Device)
    requires IsRun(run, steps) && i < |run| && d in run[i].calls
    ensures AcceptedHere(run[i].calls[d]) <==> d in run[i].accepters
  {
    if i > 0 {
      RunShape(run, steps, i - 1);
      if d in run[i - 1].calls { OwnAcceptanceIsRecorded(run, steps, i - 1, d); }
      OwnAcceptanceStep(run[i - 1], steps[i - 1], d);
    }
  }

  /** A device shows "accepted on this device" exactly if it accepted the call. */
  lemma OwnAcceptanceIsShown(run: seq<Net>, steps: seq<Step>, i: nat, d: Device)
    requires IsRun(run, steps) && i < |run| && d in run[i].calls
    ensures AcceptedHere(run[i].calls[d]) <==> Did(run, steps, i, Accepting, d)
  {
    OwnAcceptanceIsRecorded(run, steps, i, d);
    HistoryIsFaithful(run, steps, i, d, Msg(CallMsg, d, d));
  }

  /** With no message under way, exactly these devices have ended the call: those
      whose user ended it, those that timed out, and those for which some "ended"
      message came only, in all its copies, when they knew the call. */
  lemma WhoHasEnded(run: seq<Net>, steps: seq<Step>, i: nat, d: Device)
    requires IsRun(run, steps) && i < |run| && run[i].inflight == {} && d in run[i].calls
    ensures run[i].calls[d].ended.Some? <==>
              || Did(run, steps, i, Ending, d)
              || Did(run, steps, i, TimingOut, d)
              || exists e :: e != d && Did(run, steps, i, Ending, e)
                             && !CameTooEarly(run, steps, i, Msg(EndedMsg, e, d))
  {
    RunInv(run, steps, i);
    forall e: Device {
      HistoryIsFaithful(run, steps, i, e, Msg(EndedMsg, e, d));
    }
  }

  /** If no copy of an "ended" message comes too early, one user ending the call ends
      it everywhere. */
  lemma EndReachesEveryone(run: seq<Net>, steps: seq<Step>, i: nat, e: Device, d: Device)
    requires IsRun(run, steps) && i < |run| && run[i].inflight == {} && d in run[i].calls
    requires Did(run, steps, i, Ending, e)
    requires e != d ==> !CameTooEarly(run, steps, i, Msg(EndedMsg, e, d))
    ensures run[i].calls[d].ended.Some?
  {
    WhoHasEnded(run, steps, i, d);
  }

  /** Without that condition it fails: the callee's phone still rings after the
      caller has hung up and every message has been delivered, the "ended" message
      even a second time. */
  lemma EarlyEndIsLost() returns (run: seq<Net>, steps: seq<Step>, a: Device, b: Device)
    ensures IsRun(run, steps) && run[|steps|].inflight == {}
    ensures Did(run, steps, |steps|, Ending, a)
    ensures b in run[|steps|].calls && CallState(run[|steps|].calls[b], 10) == Alerting
  {
    a, b := Device(Caller, 0), Device(Callee, 0);
    var call, end := Msg(CallMsg, a, b), Msg(EndedMsg, a, b);
    steps := [PlaceCall(a, 1), EndCall(a, 2), Deliver(end, 3, 1, true, true), Deliver(call, 4, 1, true, false),
              Deliver(end, 5, 1, true, false)];
    var n0 := Net({a, b}, map[], {}, {}, {}, {}, {}, {});
    var n1 := Apply(n0, steps[0]);
    assert n1.inflight == {call};
    var n2 := Apply(n1, steps[1]);
    assert n2.inflight == {call, end};
    var n3 := Apply(n2, steps[2]);
    var n4 := Apply(n3, steps[3]);
    assert n4.inflight == {end};
    var n5 := Apply(n4, steps[4]);
    run := [n0, n1, n2, n3, n4, n5];
    assert Does(run[1], steps[1], Ending, a);
  }

  /** Once a device has ended the call, nothing about it changes any more. */
  lemma {:induction false} EndedForever(run: seq<Net>, steps: seq<Step>, i: nat, j: nat, d: Device)
    requires IsRun(run, steps) && i <= j < |run|
    requires d in run[i].calls && run[i].calls[d].ended.Some?
    ensures d in run[j].calls && run[j].calls[d] == run[i].calls[d]
    ensures forall t1, t2 :: CallState(run[j].calls[d], t1) == CallState(run[i].calls[d], t2)
  {
    if i < j {
      EndedForever(run, steps, i, j - 1, d);
      var s := steps[j - 1];
      EndedIsFinal(run[i].calls[d], s.now, s.Deliver? && s.m.from.user == s.m.to.user, 0, 0);
    }
  }

  /** The timestamps of one device fit together, and its user interface hears of
      an acceptance at most once, of an ending at most once, and in that order. */
  lemma OneDevice(run: seq<Net>, steps: seq<Step>, i: nat, d: Device)
    requires IsRun(run, steps) && i < |run| && d in run[i].calls
    ensures var c := run[i].calls[d];
            && (c.canceled.Some? ==> c.ended == c.canceled)
            && !(c.accepted.Some? && c.canceled.Some?)
            && Milestones(c.events) == (if c.accepted.Some? then [WasAccepted] else [])
                                     + (if c.ended.Some? then [WasEnded] else [])
  {
    RunInv(run, steps, i);
  }

  /** The bubble of an ended call names its state, except exactly when the ring
      timer of an outgoing call ended it; then "canceled" stands for Declined. */
  lemma TextNamesTheState(run: seq<Net>, steps: seq<Step>, i: nat, d: Device, now: int)
    requires IsRun(run, steps) && i < |run|
    requires d in run[i].calls && run[i].calls[d].ended.Some?
    ensures var c := run[i].calls[d];
            var odd := d.user.Caller? && Did(run, steps, i, TimingOut, d);
            && (TextAgrees(c, now) <==> !odd)
            && (odd ==> c.text == CanceledCall && CallState(c, now) == Declined)
  {
    DeviceInRun(run, steps, i, d);
    HistoryIsFaithful(run, steps, i, d, Msg(CallMsg, d, d));
    var c := run[i].calls[d];
    EndedIsFinal(c, 0, false, now, c.ended.value);
  }

  /** Such a run exists: nobody answers, and the caller's timer goes off. */
  lemma TimedOutCallIsMisnamed() returns (run: seq<Net>, steps: seq<Step>, a: Device)
    ensures IsRun(run, steps) && a in run[|steps|].calls && run[|steps|].calls[a].ended.Some?
    ensures forall now :: !TextAgrees(run[|steps|].calls[a], now)
  {
    a := Device(Caller, 0);
    steps := [PlaceCall(a, 1), FireTimer(a, 200)];
    var n0 := Net({a}, map[], {}, {}, {}, {}, {}, {});
    var n1 := Apply(n0, steps[0]);
    var n2 := Apply(n1, steps[1]);
    run := [n0, n1, n2];
  }

  // ---------------------------------------------------------- marks and times

  /** Step `j` marks the call of `d` as accepted, or as ended. */
  ghost predicate MarksAccepted(run: seq<Net>, j: nat, d: Device)
    requires j + 1 < |run|
  {
    && d in run[j].calls && run[j].calls[d].accepted.None?
    && d in run[j + 1].calls && run[j + 1].calls[d].accepted.Some?
  }

  ghost predicate MarksEnded(run: seq<Net>, j: nat, d: Device)
    requires j + 1 < |run|
  {
    && d in run[j].calls && run[j].calls[d].ended.None?
    && d in run[j + 1].calls && run[j + 1].calls[d].ended.Some?
  }

  /** What one step does to the call of `d`: it keeps marks, sets at most one, and with
      the time of the step; a new call has none. */
  ghost predicate StepMarks(n: Net, s: Step, n': Net, d: Device)
    requires d in n'.calls
  {
    var c' := n'.calls[d];
    if d in n.calls then
      var c := n.calls[d];
      && (c.accepted.Some? ==> c'.accepted == c.accepted)
      && (c.ended.Some? ==> c' == c)
      && (c.accepted.None? && c'.accepted.Some? ==> c'.accepted == Some(s.now) && c'.ended.None?)
      && (c.ended.None? && c'.ended.Some? ==> c'.ended == Some(s.now) && c'.accepted == c.accepted)
    else c'.accepted.None? && c'.ended.None?
  }

  lemma MarksStep(n: Net, s: Step, d: Device)
    requires Enabled(n, s) && d in Apply(n, s).calls
    ensures StepMarks(n, s, Apply(n, s), d)
  {
  }

  /** What a run is for the marks of `d`. */
  ghost predicate MarkedRun(run: seq<Net>, steps: seq<Step>, d: Device) {
    && |run| == |steps| + 1 && d !in run[0].calls
    && forall i :: 0 < i < |run| && d in run[i].calls ==> StepMarks(run[i - 1], steps[i - 1], run[i], d)
  }

  lemma RunIsMarked(run: seq<Net>, steps: seq<Step>, d: Device)
    requires IsRun(run, steps)
    ensures MarkedRun(run, steps, d)
  {
    forall i | 0 < i < |run| && d in run[i].calls ensures StepMarks(run[i - 1], steps[i - 1], run[i], d) {
      assert run[(i - 1) + 1] == Apply(run[i - 1], steps[i - 1]);
      MarksStep(run[i - 1], steps[i - 1], d);
    }
  }

  lemma {:induction false} AcceptedAt(run: seq<Net>, steps: seq<Step>, i: nat, d: Device) returns (j: nat)
    requires MarkedRun(run, steps, d) && i < |run|
    requires d in run[i].calls && run[i].calls[d].accepted.Some?
    ensures j < i && MarksAccepted(run, j, d) && run[i].calls[d].accepted == Some(steps[j].now)
  {
    j := i - 1;
    if !MarksAccepted(run, j, d) { j := AcceptedAt(run, steps, i - 1, d); }
  }

  lemma {:induction false} EndedAt(run: seq<Net>, steps: seq<Step>, i: nat, d: Device) returns (k: nat)
    requires MarkedRun(run, steps, d) && i < |run|
    requires d in run[i].calls && run[i].calls[d].ended.Some?
    ensures k < i && MarksEnded(run, k, d) && run[i].calls[d].ended == Some(steps[k].now)
    ensures run[i].calls[d].accepted == run[k].calls[d].accepted
  {
    k := i - 1;
    if !MarksEnded(run, k, d) { k := EndedAt(run, steps, i - 1, d); }
  }

  /** On every device and at any time, a completed call shows the time between the step
      that marked it accepted there and the step that ended it there, and its text the
      whole minutes of that time. */
  lemma CompletedDuration(run: seq<Net>, steps: seq<Step>, i: nat, d: Device, now: int) returns (j: nat, k: nat)
    requires IsRun(run, steps) && i < |run| && d in run[i].calls
    requires run[i].calls[d].accepted.Some? && run[i].calls[d].ended.Some?
    ensures j < k < i && MarksAccepted(run, j, d) && MarksEnded(run, k, d)
    ensures var s := CallState(run[i].calls[d], now);
            && Spans(s, steps[j].now, steps[k].now)
            && run[i].calls[d].text == Lasted(d.user.Callee?, s.duration / 60)
  {
    RunIsMarked(run, steps, d);
    k := EndedAt(run, steps, i, d);
    j := AcceptedAt(run, steps, k, d);
    DeviceInRun(run, steps, i, d);
    var c := run[i].calls[d];
    EndedIsFinal(c, 0, false, now, c.ended.value);
  }

  /** A call that its ring timer ended is missed on the callee's side, and on the
      caller's side declined. */
  lemma TimedOutCall(run: seq<Net>, steps: seq<Step>, i: nat, d: Device, now: int)
    requires IsRun(run, steps) && i < |run| && d in run[i].calls && Did(run, steps, i, TimingOut, d)
    ensures var c := run[i].calls[d];
            if d.user.Callee? then CallState(c, now) == Missed && c.text == MissedCall
            else CallState(c, now) == Declined && c.text == CanceledCall
  {
    DeviceInRun(run, steps, i, d);
    HistoryIsFaithful(run, steps, i, d, Msg(CallMsg, d, d));
    var c := run[i].calls[d];
    EndedIsFinal(c, 0, false, now, c.ended.value);
  }

  /** Step `j` makes the phone of `d` ring: the call is placed there, or arrives in time. */
  predicate StartsRinging(n: Net, s: Step, d: Device) {
    || (s.PlaceCall? && s.d == d)
    || (&& s.Deliver? && s.m.kind.CallMsg? && s.m.to == d && d !in n.calls
        && d.user.Callee? && s.now < s.sentAt + RINGING_SECONDS)
  }

  lemma TimerStep(n: Net, s: Step, d: Device)
    requires Enabled(n, s) && d in Apply(n, s).calls
    requires Apply(n, s).calls[d].accepted.None? && Apply(n, s).calls[d].ended.None?
    ensures d in n.timers || StartsRinging(n, s, d) ==> d in Apply(n, s).timers
    ensures d in Apply(n, s).timers ==> d in n.timers || StartsRinging(n, s, d)
  {
  }

  /** A phone that rings has a timer that will end the ringing: in every run, a call
      neither accepted nor ended is timed exactly if it was placed here or arrived in
      time. */
  lemma {:induction false} RingingIsTimed(run: seq<Net>, steps: seq<Step>, i: nat, d: Device)
    requires IsRun(run, steps) && i < |run| && d in run[i].calls
    requires run[i].calls[d].accepted.None? && run[i].calls[d].ended.None?
    ensures d in run[i].timers <==> exists j :: 0 <= j < i && StartsRinging(run[j], steps[j], d)
  {
    RunIsMarked(run, steps, d);
    TimerStep(run[i - 1], steps[i - 1], d);
    if d in run[i - 1].calls {
      RingingIsTimed(run, steps, i - 1, d);
    } else {
      UnknownIsNotTimed(run, steps, i - 1, d);
    }
  }

  lemma {:induction false} UnknownIsNotTimed(run: seq<Net>, steps: seq<Step>, i: nat, d: Device)
    requires IsRun(run, steps) && i < |run| && d !in run[i].calls
    ensures d !in run[i].timers && forall j :: 0 <= j < i ==> !StartsRinging(run[j], steps[j], d)
  {
    RunShape(run, steps, i);
    if i > 0 { UnknownIsNotTimed(run, steps, i - 1, d); }
  }

  lemma {:induction false} TimerStaysAway(run: seq<Net>, steps: seq<Step>, j: nat, k: nat, d: Device)
    requires IsRun(run, steps) && j <= k < |run| && d in run[j].calls && d !in run[j].timers
    ensures d in run[k].calls && d !in run[k].timers
  {
    if j < k { TimerStaysAway(run, steps, j, k - 1, d); }
  }

  /** The timer of a device goes off once at most. */
  lemma TimerFiresOnce(run: seq<Net>, steps: seq<Step>, j: nat, k: nat)
    requires IsRun(run, steps) && j < k < |steps| && steps[j].FireTimer?
    ensures !(steps[k].FireTimer? && steps[k].d == steps[j].d)
  {
    TimerStaysAway(run, steps, j + 1, k, steps[j].d);
  }

  lemma Extend(run: seq<Net>, steps: seq<Step>, s: Step) returns (run': seq<Net>, steps': seq<Step>)
    requires IsRun(run, steps) && Enabled(run[|steps|], s)
    ensures IsRun(run', steps') && |steps'| == |steps| + 1
    ensures run'[|steps'|] == Apply(run[|steps|], s)
  {
    run', steps' := run + [Apply(run[|steps|], s)], steps + [s];
  }

  /** The call of `a` and `b` is answered. */
  lemma AnswerCall(a: Device, b: Device) returns (run: seq<Net>, steps: seq<Step>)
    requires a == Device(Caller, 0) && b == Device(Callee, 0)
    ensures IsRun(run, steps)
    ensures var n := run[|steps|];
            && n.devices == {a, b} && n.inflight == {} && n.lost == {} && n.calls.Keys == {a, b}
            && n.calls[a].accepted == Some(12) && n.calls[b].accepted == Some(10)
            && n.calls[a].ended.None? && n.calls[b].ended.None?
  {
    var call, yes := Msg(CallMsg, a, b), Msg(AcceptedMsg, b, a);
    run, steps := [Net({a, b}, map[], {}, {}, {}, {}, {}, {})], [];
    run, steps := Extend(run, steps, PlaceCall(a, 1));
    assert run[|steps|].inflight == {call};
    run, steps := Extend(run, steps, Deliver(call, 2, 1, true, false));
    assert run[|steps|].inflight == {} && run[|steps|].calls[b].incoming;
    run, steps := Extend(run, steps, AcceptCall(b, 10));
    assert run[|steps|].inflight == {yes};
    run, steps := Extend(run, steps, Deliver(yes, 12, 0, true, false));
    assert run[|steps|].inflight == {};
  }

  /** A call that works: placed, delivered, accepted, ended two minutes later. */
  lemma AnsweredCall() returns (run: seq<Net>, steps: seq<Step>, a: Device, b: Device)
    ensures IsRun(run, steps) && run[|steps|].inflight == {} && a.user.Caller? && b.user.Callee?
    ensures a in run[|steps|].calls && CallState(run[|steps|].calls[a], 200) == Completed(119)
    ensures b in run[|steps|].calls && CallState(run[|steps|].calls[b], 200) == Completed(120)
  {
    a, b := Device(Caller, 0), Device(Callee, 0);
    var end := Msg(EndedMsg, b, a);
    run, steps := AnswerCall(a, b);
    run, steps := Extend(run, steps, EndCall(b, 130));
    assert run[|steps|].inflight == {end};
    run, steps := Extend(run, steps, Deliver(end, 131, 0, true, false));
    assert run[|steps|].inflight == {};
  }
}
