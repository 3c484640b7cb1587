/** One device's view of one call: the timestamps kept in the call message,
    its bubble text, the events shown to the user interface, and the four
    operations that change them. */
module Calls {
  import opened Options

  const RINGING_SECONDS := 120

  datatype Text =
    | OutgoingCall
    | IncomingCall
    | MissedCall
    | DeclinedCall
    | CanceledCall
    | Lasted(incoming: bool, minutes: int)

  datatype Event =
    | Ringing
    | IncomingAccepted(fromThisDevice: bool)
    | OutgoingAccepted
    | CallEnded

  /** The call message. `sent` is 0 on the device that placed the call. */
  datatype Call = Call(
    incoming: bool,
    sent: int,
    accepted: Option<int>,
    ended: Option<int>,
    canceled: Option<int>,
    text: Text,
    events: seq<Event>)

  datatype State =
    | Alerting
    | Active
    | Completed(duration: int)
    | Missed
    | Declined
    | Canceled

  // ---------------------------------------------------------------- queries

  function RemainingRingSeconds(c: Call, now: int): (r: int)
    ensures 0 <= r <= RINGING_SECONDS
    ensures r == 0 <==> c.sent + RINGING_SECONDS <= now
  {
    var left := c.sent + RINGING_SECONDS - now;
    if left < 0 then 0 else if left > RINGING_SECONDS then RINGING_SECONDS else left
  }

  predicate IsStale(c: Call, now: int) {
    (c.incoming || c.sent != 0) && RemainingRingSeconds(c, now) <= 0
  }

  function DurationSeconds(c: Call): (r: int)
    ensures r > 0 <==> c.accepted.Some? && c.ended.Some?
    ensures r > 1 ==> c.accepted.value + r == c.ended.value
  {
    match (c.accepted, c.ended)
    case (Some(start), Some(end)) => if end - start <= 0 then 1 else end - start
    case _ => 0
  }

  function CallState(c: Call, now: int): State {
    if c.accepted.Some? then
      if c.ended.Some? then Completed(DurationSeconds(c)) else Active
    else if c.canceled.Some? then
      if c.incoming then Missed else Canceled
    else if c.incoming then
      if c.ended.Some? then Declined else if IsStale(c, now) then Missed else Alerting
    else
      if c.ended.Some? || IsStale(c, now) then Declined else Alerting
  }

  // ---------------------------------------------------------------- updates

  /** The call as its placing device stores it. */
  function Placed(): Call {
    Call(false, 0, None, None, None, OutgoingCall, [])
  }

  /** The call as a device stores it when the call message arrives. `ring` says
      whether the who-can-call-me setting lets this contact ring. */
  function Received(incoming: bool, sent: int, now: int, ring: bool): Call {
    var c := Call(incoming, sent, None, None, None, OutgoingCall, []);
    if !incoming then c
    else if IsStale(c, now) then c.(text := MissedCall)
    else c.(text := IncomingCall, events := if ring then [Ringing] else [])
  }

  /** Whether the arrival of the call message starts a ring timer. */
  predicate StartsTimer(incoming: bool, sent: int, now: int) {
    incoming && now < sent + RINGING_SECONDS
  }

  function DurationText(c: Call): Text {
    Lasted(c.incoming, DurationSeconds(c) / 60)
  }

  predicate CanAccept(c: Call) {
    c.incoming && c.accepted.None? && c.ended.None?
  }

  function Accept(c: Call, now: int): Call {
    if CanAccept(c) then
      c.(accepted := Some(now), events := c.events + [IncomingAccepted(true)])
    else c
  }

  predicate CanEnd(c: Call) {
    c.ended.None?
  }

  /** Ends a call in a given way and tells the user interface. */
  function Finish(c: Call, now: int, cancel: bool, text: Text): Call {
    c.(ended := Some(now),
       canceled := if cancel then Some(now) else c.canceled,
       text := text,
       events := c.events + [CallEnded])
  }

  function HangUp(c: Call, now: int): Call {
    Finish(c, now, false, DurationText(c.(ended := Some(now))))
  }

  function End(c: Call, now: int): Call {
    if !CanEnd(c) then c
    else if c.accepted.Some? then HangUp(c, now)
    else if c.incoming then Finish(c, now, false, DeclinedCall)
    else Finish(c, now, true, CanceledCall)
  }

  predicate TimerActs(c: Call) {
    c.accepted.None? && c.ended.None?
  }

  function Timeout(c: Call, now: int): Call {
    if !TimerActs(c) then c
    else if c.incoming then Finish(c, now, true, MissedCall)
    else Finish(c, now, false, CanceledCall)
  }

  function HearAccepted(c: Call, now: int): Call {
    if c.ended.Some? || c.accepted.Some? then c
    else c.(accepted := Some(now),
            events := c.events + [if c.incoming then IncomingAccepted(false) else OutgoingAccepted])
  }

  function HearEnded(c: Call, now: int, fromSelf: bool): Call {
    if c.ended.Some? then c
    else if c.accepted.Some? then HangUp(c, now)
    else if c.incoming then
      if fromSelf then Finish(c, now, false, DeclinedCall) else Finish(c, now, true, MissedCall)
    else
      if fromSelf then Finish(c, now, true, CanceledCall) else Finish(c, now, false, DeclinedCall)
  }

  // ------------------------------------------------- what every device keeps

  datatype Milestone = WasAccepted | WasEnded

  /** The events of a call with ringing left out. */
  function Milestones(es: seq<Event>): seq<Milestone> {
    if es == [] then []
    else
      Milestones(es[..|es| - 1]) +
      match es[|es| - 1]
      case Ringing => []
      case CallEnded => [WasEnded]
      case _ => [WasAccepted]
  }

  /** The outcome that a bubble text names, if it names one. */
  function Named(t: Text): Option<State> {
    match t
    case MissedCall => Some(Missed)
    case DeclinedCall => Some(Declined)
    case CanceledCall => Some(Canceled)
    case _ => None
  }

  /** Text and state name the same outcome; for a completed call the text also
      has the call's direction and its length in whole minutes. */
  predicate TextAgrees(c: Call, now: int) {
    match CallState(c, now)
    case Completed(d) => c.text == Lasted(c.incoming, d / 60)
    case s => Named(c.text) == Some(s)
  }

  /** The invariant of one device; `timedOut` says its ring timer ended the call. */
  ghost predicate Consistent(c: Call, timedOut: bool) {
    && (c.canceled.Some? ==> c.ended == c.canceled)
    && !(c.accepted.Some? && c.canceled.Some?)
    && (timedOut ==> c.ended.Some? && c.accepted.None?)
    && (forall e :: e in c.events && !e.CallEnded? ==> (c.incoming <==> !e.OutgoingAccepted?))
    && (timedOut && !c.incoming ==> c.text == CanceledCall && c.canceled.None?)
    && (timedOut && c.incoming ==> c.canceled.Some?)
    && Milestones(c.events) ==
         (if c.accepted.Some? then [WasAccepted] else []) + (if c.ended.Some? then [WasEnded] else [])
    && (c.ended.Some? ==> (TextAgrees(c, c.ended.value) <==> c.incoming || !timedOut))
  }

  lemma MilestonesAppend(es: seq<Event>, e: Event)
    ensures Milestones(es + [e]) == Milestones(es) + Milestones([e])
  {
    assert (es + [e])[..|es|] == es;
    assert [e][..0] == [];
  }

  lemma FinishConsistent(c: Call, now: int, cancel: bool, text: Text, timedOut: bool)
    requires Consistent(c, false) && c.ended.None?
    requires timedOut || cancel ==> c.accepted.None?
    requires TextAgrees(Finish(c, now, cancel, text), now) <==> c.incoming || !timedOut
    requires timedOut ==> if c.incoming then cancel else text == CanceledCall && !cancel
    ensures Consistent(Finish(c, now, cancel, text), timedOut)
  {
    MilestonesAppend(c.events, CallEnded);
    assert Milestones([CallEnded]) == [WasEnded] by { assert [CallEnded][..0] == []; }
  }

  lemma AcceptedConsistent(c: Call, now: int, e: Event)
    requires Consistent(c, false) && c.accepted.None? && c.ended.None?
    requires if c.incoming then e.IncomingAccepted? else e.OutgoingAccepted?
    ensures Consistent(c.(accepted := Some(now), events := c.events + [e]), false)
  {
    MilestonesAppend(c.events, e);
    assert Milestones([e]) == [WasAccepted] by { assert [e][..0] == []; }
  }

  lemma StartsConsistent(incoming: bool, sent: int, now: int, ring: bool)
    ensures Consistent(Placed(), false) && Consistent(Received(incoming, sent, now, ring), false)
  {
    assert [Ringing][..0] == [];
  }

  /** A call that arrives is not marked in any way. On the callee's side it shows as
      missed exactly if it is, and else it rings, if the caller may, and is timed. */
  lemma ArrivalMatchesState(incoming: bool, sent: int, now: int, ring: bool)
    ensures var c := Received(incoming, sent, now, ring);
            && c.incoming == incoming && c.accepted.None? && c.ended.None? && c.canceled.None?
            && (Ringing in c.events <==> ring && StartsTimer(incoming, sent, now))
            && (incoming ==> CallState(c, now) == if StartsTimer(incoming, sent, now) then Alerting else Missed)
            && c.text == (if !incoming then OutgoingCall else if CallState(c, now) == Missed then MissedCall else IncomingCall)
            && c.sent == sent && c.events in {[], [Ringing]}
  {
  }

  /** A placed call rings, for as long as nothing happens to it. */
  lemma PlacedRings(t: int)
    ensures CallState(Placed(), t) == Alerting && Placed().text == OutgoingCall && Placed().events == []
  {
  }

  /** The ring timer goes off just as the call gets stale, exactly if the call was
      not dated in the future; else it rings for the full time. */
  lemma TimerMeetsStaleness(c: Call, now: int)
    requires c.incoming && !IsStale(c, now)
    ensures IsStale(c, now + RemainingRingSeconds(c, now)) <==> c.sent <= now
    ensures !IsStale(c, now + RemainingRingSeconds(c, now) - 1)
    ensures c.sent >= now ==> RemainingRingSeconds(c, now) == RINGING_SECONDS
  {
  }

  lemma AcceptKeeps(c: Call, now: int, timedOut: bool)
    requires Consistent(c, timedOut)
    ensures Consistent(Accept(c, now), timedOut)
    ensures Consistent(HearAccepted(c, now), timedOut)
  {
    if c.ended.None? && c.accepted.None? {
      if c.incoming { AcceptedConsistent(c, now, IncomingAccepted(true)); }
      AcceptedConsistent(c, now, if c.incoming then IncomingAccepted(false) else OutgoingAccepted);
    }
  }

  lemma TimeoutKeeps(c: Call, now: int, timedOut: bool)
    requires Consistent(c, timedOut)
    ensures Consistent(Timeout(c, now), timedOut || TimerActs(c))
  {
    if TimerActs(c) {
      FinishConsistent(c, now, c.incoming, if c.incoming then MissedCall else CanceledCall, true);
    }
  }

  lemma EndKeeps(c: Call, now: int, fromSelf: bool, timedOut: bool)
    requires Consistent(c, timedOut)
    ensures Consistent(HearEnded(c, now, fromSelf), timedOut)
  {
    if c.ended.None? {
      if c.accepted.Some? {
        FinishConsistent(c, now, false, DurationText(c.(ended := Some(now))), false);
      } else if c.incoming == fromSelf {
        FinishConsistent(c, now, false, DeclinedCall, false);
      } else {
        FinishConsistent(c, now, true, if c.incoming then MissedCall else CanceledCall, false);
      }
    }
  }

  /** A device that ends the call ends up like one that hears its own user end it. */
  lemma EndIsHearingOneself(c: Call, now: int)
    ensures End(c, now) == HearEnded(c, now, true)
  {
  }

  predicate AcceptedHere(c: Call) { IncomingAccepted(true) in c.events }

  /** Only accepting on this device shows as such. */
  lemma OnlyAcceptShowsHere(c: Call, now: int, fromSelf: bool)
    ensures AcceptedHere(Accept(c, now)) <==> AcceptedHere(c) || CanAccept(c)
    ensures AcceptedHere(End(c, now)) <==> AcceptedHere(c)
    ensures AcceptedHere(Timeout(c, now)) <==> AcceptedHere(c)
    ensures AcceptedHere(HearAccepted(c, now)) <==> AcceptedHere(c)
    ensures AcceptedHere(HearEnded(c, now, fromSelf)) <==> AcceptedHere(c)
  {
  }

  /** An ended call never changes again, and neither does its state, whatever the clock says. */
  lemma EndedIsFinal(c: Call, now: int, fromSelf: bool, t1: int, t2: int)
    requires c.ended.Some?
    ensures Accept(c, now) == End(c, now) == Timeout(c, now) == HearAccepted(c, now)
            == HearEnded(c, now, fromSelf) == c
    ensures CallState(c, t1) == CallState(c, t2)
  {
  }

  /** What each state says about a call. */
  lemma StateMeaning(c: Call, now: int, timedOut: bool)
    requires Consistent(c, timedOut)
    ensures CallState(c, now) == Active <==> c.accepted.Some? && c.ended.None?
    ensures CallState(c, now).Completed? <==> c.accepted.Some? && c.ended.Some?
    ensures CallState(c, now) == Alerting <==>
              && c.accepted.None? && c.ended.None?
              && (now < c.sent + RINGING_SECONDS || (!c.incoming && c.sent == 0))
    ensures CallState(c, now) == Canceled <==> !c.incoming && c.canceled.Some?
    ensures CallState(c, now) == Missed <==>
              && c.incoming && c.accepted.None?
              && (c.canceled.Some? || (c.ended.None? && c.sent + RINGING_SECONDS <= now))
  {
  }

  /** A completed call lasted from its acceptance to its end, and one second at least. */
  predicate Spans(s: State, from: int, to: int) {
    s.Completed? && s.duration >= 1 && if from < to then from + s.duration == to else s.duration == 1
  }

  /** Nothing but marks, text and events changes. */
  predicate SameCall(c: Call, c': Call) { c'.incoming == c.incoming && c'.sent == c.sent }

  /** A call that is neither accepted nor ended becomes an active one by accepting it or
      by hearing of it; accepting is for incoming calls. Else nothing happens. */
  lemma AcceptingTakesEffect(c: Call, now: int, t: int)
    ensures var c' := Accept(c, now);
            if c.incoming && c.accepted.None? && c.ended.None?
            then CanAccept(c) && c'.accepted == Some(now) && CallState(c', t) == Active && SameCall(c, c')
            else !CanAccept(c) && c' == c
    ensures var c' := HearAccepted(c, now);
            if c.accepted.None? && c.ended.None?
            then c'.accepted == Some(now) && CallState(c', t) == Active && SameCall(c, c')
            else c' == c
  {
  }

  /** A call that has not ended ends now: an accepted one is completed, and for others
      it depends on who ended it. Else nothing happens. */
  lemma EndingTakesEffect(c: Call, now: int, fromSelf: bool, t: int)
    requires c.canceled.Some? ==> c.ended.Some?
    ensures CanEnd(c) <==> c.ended.None?
    ensures var c' := HearEnded(c, now, fromSelf);
            if c.ended.Some? then c' == c
            else
              && c'.ended == Some(now) && c'.accepted == c.accepted && SameCall(c, c')
              && if c.accepted.Some? then Spans(CallState(c', t), c.accepted.value, now)
                 else CallState(c', t) == if c.incoming == fromSelf then Declined else if fromSelf then Canceled else Missed
  {
  }

  /** The ring timer ends a call that is neither accepted nor ended. */
  lemma TimeoutTakesEffect(c: Call, now: int, t: int)
    requires c.canceled.Some? ==> c.ended.Some?
    ensures var c' := Timeout(c, now);
            if c.accepted.None? && c.ended.None?
            then
              && TimerActs(c) && c'.ended == Some(now) && c'.accepted.None? && SameCall(c, c')
              && CallState(c', t) == if c.incoming then Missed else Declined
            else !TimerActs(c) && c' == c
  {
  }

  // -------------------------------------------------------- the stored object

  /** The call as the program holds it: loaded, updated field by field. */
  class CallInfo {
    const incoming: bool
    const sent: int
    var accepted: Option<int>
    var ended: Option<int>
    var canceled: Option<int>
    var text: Text
    var events: seq<Event>

    ghost function Value(): Call
      reads this
    {
      Call(incoming, sent, accepted, ended, canceled, text, events)
    }

    constructor Place()
      ensures Value() == Placed()
    {
      incoming, sent, accepted, ended, canceled := false, 0, None, None, None;
      text, events := OutgoingCall, [];
    }

    constructor Receive(isIncoming: bool, sentAt: int, now: int, ring: bool)
      ensures Value() == Received(isIncoming, sentAt, now, ring)
    {
      incoming, sent, accepted, ended, canceled := isIncoming, sentAt, None, None, None;
      text, events := OutgoingCall, [];
      new;
      if incoming {
        if now >= sent + RINGING_SECONDS {
          text := MissedCall;
        } else {
          text := IncomingCall;
          if ring { events := events + [Ringing]; }
        }
      }
    }

    method MarkAsAccepted(now: int)
      modifies this`accepted
      ensures accepted == Some(now)
    {
      accepted := Some(now);
    }

    method MarkAsEnded(now: int)
      modifies this`ended
      ensures ended == Some(now)
    {
      ended := Some(now);
    }

    method MarkAsCanceled(now: int)
      modifies this`ended, this`canceled
      ensures ended == canceled == Some(now)
    {
      ended := Some(now);
      canceled := Some(now);
    }

    method UpdateTextDuration()
      modifies this`text
      ensures text == DurationText(old(Value()))
    {
      var seconds := 0;
      if accepted.Some? && ended.Some? {
        seconds := ended.value - accepted.value;
        if seconds <= 0 { seconds := 1; }
      }
      text := Lasted(incoming, seconds / 60);
    }

    /** Returns whether an acceptance message goes out; `failed` for an outgoing call. */
    method AcceptIncomingCall(now: int) returns (failed: bool, sends: bool)
      modifies this
      ensures Value() == Accept(old(Value()), now)
      ensures failed == !incoming && sends == CanAccept(old(Value()))
    {
      failed, sends := !incoming, false;
      if failed || accepted.Some? || ended.Some? { return; }
      MarkAsAccepted(now);
      events := events + [IncomingAccepted(true)];
      sends := true;
    }

    /** Returns whether an "ended" message goes out. */
    method EndCall(now: int) returns (sends: bool)
      modifies this
      ensures Value() == End(old(Value()), now)
      ensures sends == CanEnd(old(Value()))
    {
      sends := false;
      if ended.Some? { return; }
      if accepted.None? {
        if incoming {
          MarkAsEnded(now);
          text := DeclinedCall;
        } else {
          MarkAsCanceled(now);
          text := CanceledCall;
        }
      } else {
        MarkAsEnded(now);
        UpdateTextDuration();
      }
      events := events + [CallEnded];
      sends := true;
    }

    method EmitEndCallIfUnaccepted(now: int)
      modifies this
      ensures Value() == Timeout(old(Value()), now)
    {
      if accepted.None? && ended.None? {
        if incoming {
          MarkAsCanceled(now);
          text := MissedCall;
        } else {
          MarkAsEnded(now);
          text := CanceledCall;
        }
        events := events + [CallEnded];
      }
    }

    method HandleCallAccepted(now: int)
      modifies this
      ensures Value() == HearAccepted(old(Value()), now)
    {
      if ended.Some? || accepted.Some? { return; }
      MarkAsAccepted(now);
      if incoming {
        events := events + [IncomingAccepted(false)];
      } else {
        events := events + [OutgoingAccepted];
      }
    }

    method HandleCallEnded(now: int, fromSelf: bool)
      modifies this
      ensures Value() == HearEnded(old(Value()), now, fromSelf)
    {
      if ended.Some? { return; }
      if accepted.None? {
        if incoming && fromSelf {
          MarkAsEnded(now);
          text := DeclinedCall;
        } else if incoming {
          MarkAsCanceled(now);
          text := MissedCall;
        } else if fromSelf {
          MarkAsCanceled(now);
          text := CanceledCall;
        } else {
          MarkAsEnded(now);
          text := DeclinedCall;
        }
      } else {
        MarkAsEnded(now);
        UpdateTextDuration();
      }
      events := events + [CallEnded];
    }
  }
}
