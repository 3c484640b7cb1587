/** The queue of post-messages to download, down to the mails that come back. All
    tables are keyed by Message-ID, so the story of one message is told by its entry
    in each of them. */
module Download {
  import opened Options

  type Mid = string

  datatype DownloadState = Done | Available | Failure | Undecipherable | InProgress

  /** Where the message is on the server, seen from the current session. */
  datatype Location = Unknown | Here | Elsewhere

  /** What receiving a mail leaves behind if its Message-ID is new. */
  datatype Arrival = AsNothing | AsDone | AsUndecipherable | AsAvailable

  /** A mail as the server returns it, and what decides its fate: its flags, whether
      receiving it fails, or turns it away (no sender, not for us, forbidden or broken),
      before it gets to the message, whether it is a post-message, and how its first
      part and its sender compare with the pre-message. */
  datatype Mail = Mail(
    deleted: bool,
    hasBody: bool,
    error: bool,
    turnedAway: bool,
    isPost: bool,
    hasPart: bool,
    sameSender: bool,
    encrypted: bool,
    preEncrypted: bool,
    hasFile: bool,
    arrival: Arrival)

  /** How a fetch ends: with an error or without this mail, or with the mail. */
  datatype Fetch = Failed | Response(mail: Mail)

  /** The mail is handed on and handled without an error. */
  predicate Handled(mail: Mail) {
    !mail.deleted && mail.hasBody && !mail.error
  }

  /** The mail takes the place of the attachment that its pre-message announced. */
  predicate Replaces(mail: Mail) {
    && Handled(mail) && !mail.turnedAway && mail.isPost
    && mail.hasPart && mail.sameSender && (mail.encrypted || !mail.preEncrypted) && mail.hasFile
  }

  /** What the tables say about one Message-ID. */
  datatype Entry = Entry(state: Option<DownloadState>, queued: bool, announced: bool)

  datatype Outcome = Got | NotHere | Error

  // ---------------------------------------------------- effects on one entry

  function Request(e: Entry): Entry {
    if e.state == Some(Available) || e.state == Some(Failure) then e.(state := Some(InProgress), queued := true)
    else e
  }

  function TryOutcome(loc: Location, fetch: Fetch): Outcome {
    match loc
    case Unknown => Error
    case Elsewhere => NotHere
    case Here => if fetch.Failed? then Error else Got
  }

  /** A known message only ever becomes done; for a new one the mail decides. */
  function AfterMail(state: Option<DownloadState>, mail: Mail): Option<DownloadState> {
    if state.Some? then if Replaces(mail) then Some(Done) else state
    else if !Handled(mail) then None
    else
      match mail.arrival
      case AsNothing => None
      case AsDone => Some(Done)
      case AsUndecipherable => Some(Undecipherable)
      case AsAvailable => Some(Available)
  }

  function Try(e: Entry, loc: Location, fetch: Fetch): Entry {
    match loc
    case Unknown => e.(announced := false)
    case Elsewhere => e
    case Here => if fetch.Response? then e.(state := AfterMail(e.state, fetch.mail)) else e
  }

  /** One round of the download queue for a queued Message-ID. */
  function Round(e: Entry, loc: Location, fetch: Fetch): Entry {
    var e' := Try(e, loc, fetch);
    match TryOutcome(loc, fetch)
    case Got => e'.(queued := false, announced := false)
    case NotHere => e'
    case Error =>
      if e'.state.None? then e'.(queued := false)
      else if e'.announced then e'.(state := Some(Failure), queued := false, announced := false)
      else e'
  }

  /** Download of an announced post-message whose pre-message may be lost. */
  function Rescue(e: Entry, loc: Location, fetch: Fetch): Entry {
    if e.state.Some? then e.(announced := false)
    else
      var e' := Try(e, loc, fetch);
      if TryOutcome(loc, fetch).Got? then e'.(announced := false) else e'
  }

  // -------------------------------------------------------------- the tables

  class Tables {
    var msgs: map<Mid, DownloadState>
    var download: set<Mid>
    var available: set<Mid>

    ghost function View(mid: Mid): Entry
      reads this
    {
      Entry(if mid in msgs then Some(msgs[mid]) else None, mid in download, mid in available)
    }

    /** Returns whether the download was scheduled without an error. A message without
        a Message-ID cannot be requested. */
    method DownloadFull(mid: Mid) returns (ok: bool)
      modifies this
      ensures forall x :: View(x) == if x == mid && mid != "" then Request(old(View(x))) else old(View(x))
      ensures mid != "" && mid in old(msgs) && old(msgs)[mid] in {Available, Failure} ==>
                msgs == old(msgs)[mid := InProgress] && download == old(download) + {mid}
      ensures !(mid != "" && mid in old(msgs) && old(msgs)[mid] in {Available, Failure}) ==>
                msgs == old(msgs) && download == old(download)
      ensures available == old(available)
      ensures ok <==> mid != "" && old(View(mid)).state in {Some(Available), Some(Failure)} && !old(View(mid)).queued
    {
      ok := false;
      if mid in msgs && (msgs[mid].Available? || msgs[mid].Failure?) && mid != "" {
        msgs := msgs[mid := InProgress];
        ok := mid !in download;
        download := download + {mid};
      }
    }

    /** Hands a fetched mail on. */
    method Receive(mid: Mid, mail: Mail)
      modifies this`msgs
      ensures forall x :: View(x) ==
                if x == mid then old(View(x)).(state := AfterMail(old(View(x)).state, mail)) else old(View(x))
    {
      if mail.deleted || !mail.hasBody || mail.error { return; }
      if mid in msgs {
        if mail.turnedAway || !mail.isPost || !mail.hasPart { return; }
        if !mail.sameSender { return; }
        if !mail.encrypted && mail.preEncrypted { return; }
        if !mail.hasFile { return; }
        msgs := msgs[mid := Done];
      } else {
        match mail.arrival
        case AsNothing =>
        case AsDone => msgs := msgs[mid := Done];
        case AsUndecipherable => msgs := msgs[mid := Undecipherable];
        case AsAvailable => msgs := msgs[mid := Available];
      }
    }

    method DownloadMsg(mid: Mid, loc: Location, fetch: Fetch) returns (res: Outcome)
      modifies this
      ensures forall x :: View(x) == if x == mid then Try(old(View(x)), loc, fetch) else old(View(x))
      ensures download == old(download) && res == TryOutcome(loc, fetch)
    {
      if loc.Unknown? {
        available := available - {mid};
        return Error;
      }
      if loc.Elsewhere? { return NotHere; }
      if fetch.Failed? { return Error; }
      Receive(mid, fetch.mail);
      res := Got;
    }

    method DownloadOne(mid: Mid, loc: Location, fetch: Fetch)
      modifies this
      ensures forall x :: View(x) == if x == mid then Round(old(View(x)), loc, fetch) else old(View(x))
    {
      var res := DownloadMsg(mid, loc, fetch);
      if res.Got? {
        download := download - {mid};
        available := available - {mid};
      } else if res.Error? {
        if mid !in msgs {
          download := download - {mid};
        } else if mid in available {
          msgs := msgs[mid := Failure];
          download := download - {mid};
          available := available - {mid};
        }
      }
    }

    /** One round over the whole queue, in any order. */
    method DownloadMsgs(loc: Mid -> Location, fetch: Mid -> Fetch)
      modifies this
      ensures forall x :: View(x) == if old(View(x)).queued then Round(old(View(x)), loc(x), fetch(x)) else old(View(x))
    {
      var todo := download;
      while todo != {}
        invariant todo <= old(download)
        invariant forall x :: View(x) ==
                    if x in old(download) && x !in todo then Round(old(View(x)), loc(x), fetch(x)) else old(View(x))
        decreases todo
      {
        var mid :| mid in todo;
        DownloadOne(mid, loc(mid), fetch(mid));
        todo := todo - {mid};
      }
    }

    method DownloadKnownPostMessages(loc: Mid -> Location, fetch: Mid -> Fetch)
      modifies this
      ensures forall x :: View(x) == if old(View(x)).announced then Rescue(old(View(x)), loc(x), fetch(x)) else old(View(x))
    {
      var todo := available;
      while todo != {}
        invariant todo <= old(available)
        invariant forall x :: View(x) ==
                    if x in old(available) && x !in todo then Rescue(old(View(x)), loc(x), fetch(x)) else old(View(x))
        decreases todo
      {
        var mid :| mid in todo;
        if mid in msgs {
          available := available - {mid};
        } else {
          var res := DownloadMsg(mid, loc(mid), fetch(mid));
          if res.Got? { available := available - {mid}; }
        }
        todo := todo - {mid};
      }
    }
  }

  // ------------------------------------------------------------- properties

  /** A request takes effect exactly for available and failed messages: they are in
      progress and queued. */
  lemma RequestMeaning(e: Entry)
    ensures e.state in {Some(Available), Some(Failure)} ==>
              Request(e) == Entry(Some(InProgress), true, e.announced)
    ensures e.state !in {Some(Available), Some(Failure)} ==> Request(e) == e
  {
  }

  /** A mail that is not flagged as deleted, has a body and gives no error. */
  predicate ComesThrough(m: Mail) { !(m.deleted || !m.hasBody || m.error) }

  /** A round makes a message done, if it was not, exactly if its place is known, the mail
      comes through, and it passes all checks against a known message, or is complete
      if the message is new. */
  lemma RoundMakesDone(e: Entry, loc: Location, fetch: Fetch)
    requires e.state != Some(Done)
    ensures Round(e, loc, fetch).state == Some(Done) <==>
              && loc.Here? && fetch.Response? && ComesThrough(fetch.mail)
              && var m := fetch.mail;
                 if e.state.None? then m.arrival.AsDone?
                 else !m.turnedAway && m.isPost && m.hasPart && m.sameSender && m.hasFile
                      && (m.preEncrypted ==> m.encrypted)
  {
  }

  /** A message is still announced after a round exactly if it was, and it is on another
      server, or it is new and could not be fetched. */
  lemma WhoStaysAnnounced(e: Entry, loc: Location, fetch: Fetch)
    ensures Round(e, loc, fetch).announced <==>
              e.announced && (loc.Elsewhere? || (loc.Here? && fetch.Failed? && e.state.None?))
  {
  }

  /** Apart from that a round leaves a known state as it is. */
  lemma RoundKeepsState(e: Entry, loc: Location, fetch: Fetch)
    ensures e.state.Some? ==> Round(e, loc, fetch).state in {e.state, Some(Done), Some(Failure)}
    ensures e.state.None? ==>
              Round(e, loc, fetch).state ==
                if loc.Here? && fetch.Response? && ComesThrough(fetch.mail)
                then match fetch.mail.arrival
                     case AsNothing => None
                     case AsDone => Some(Done)
                     case AsUndecipherable => Some(Undecipherable)
                     case AsAvailable => Some(Available)
                else None
  {
  }

  /** Rescuing fetches exactly new messages, and gives up an announcement exactly if the
      message is known, its place is not, or the server returned it. It never touches the
      queue or a known message. */
  lemma RescueMeaning(e: Entry, loc: Location, fetch: Fetch)
    ensures var e' := Rescue(e, loc, fetch);
            && e'.queued == e.queued
            && (e.state.Some? ==> e'.state == e.state)
            && (e.state.None? ==>
                  (e'.state == Some(Done) <==>
                   loc.Here? && fetch.Response? && ComesThrough(fetch.mail) && fetch.mail.arrival.AsDone?))
            && (e'.announced <==>
                  e.announced && e.state.None? && (loc.Elsewhere? || (loc.Here? && fetch.Failed?)))
  {
  }

  /** A round turns a message into a failure exactly if its place on the server was
      known, fetching it from there failed, and it was still announced. */
  lemma FailureMeansFetchFailed(e: Entry, loc: Location, fetch: Fetch)
    requires e.state != Some(Failure)
    ensures Round(e, loc, fetch).state == Some(Failure) <==>
              loc.Here? && fetch.Failed? && e.state.Some? && e.announced
  {
  }

  /** A message stays queued after a round exactly if it is on another server, or is
      a known message whose place is unknown, or one that is not announced and could
      not be fetched; and then its state stays, too. */
  lemma WhoStaysQueued(e: Entry, loc: Location, fetch: Fetch)
    requires e.queued
    ensures Round(e, loc, fetch).queued <==>
              || loc.Elsewhere?
              || (loc.Unknown? && e.state.Some?)
              || (loc.Here? && fetch.Failed? && e.state.Some? && !e.announced)
    ensures Round(e, loc, fetch).queued ==> Round(e, loc, fetch).state == e.state
  {
  }

  /** What happens to the entry of one Message-ID. A mail may arrive without being on
      the download queue. The listing of a folder announces a post-message, and queues
      it if it is small enough; a large ordinary mail it only queues. A message deleted
      by the user leaves the queue. One that expires or that its sender deletes does
      not. Either leaves a tombstone, which counts as done and is dropped later. */
  datatype Step =
    | Arrive(mail: Mail)
    | Announce(later: bool)
    | Queue
    | UserRequest
    | QueueRound(loc: Location, fetch: Fetch)
    | RescueRound(loc: Location, fetch: Fetch)
    | DeleteByUser
    | DeleteOtherwise
    | DropTombstone

  /** A listing passes over messages for which a download was tried. */
  predicate Untried(e: Entry) { e.state.None? || e.state == Some(Available) }

  predicate Enabled(e: Entry, s: Step) {
    match s
    case Announce(_) => Untried(e)
    case Queue => Untried(e)
    case DeleteByUser => e.state.Some?
    case DeleteOtherwise => e.state.Some?
    case DropTombstone => e.state == Some(Done)
    case QueueRound(_, _) => e.queued
    case RescueRound(_, _) => e.announced
    case _ => true
  }

  function Apply(e: Entry, s: Step): Entry {
    match s
    case Arrive(mail) => e.(state := AfterMail(e.state, mail))
    case Announce(later) => e.(announced := true, queued := e.queued || later)
    case Queue => e.(queued := true)
    case UserRequest => Request(e)
    case QueueRound(loc, fetch) => Round(e, loc, fetch)
    case RescueRound(loc, fetch) => Rescue(e, loc, fetch)
    case DeleteByUser => Entry(Some(Done), false, false)
    case DeleteOtherwise => e.(state := Some(Done))
    case DropTombstone => e.(state := None)
  }

  ghost predicate IsRun(run: seq<Entry>, steps: seq<Step>) {
    && |run| == |steps| + 1
    && run[0] == Entry(None, false, false)
    && forall i :: 0 <= i < |steps| ==> Enabled(run[i], steps[i]) && run[i + 1] == Apply(run[i], steps[i])
  }

  /** In every run a message in progress was requested by the user while it was available
      or had failed, and has not been anything else since. */
  lemma {:induction false} InProgressWasRequested(run: seq<Entry>, steps: seq<Step>, i: nat) returns (j: nat)
    requires IsRun(run, steps) && i < |run| && run[i].state == Some(InProgress)
    ensures j < i && steps[j].UserRequest? && run[j].state in {Some(Available), Some(Failure)}
    ensures forall k :: j < k <= i ==> run[k].state == Some(InProgress)
  {
    if run[i - 1].state == Some(InProgress) {
      j := InProgressWasRequested(run, steps, i - 1);
    } else {
      assert run[i] == Apply(run[i - 1], steps[i - 1]);
      j := i - 1;
    }
  }

  lemma FetchWorks(mail: Mail)
    requires ComesThrough(mail) && !mail.turnedAway && mail.isPost && mail.hasPart && mail.sameSender
    requires mail.hasFile && mail.encrypted
    ensures Round(Entry(Some(InProgress), true, true), Here, Response(mail)) == Entry(Some(Done), false, false)
  {
  }

  /** A download that works: announced, received, requested, fetched. */
  lemma DownloadWorks(pre: Mail, mail: Mail) returns (run: seq<Entry>, steps: seq<Step>)
    requires ComesThrough(pre) && pre.arrival.AsAvailable?
    requires ComesThrough(mail) && !mail.turnedAway && mail.isPost && mail.hasPart && mail.sameSender
    requires mail.hasFile && mail.encrypted
    ensures IsRun(run, steps) && |steps| == 4
    ensures run[3] == Entry(Some(InProgress), true, true) && run[4] == Entry(Some(Done), false, false)
  {
    var s0, s1, s2, s3 := Announce(false), Arrive(pre), UserRequest, QueueRound(Here, Response(mail));
    var e0, e1, e2 := Entry(None, false, false), Entry(None, false, true), Entry(Some(Available), false, true);
    var e3, e4 := Entry(Some(InProgress), true, true), Entry(Some(Done), false, false);
    FetchWorks(mail);
    assert AfterMail(None, pre) == Some(Available);
    steps, run := [s0, s1, s2, s3], [e0, e1, e2, e3, e4];
  }

  predicate Stranded(e: Entry) { e.state == Some(InProgress) && !e.queued }

  /** A mail that came back without replacing the message in progress. */
  predicate StrandedBy(e: Entry, s: Step) {
    s.QueueRound? && s.loc.Here? && s.fetch.Response? && !Replaces(s.fetch.mail) && e.state == Some(InProgress)
  }

  /** One round leaves a message in progress behind exactly if its place is known and the
      server returns a mail that is deleted, empty, not handled, turned away or no
      post-message, or whose first part fails a check against the pre-message. */
  lemma RoundStrands(e: Entry, loc: Location, fetch: Fetch)
    requires e.queued && e.state == Some(InProgress)
    ensures Stranded(Round(e, loc, fetch)) <==>
              && loc.Here? && fetch.Response?
              && var m := fetch.mail;
                 || m.deleted || !m.hasBody || m.error || m.turnedAway || !m.isPost
                 || !m.hasPart || !m.sameSender || (!m.encrypted && m.preEncrypted) || !m.hasFile
  {
  }

  /** The steps that take a message out of being stranded. */
  predicate Frees(s: Step) {
    s.DeleteByUser? || s.DeleteOtherwise? || (s.Arrive? && Replaces(s.mail))
  }

  lemma StrandedStep(e: Entry, s: Step)
    requires Enabled(e, s)
    ensures Stranded(Apply(e, s)) <==> (Stranded(e) && !Frees(s)) || (e.queued && StrandedBy(e, s))
  {
  }

  /** Step `j` left the message behind and nothing freed it before state `i`. */
  ghost predicate LeftBehind(run: seq<Entry>, steps: seq<Step>, i: nat, j: nat)
    requires |run| == |steps| + 1 && i < |run|
  {
    j < i && StrandedBy(run[j], steps[j]) && forall k :: j < k < i ==> !Frees(steps[k])
  }

  /** In every run a message is in progress but not queued exactly if some mail left it
      behind and since then it was neither deleted nor replaced by a mail that arrived
      unasked. Requests by the user, rounds and listings do not help. */
  lemma {:induction false} WhoIsStranded(run: seq<Entry>, steps: seq<Step>, i: nat)
    requires IsRun(run, steps) && i < |run|
    ensures Stranded(run[i]) <==> exists j :: LeftBehind(run, steps, i, j)
  {
    if i > 0 {
      WhoIsStranded(run, steps, i - 1);
      StrandedStep(run[i - 1], steps[i - 1]);
      if Stranded(run[i]) {
        if StrandedBy(run[i - 1], steps[i - 1]) {
          assert LeftBehind(run, steps, i, i - 1);
        } else {
          var j :| LeftBehind(run, steps, i - 1, j);
          assert LeftBehind(run, steps, i, j);
        }
      }
      if j: nat :| LeftBehind(run, steps, i, j) {
        if j < i - 1 { assert LeftBehind(run, steps, i - 1, j); }
      }
    }
  }
}
