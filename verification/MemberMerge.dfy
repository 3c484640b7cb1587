/** Merging the member timestamps that group messages carry. Every contact's row
    has a rank, the time of its latest change with additions ahead of removals in
    the same second; merging keeps the higher rank. */
module MemberMerge {
  import opened Ids
  import opened Options
  import opened Membership

  const SIXTY_DAYS := 60 * 24 * 3600

  /** One entry of a received message: a current or a past member and its timestamp. */
  datatype Update = Added(c: ContactId, ts: int) | Removed(c: ContactId, ts: int)

  function Merge(t: Table, u: Update): Table {
    match u
    case Added(c, ts) =>
      if c !in t then t[c := Row(ts, 0)]
      else if ts > t[c].add && ts >= t[c].rem then t[c := Row(ts, t[c].rem)] else t
    case Removed(c, ts) =>
      if c !in t then t[c := Row(0, ts)]
      else if ts > t[c].rem && ts > t[c].add then t[c := Row(t[c].add, ts)] else t
  }

  function MergeAll(t: Table, us: seq<Update>): Table {
    if us == [] then t else Merge(MergeAll(t, us[..|us| - 1]), us[|us| - 1])
  }

  function Rank(t: Table, c: ContactId): int {
    if c !in t then -2
    else if t[c].add >= t[c].rem then 2 * t[c].add + 1
    else 2 * t[c].rem
  }

  function Weight(u: Update): int {
    match u case Added(_, ts) => 2 * ts + 1 case Removed(_, ts) => 2 * ts
  }

  /** Timestamps as a correct peer sends them. */
  predicate Genuine(u: Update) {
    match u case Added(_, ts) => ts >= 0 case Removed(_, ts) => ts > 0
  }

  lemma MembersHaveOddRank(t: Table, c: ContactId)
    ensures c in Members(t) <==> Rank(t, c) % 2 == 1
  {
  }

  // ------------------------------------------------------------ convergence

  lemma MergeTakesTheNewer(t: Table, u: Update, c: ContactId)
    requires Genuine(u)
    ensures Rank(Merge(t, u), c) == if c == u.c then Max(Rank(t, c), Weight(u)) else Rank(t, c)
  {
  }

  /** What a merge writes: the one timestamp that the update is about, and only if the
      update is the later change; all else stays. */
  lemma MergeStamps(t: Table, u: Update, c: ContactId)
    requires Genuine(u)
    ensures var t' := Merge(t, u);
            if c == u.c && Weight(u) > Rank(t, c) then
              && c in t'
              && (u.Added? ==> t'[c].add == u.ts && t'[c].rem == if c in t then t[c].rem else 0)
              && (u.Removed? ==> t'[c].rem == u.ts && t'[c].add == if c in t then t[c].add else 0)
            else (c in t' <==> c in t) && (c in t ==> t'[c] == t[c])
  {
  }

  /** A change made here at `now` outlasts what a peer tells of an earlier time: after a
      removal the contact stays out, after an addition it stays in. */
  lemma LocalChangesOutlast(t: Table, c: ContactId, now: int, u: Update)
    requires c in t && now >= 0 && Genuine(u) && u.c == c && u.ts < now
    ensures c !in Members(Merge(Do(t, Delete(now, c)), u))
    ensures c in Members(Merge(Do(t, AssignAll(now, {c})), u))
    ensures IsPast(t, c) ==> c in Members(Merge(Do(t, Insert(now, c)), u))
  {
  }

  /** The rank after a series of merges is the highest of all ranks offered. */
  lemma {:induction false} MergeAllTakesTheNewest(t: Table, us: seq<Update>, c: ContactId)
    requires forall u :: u in us ==> Genuine(u)
    ensures Rank(t, c) <= Rank(MergeAll(t, us), c)
    ensures forall u :: u in us && u.c == c ==> Weight(u) <= Rank(MergeAll(t, us), c)
    ensures || Rank(MergeAll(t, us), c) == Rank(t, c)
            || exists u :: u in us && u.c == c && Weight(u) == Rank(MergeAll(t, us), c)
  {
    if us != [] {
      MergeAllTakesTheNewest(t, us[..|us| - 1], c);
      MergeTakesTheNewer(MergeAll(t, us[..|us| - 1]), us[|us| - 1], c);
    }
  }

  /** Two peers that start alike and receive the same updates end up with the same
      members, whatever the order and however often each update arrives. */
  lemma PeersConverge(t1: Table, t2: Table, us: seq<Update>, vs: seq<Update>)
    requires forall c :: Rank(t1, c) == Rank(t2, c)
    requires forall u :: u in us ==> Genuine(u)
    requires forall u :: u in us <==> u in vs
    ensures forall c :: Rank(MergeAll(t1, us), c) == Rank(MergeAll(t2, vs), c)
    ensures Members(MergeAll(t1, us)) == Members(MergeAll(t2, vs))
  {
    forall c: ContactId
      ensures Rank(MergeAll(t1, us), c) == Rank(MergeAll(t2, vs), c)
      ensures c in Members(MergeAll(t1, us)) <==> c in Members(MergeAll(t2, vs))
    {
      MergeAllTakesTheNewest(t1, us, c);
      MergeAllTakesTheNewest(t2, vs, c);
      MembersHaveOddRank(MergeAll(t1, us), c);
      MembersHaveOddRank(MergeAll(t2, vs), c);
    }
  }

  /** For a contact without a row, an update has its plain meaning exactly if it
      is genuine: a removal at time 0 or earlier makes the contact a member. */
  lemma FirstUpdateMeansWhatItSays(t: Table, u: Update)
    requires u.c !in t
    ensures (u.c in Members(Merge(t, u)) <==> u.Added?) <==> Genuine(u)
  {
  }

  // ----------------------------------------------------- local changes win

  /** A change made on this device outranks everything it knew before, except
      exactly when the clock is behind a removal time already stored. */
  lemma LocalChangesOutrank(t: Table, op: Op, c: ContactId)
    requires op.ts >= 0
    ensures Rank(Do(t, op), c) < Rank(t, c) <==>
              && (op.AssignAll? || (op.Delete? && op.c == c))
              && IsPast(t, c) && Max(t[c].add + 1, op.ts) < t[c].rem
    ensures (c in Members(Do(t, op)) <==> c in Members(t)) || Rank(Do(t, op), c) > Rank(t, c)
            || (op.AssignAll? && IsPast(t, c) && Max(t[c].add + 1, op.ts) < t[c].rem)
  {
  }

  // ------------------------------------------------------------- exchanges

  ghost predicate NonNegative(t: Table) {
    forall c :: c in t ==> 0 <= t[c].add && 0 <= t[c].rem
  }

  /** What a message tells about the sender's table: members other than the sender,
      and past members removed within the last sixty days. */
  function Export(t: Table, sender: ContactId, now: int): set<Update> {
    (set c | c in t && t[c].add >= t[c].rem && c != sender :: Added(c, t[c].add)) +
    (set c | c in t && t[c].add < t[c].rem && t[c].rem + SIXTY_DAYS > now :: Removed(c, t[c].rem))
  }

  /** A removal too old to be told. */
  predicate Concealed(t: Table, c: ContactId, now: int) {
    IsPast(t, c) && t[c].rem + SIXTY_DAYS <= now
  }

  // What the receiver makes of it.

  const TOLERANCE := 60

  function Min(a: int, b: int): int { if a < b then a else b }

  /** Timestamps too far ahead of the receiver's clock are taken back to a limit. */
  function Capped(u: Update, limit: int): Update { u.(ts := Min(u.ts, limit)) }

  function CapAll(us: seq<Update>, limit: int): seq<Update> {
    if us == [] then [] else CapAll(us[..|us| - 1], limit) + [Capped(us[|us| - 1], limit)]
  }

  /** A member listens to members only; who is no member listens to anyone. */
  predicate Listens(t: Table, self: ContactId, from: ContactId) {
    self !in Members(t) || from in Members(t)
  }

  /** A list is stale if it was not updated for sixty days. `adHoc` says that the
      message is encrypted and the group is not. */
  datatype Age = Current | Stale(adHoc: bool)

  /** The member list after a message with the updates `us`. A stale list is replaced
      by the members in the message. */
  function Receive(t: Table, self: ContactId, from: ContactId, us: seq<Update>, now: int, age: Age): Table {
    if !Listens(t, self, from) then t
    else
      match age
      case Current => MergeAll(t, CapAll(us, now + TOLERANCE))
      case Stale(adHoc) => map c | c in MembersIn(us) + {self, from} && !(adHoc && c == self) :: Row(0, 0)
  }

  function MembersIn(us: seq<Update>): set<ContactId> { set u | u in us && u.Added? :: u.c }

  ghost predicate About(us: seq<Update>, c: ContactId) { exists u :: u in us && u.c == c }

  /** The rank that a table's row has for a receiver. */
  function CappedRank(t: Table, c: ContactId, limit: int): int {
    if c !in t then -2
    else if t[c].add >= t[c].rem then 2 * Min(t[c].add, limit) + 1
    else 2 * Min(t[c].rem, limit)
  }

  lemma {:induction false} CapAllElements(us: seq<Update>, limit: int)
    ensures forall u :: u in us ==> Capped(u, limit) in CapAll(us, limit)
    ensures forall v :: v in CapAll(us, limit) ==> exists u :: u in us && v == Capped(u, limit)
  {
    if us != [] {
      CapAllElements(us[..|us| - 1], limit);
      assert us == us[..|us| - 1] + [us[|us| - 1]];
    }
  }

  lemma ExportWeight(a: Table, sender: ContactId, sentAt: int, u: Update, limit: int)
    requires NonNegative(a) && u in Export(a, sender, sentAt) && limit > 0
    ensures Genuine(Capped(u, limit)) && Weight(Capped(u, limit)) == CappedRank(a, u.c, limit)
  {
  }

  /** A message may tell any part of what is to be told: a contact is left out if
      another one has the same address. It leaves the later change of both tables,
      for every contact that it tells of, if the receiver listens. */
  lemma ReceiveExport(a: Table, b: Table, us: seq<Update>, from: ContactId, self: ContactId,
                      sentAt: int, now: int, c: ContactId)
    requires NonNegative(a) && now >= 0
    requires forall u :: u in us ==> u in Export(a, from, sentAt)
    ensures Rank(Receive(b, self, from, us, now, Current), c) ==
              if Listens(b, self, from) && About(us, c)
              then Max(Rank(b, c), CappedRank(a, c, now + TOLERANCE)) else Rank(b, c)
  {
    var limit := now + TOLERANCE;
    var vs := CapAll(us, limit);
    CapAllElements(us, limit);
    forall u | u in us
      ensures Genuine(Capped(u, limit)) && Weight(Capped(u, limit)) == CappedRank(a, u.c, limit)
    {
      ExportWeight(a, from, sentAt, u, limit);
    }
    MergeAllTakesTheNewest(b, vs, c);
    if About(us, c) {
      var u :| u in us && u.c == c;
      assert Capped(u, limit) in vs;
    }
  }

  /** A member takes nothing from a sender who is none; in all other cases the message
      counts. */
  lemma SenderGate(t: Table, self: ContactId, from: ContactId, u: Update, now: int)
    requires now >= 0 && Genuine(u) && u.ts <= now && Weight(u) > Rank(t, u.c)
    ensures Receive(t, self, from, [u], now, Current) == t <==> self in Members(t) && from !in Members(t)
  {
    assert [u][..0] == [] && CapAll([u], now + TOLERANCE) == [Capped(u, now + TOLERANCE)];
    assert Capped(u, now + TOLERANCE) == u && MergeAll(t, [u]) == Merge(t, u);
    MergeTakesTheNewer(t, u, u.c);
  }

  /** The peer with table `b` learns of a later change that `a` has. */
  ghost predicate Learns(b: Table, self: ContactId, a: Table, from: ContactId, us: seq<Update>, now: int, c: ContactId) {
    Listens(b, self, from) && About(us, c) && CappedRank(a, c, now + TOLERANCE) > Rank(b, c)
  }

  lemma CappedBelow(t: Table, c: ContactId, limit: int)
    ensures CappedRank(t, c, limit) <= Rank(t, c) && CappedRank(t, c, limit) % 2 == Rank(t, c) % 2
  {
  }

  /** The same in numbers: ranks `a` and `b`, and what is told of them, if it is heard. */
  lemma LaterRankWins(a: int, b: int, toldA: int, toldB: int, heardA: bool, heardB: bool)
    requires toldA <= a && toldA % 2 == a % 2 && toldB <= b && toldB % 2 == b % 2
    ensures var a', b' := if heardB then Max(a, toldB) else a, if heardA then Max(b, toldA) else b;
            a' % 2 == b' % 2 <==> a % 2 == b % 2 || if a > b then heardA && toldA > b else heardB && toldB > a
  {
  }

  /** Two peers that send each other a message, each with any part of what is to be
      told, agree on a contact exactly if they did before, or the one with the earlier
      change listens, is told of the contact, and the later change stays later when
      taken back to the limit. */
  lemma ExchangeAgrees(a: Table, b: Table, selfA: ContactId, selfB: ContactId,
                       us: seq<Update>, vs: seq<Update>, sentA: int, sentB: int, nowA: int, nowB: int, c: ContactId)
    requires NonNegative(a) && NonNegative(b) && nowA >= 0 && nowB >= 0
    requires forall u :: u in us ==> u in Export(a, selfA, sentA)
    requires forall v :: v in vs ==> v in Export(b, selfB, sentB)
    ensures var a', b' := Receive(a, selfA, selfB, vs, nowA, Current), Receive(b, selfB, selfA, us, nowB, Current);
            (c in Members(a') <==> c in Members(b')) <==>
              || (c in Members(a) <==> c in Members(b))
              || if Rank(a, c) > Rank(b, c) then Learns(b, selfB, a, selfA, us, nowB, c)
                 else Learns(a, selfA, b, selfB, vs, nowA, c)
  {
    ReceiveExport(a, b, us, selfA, selfB, sentA, nowB, c);
    ReceiveExport(b, a, vs, selfB, selfA, sentB, nowA, c);
    CappedBelow(a, c, nowB + TOLERANCE);
    CappedBelow(b, c, nowA + TOLERANCE);
    LaterRankWins(Rank(a, c), Rank(b, c), CappedRank(a, c, nowB + TOLERANCE), CappedRank(b, c, nowA + TOLERANCE),
                  Listens(b, selfB, selfA) && About(us, c), Listens(a, selfA, selfB) && About(vs, c));
    MembersHaveOddRank(a, c);
    MembersHaveOddRank(b, c);
    MembersHaveOddRank(Receive(a, selfA, selfB, vs, nowA, Current), c);
    MembersHaveOddRank(Receive(b, selfB, selfA, us, nowB, Current), c);
  }

  ghost predicate WithinLimit(t: Table, now: int) {
    forall c :: c in t ==> t[c].add <= now + TOLERANCE && t[c].rem <= now + TOLERANCE
  }

  lemma ToldOf(a: Table, us: seq<Update>, sender: ContactId, now: int, c: ContactId)
    requires c != sender && forall u :: u in us <==> u in Export(a, sender, now)
    ensures About(us, c) <==> c in a && !Concealed(a, c, now)
  {
    if c in a && !Concealed(a, c, now) {
      assert (if IsPast(a, c) then Removed(c, a[c].rem) else Added(c, a[c].add)) in us;
    }
  }

  /** So peers who list each other, with clocks that are not behind, and with complete
      messages agree on every third contact, except exactly where one of them has it as
      a member and the other one remembers a later removal that is too old to be told. */
  lemma CompleteExchangeAgrees(a: Table, b: Table, selfA: ContactId, selfB: ContactId, now: int,
                               us: seq<Update>, vs: seq<Update>, c: ContactId)
    requires NonNegative(a) && NonNegative(b) && now >= 0 && WithinLimit(a, now) && WithinLimit(b, now)
    requires selfA in Members(b) && selfB in Members(a) && c != selfA && c != selfB
    requires forall u :: u in us <==> u in Export(a, selfA, now)
    requires forall v :: v in vs <==> v in Export(b, selfB, now)
    ensures var a', b' := Receive(a, selfA, selfB, vs, now, Current), Receive(b, selfB, selfA, us, now, Current);
            (c in Members(a') <==> c in Members(b')) <==>
              && !(Concealed(a, c, now) && c in Members(b) && b[c].add < a[c].rem)
              && !(Concealed(b, c, now) && c in Members(a) && a[c].add < b[c].rem)
  {
    ExchangeAgrees(a, b, selfA, selfB, us, vs, now, now, now, now, c);
    ToldOf(a, us, selfA, now, c);
    ToldOf(b, vs, selfB, now, c);
  }

  /** A stale list has exactly the members in the message, the sender and oneself, but
      not oneself if the message is encrypted and the group is not. */
  lemma StaleListIsReplaced(t: Table, self: ContactId, from: ContactId, us: seq<Update>, now: int, adHoc: bool)
    requires Listens(t, self, from)
    ensures Members(Receive(t, self, from, us, now, Stale(adHoc))) ==
              MembersIn(us) + {self, from} - if adHoc then {self} else {}
  {
  }

  /** So with a complete message it has the sender's members, the sender and oneself. */
  lemma StaleListFollowsSender(a: Table, t: Table, self: ContactId, from: ContactId, us: seq<Update>, sentAt: int, now: int)
    requires Listens(t, self, from) && forall u :: u in us <==> u in Export(a, from, sentAt)
    ensures Members(Receive(t, self, from, us, now, Stale(false))) == Members(a) + {self, from}
  {
    StaleListIsReplaced(t, self, from, us, now, false);
    forall c | c != from ensures c in MembersIn(us) <==> c in Members(a) {
      if c in Members(a) { assert Added(c, a[c].add) in us; }
    }
  }

  // ------------------------------------------------------- the receiving loop

  /** The entry for one listed contact, if it counts. */
  function Entry(id: Option<ContactId>, stamp: int, ignored: Option<ContactId>, add: bool): seq<Update> {
    if id.None? || id == ignored then []
    else [if add then Added(id.value, stamp) else Removed(id.value, stamp)]
  }

  function Entries(ids: seq<Option<ContactId>>, stamps: seq<int>, ignored: Option<ContactId>, add: bool): seq<Update>
    requires |ids| == |stamps|
  {
    if ids == [] then []
    else
      var n := |ids| - 1;
      Entries(ids[..n], stamps[..n], ignored, add) + Entry(ids[n], stamps[n], ignored, add)
  }

  /** The updates in a message: current members first, then past members. */
  function MessageUpdates(ignored: Option<ContactId>, to: seq<Option<ContactId>>,
                          past: seq<Option<ContactId>>, stamps: seq<int>): seq<Update>
    requires |stamps| == |to| + |past|
  {
    Entries(to, stamps[..|to|], ignored, true) + Entries(past, stamps[|to|..], None, false)
  }

  ghost predicate Below(t: Table, t': Table) {
    && t.Keys <= t'.Keys
    && forall c :: c in t ==> t[c].add <= t'[c].add && t[c].rem <= t'[c].rem
  }

  lemma BelowBothWays(t: Table, t': Table)
    requires Below(t, t') && Below(t', t)
    ensures t == t'
  {
    forall c | c in t ensures t[c] == t'[c] {
      assert Row(t[c].add, t[c].rem) == Row(t'[c].add, t'[c].rem);
    }
  }

  lemma {:induction false} MergeAllConcat(t: Table, us: seq<Update>, vs: seq<Update>)
    ensures MergeAll(t, us + vs) == MergeAll(MergeAll(t, us), vs)
  {
    if vs == [] {
      assert us + vs == us;
    } else {
      MergeAllConcat(t, us, vs[..|vs| - 1]);
      assert (us + vs)[..|us + vs| - 1] == us + vs[..|vs| - 1];
    }
  }

  /** A merge only raises timestamps, so a changed table never changes back. */
  lemma MergeRaises(t: Table, rows: Table, u: Update)
    requires Below(t, rows)
    ensures Below(t, Merge(rows, u))
    ensures Merge(rows, u) != t <==> rows != t || Merge(rows, u) != rows
  {
    var merged := Merge(rows, u);
    assert Below(rows, merged);
    if merged == t { BelowBothWays(t, rows); }
  }

  lemma EntriesSnoc(ids: seq<Option<ContactId>>, stamps: seq<int>, ignored: Option<ContactId>, add: bool, i: nat)
    requires |ids| == |stamps| && i < |ids|
    ensures Entries(ids[..i + 1], stamps[..i + 1], ignored, add) ==
              Entries(ids[..i], stamps[..i], ignored, add) + Entry(ids[i], stamps[i], ignored, add)
  {
    assert ids[..i + 1][..i] == ids[..i] && stamps[..i + 1][..i] == stamps[..i];
  }

  lemma MergeEntry(t: Table, us: seq<Update>, id: Option<ContactId>, stamp: int, ignored: Option<ContactId>, add: bool)
    ensures MergeAll(t, us + Entry(id, stamp, ignored, add)) ==
              if id.None? || id == ignored then MergeAll(t, us)
              else Merge(MergeAll(t, us), if add then Added(id.value, stamp) else Removed(id.value, stamp))
  {
    if id.None? || id == ignored {
      assert us + [] == us;
    } else {
      var u := if add then Added(id.value, stamp) else Removed(id.value, stamp);
      assert (us + [u])[..|us|] == us;
    }
  }

  lemma EntriesStep(t: Table, ids: seq<Option<ContactId>>, stamps: seq<int>,
                    ignored: Option<ContactId>, add: bool, i: nat)
    requires |ids| == |stamps| && i < |ids|
    ensures var rows := MergeAll(t, Entries(ids[..i], stamps[..i], ignored, add));
            MergeAll(t, Entries(ids[..i + 1], stamps[..i + 1], ignored, add)) ==
              if ids[i].None? || ids[i] == ignored then rows
              else Merge(rows, if add then Added(ids[i].value, stamps[i]) else Removed(ids[i].value, stamps[i]))
  {
    EntriesSnoc(ids, stamps, ignored, add, i);
    MergeEntry(t, Entries(ids[..i], stamps[..i], ignored, add), ids[i], stamps[i], ignored, add);
  }

  method MergeEntries(t: Table, ids: seq<Option<ContactId>>, stamps: seq<int>,
                      ignored: Option<ContactId>, add: bool)
    returns (rows: Table, modified: bool)
    requires |ids| == |stamps|
    ensures rows == MergeAll(t, Entries(ids, stamps, ignored, add))
    ensures Below(t, rows) && (modified <==> rows != t)
  {
    rows, modified := t, false;
    for i := 0 to |ids|
      invariant rows == MergeAll(t, Entries(ids[..i], stamps[..i], ignored, add))
      invariant Below(t, rows) && (modified <==> rows != t)
    {
      EntriesStep(t, ids, stamps, ignored, add, i);
      if ids[i].Some? && ids[i] != ignored {
        var u := if add then Added(ids[i].value, stamps[i]) else Removed(ids[i].value, stamps[i]);
        MergeRaises(t, rows, u);
        modified := modified || Merge(rows, u) != rows;
        rows := Merge(rows, u);
      }
    }
    assert ids[..|ids|] == ids && stamps[..|ids|] == stamps;
  }

  lemma {:induction false} EntriesMeaning(ids: seq<Option<ContactId>>, stamps: seq<int>, ignored: Option<ContactId>,
                                          add: bool, u: Update)
    requires |ids| == |stamps|
    ensures u in Entries(ids, stamps, ignored, add) <==>
              && u.Added? == add && ignored != Some(u.c)
              && exists i :: 0 <= i < |ids| && ids[i] == Some(u.c) && stamps[i] == u.ts
  {
    if ids != [] {
      var n := |ids| - 1;
      EntriesMeaning(ids[..n], stamps[..n], ignored, add, u);
      assert forall i :: 0 <= i < n ==> ids[..n][i] == ids[i] && stamps[..n][i] == stamps[i];
      assert u in Entries(ids, stamps, ignored, add) <==>
               u in Entries(ids[..n], stamps[..n], ignored, add) || u in Entry(ids[n], stamps[n], ignored, add);
    }
  }

  /** What the updates of a message are: an addition for each current member that is not
      ignored, with the stamp at the same place, and a removal for each past member, with
      the stamp after those. */
  lemma UpdatesMeaning(ignored: Option<ContactId>, to: seq<Option<ContactId>>, past: seq<Option<ContactId>>,
                       stamps: seq<int>, c: ContactId, ts: int)
    requires |stamps| == |to| + |past|
    ensures Added(c, ts) in MessageUpdates(ignored, to, past, stamps) <==>
              ignored != Some(c) && exists i :: 0 <= i < |to| && to[i] == Some(c) && stamps[i] == ts
    ensures Removed(c, ts) in MessageUpdates(ignored, to, past, stamps) <==>
              exists j :: 0 <= j < |past| && past[j] == Some(c) && stamps[|to| + j] == ts
  {
    var s1, s2 := stamps[..|to|], stamps[|to|..];
    EntriesMeaning(to, s1, ignored, true, Added(c, ts));
    EntriesMeaning(to, s1, ignored, true, Removed(c, ts));
    EntriesMeaning(past, s2, None, false, Added(c, ts));
    EntriesMeaning(past, s2, None, false, Removed(c, ts));
    assert forall i :: 0 <= i < |to| ==> s1[i] == stamps[i];
    assert forall j :: 0 <= j < |past| ==> s2[j] == stamps[|to| + j];
    assert forall u :: u in MessageUpdates(ignored, to, past, stamps) <==>
                       u in Entries(to, s1, ignored, true) || u in Entries(past, s2, None, false);
  }

  ghost predicate GenuineStamps(to: seq<Option<ContactId>>, past: seq<Option<ContactId>>, stamps: seq<int>)
    requires |stamps| == |to| + |past|
  {
    forall i :: 0 <= i < |stamps| ==> if i < |to| then stamps[i] >= 0 else stamps[i] > 0
  }

  lemma UpdatesAreGenuine(ignored: Option<ContactId>, to: seq<Option<ContactId>>, past: seq<Option<ContactId>>,
                          stamps: seq<int>)
    requires |stamps| == |to| + |past| && GenuineStamps(to, past, stamps)
    ensures forall u :: u in MessageUpdates(ignored, to, past, stamps) ==> Genuine(u)
  {
    forall u | u in MessageUpdates(ignored, to, past, stamps) ensures Genuine(u) {
      UpdatesMeaning(ignored, to, past, stamps, u.c, u.ts);
      assert u == if u.Added? then Added(u.c, u.ts) else Removed(u.c, u.ts);
    }
  }

  /** A received message, by its lists alone: afterwards the latest change of a contact
      is the latest among what was known, the additions at the places of current members
      and the removals at the places of past members. */
  lemma MessageTakesTheNewest(t: Table, ignored: Option<ContactId>, to: seq<Option<ContactId>>,
                              past: seq<Option<ContactId>>, stamps: seq<int>, c: ContactId)
    requires |stamps| == |to| + |past| && GenuineStamps(to, past, stamps)
    ensures var r := Rank(MergeAll(t, MessageUpdates(ignored, to, past, stamps)), c);
            && Rank(t, c) <= r
            && (forall i :: 0 <= i < |to| && to[i] == Some(c) && ignored != Some(c) ==> 2 * stamps[i] + 1 <= r)
            && (forall j :: 0 <= j < |past| && past[j] == Some(c) ==> 2 * stamps[|to| + j] <= r)
            && (|| r == Rank(t, c)
                || (ignored != Some(c) && exists i :: 0 <= i < |to| && to[i] == Some(c) && r == 2 * stamps[i] + 1)
                || exists j :: 0 <= j < |past| && past[j] == Some(c) && r == 2 * stamps[|to| + j])
  {
    var us := MessageUpdates(ignored, to, past, stamps);
    UpdatesAreGenuine(ignored, to, past, stamps);
    MergeAllTakesTheNewest(t, us, c);
    forall i | 0 <= i < |to| && to[i] == Some(c) && ignored != Some(c) ensures Added(c, stamps[i]) in us {
      UpdatesMeaning(ignored, to, past, stamps, c, stamps[i]);
    }
    forall j | 0 <= j < |past| && past[j] == Some(c) ensures Removed(c, stamps[|to| + j]) in us {
      UpdatesMeaning(ignored, to, past, stamps, c, stamps[|to| + j]);
    }
    if u :| u in us && u.c == c && Weight(u) == Rank(MergeAll(t, us), c) {
      UpdatesMeaning(ignored, to, past, stamps, c, u.ts);
      assert u == if u.Added? then Added(c, u.ts) else Removed(c, u.ts);
    }
  }

  /** Applies the timestamps of a received message; a list of the wrong length is
      ignored. Returns whether the table changed. */
  method UpdateTimestamps(t: Table, ignored: Option<ContactId>, to: seq<Option<ContactId>>,
                          past: seq<Option<ContactId>>, stamps: seq<int>)
    returns (rows: Table, modified: bool)
    ensures |stamps| != |to| + |past| ==> rows == t
    ensures |stamps| == |to| + |past| ==> rows == MergeAll(t, MessageUpdates(ignored, to, past, stamps))
    ensures modified <==> rows != t
  {
    if |stamps| != |to| + |past| {
      return t, false;
    }
    var mid, m1 := MergeEntries(t, to, stamps[..|to|], ignored, true);
    var m2;
    rows, m2 := MergeEntries(mid, past, stamps[|to|..], None, false);
    modified := m1 || m2;
    if rows == t { BelowBothWays(t, mid); }
    MergeAllConcat(t, Entries(to, stamps[..|to|], ignored, true), Entries(past, stamps[|to|..], None, false));
  }
}
