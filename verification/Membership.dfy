/** The member table of one chat. A row keeps when a contact was last added and
    last removed; the contact is a member if `add >= rem`, else a past member. */
module Membership {
  import opened Ids

  datatype Row = Row(add: int, rem: int)
  type Table = map<ContactId, Row>

  function Max(a: int, b: int): int { if a < b then b else a }

  function Members(t: Table): set<ContactId> {
    set c | c in t && t[c].add >= t[c].rem
  }

  predicate IsPast(t: Table, c: ContactId) {
    c in t && t[c].add < t[c].rem
  }

  // ------------------------------------------------------- the four writers

  function Bumped(r: Row, ts: int): Row { Row(r.add, Max(r.add + 1, ts)) }

  function SetAll(t: Table, ts: int, contacts: set<ContactId>): Table {
    map c | c in t.Keys + contacts ::
      if c !in t then Row(ts, 0)
      else if c in contacts then Row(Bumped(t[c], ts).rem, Bumped(t[c], ts).rem)
      else Bumped(t[c], ts)
  }

  function AddOne(t: Table, ts: int, c: ContactId): Table {
    t[c := if c in t then Row(Max(t[c].rem, ts), t[c].rem) else Row(ts, 0)]
  }

  function AddAll(t: Table, ts: int, contacts: seq<ContactId>): Table {
    if contacts == [] then t
    else AddOne(AddAll(t, ts, contacts[..|contacts| - 1]), ts, contacts[|contacts| - 1])
  }

  function Remove(t: Table, ts: int, c: ContactId): Table {
    if c in t then t[c := Bumped(t[c], ts)] else t
  }

  function Erase(t: Table, c: ContactId): Table { t - {c} }

  /** The table as the program changes it. */
  class ChatContacts {
    var rows: Table

    method UpdateChatContactsTable(ts: int, contacts: set<ContactId>)
      modifies this
      ensures rows == SetAll(old(rows), ts, contacts)
    {
      rows := map c | c in rows :: Bumped(rows[c], ts);
      ghost var bumped := rows;
      var todo := contacts;
      while todo != {}
        invariant todo <= contacts && rows.Keys == bumped.Keys + (contacts - todo)
        invariant forall c :: c in rows ==>
                    rows[c] == if c in todo || c !in contacts then bumped[c]
                               else if c in bumped then Row(bumped[c].rem, bumped[c].rem) else Row(ts, 0)
        decreases todo
      {
        var c :| c in todo;
        rows := rows[c := if c in rows then Row(rows[c].rem, rows[c].rem) else Row(ts, 0)];
        todo := todo - {c};
      }
      assert rows.Keys == old(rows).Keys + contacts;
    }

    /** Adds a contact unless it is a member already. */
    method AddContact(ts: int, c: ContactId)
      modifies this
      ensures rows == if c in Members(old(rows)) then old(rows) else AddOne(old(rows), ts, c)
    {
      if !(c in rows && rows[c].add >= rows[c].rem) {
        AddToChatContactsTable(ts, [c]);
        assert [c][..0] == [];
      }
    }

    method AddToChatContactsTable(ts: int, contacts: seq<ContactId>)
      modifies this
      ensures rows == AddAll(old(rows), ts, contacts)
    {
      for i := 0 to |contacts|
        invariant rows == AddAll(old(rows), ts, contacts[..i])
      {
        var c := contacts[i];
        assert contacts[..i + 1][..i] == contacts[..i];
        rows := rows[c := if c in rows then Row(Max(rows[c].rem, ts), rows[c].rem) else Row(ts, 0)];
      }
      assert contacts[..|contacts|] == contacts;
    }

    /** Returns whether the contact has a row. */
    method RemoveFromChatContactsTable(ts: int, c: ContactId) returns (past: bool)
      modifies this
      ensures rows == Remove(old(rows), ts, c) && past == (c in old(rows))
    {
      past := c in rows;
      if past {
        rows := rows[c := Row(rows[c].add, Max(rows[c].add + 1, ts))];
      }
    }

    method RemoveWithoutTrace(c: ContactId) returns (removed: bool)
      modifies this
      ensures rows == Erase(old(rows), c) && removed == (c in old(rows))
    {
      removed := c in rows;
      rows := rows - {c};
    }
  }

  // ---------------------------------------- the table refines a plain set

  datatype Op =
    | AssignAll(ts: int, contacts: set<ContactId>)
    | Insert(ts: int, c: ContactId)
    | Delete(ts: int, c: ContactId)

  function Do(t: Table, op: Op): Table {
    match op
    case AssignAll(ts, contacts) => SetAll(t, ts, contacts)
    case Insert(ts, c) => if c in Members(t) then t else AddOne(t, ts, c)
    case Delete(ts, c) => Remove(t, ts, c)
  }

  function OnSet(s: set<ContactId>, op: Op): set<ContactId> {
    match op
    case AssignAll(_, contacts) => contacts
    case Insert(_, c) => s + {c}
    case Delete(_, c) => s - {c}
  }

  /** One operation does to the members what its plain-set counterpart does,
      exactly if it inserts no new row with a negative timestamp. */
  lemma OpRefines(t: Table, op: Op)
    ensures Members(Do(t, op)) == OnSet(Members(t), op) <==>
            match op
            case AssignAll(ts, contacts) => ts >= 0 || contacts <= t.Keys
            case Insert(ts, c) => ts >= 0 || c in t
            case Delete(_, _) => true
  {
    var t' := Do(t, op);
    match op
    case AssignAll(ts, contacts) =>
      if ts < 0 && !(contacts <= t.Keys) {
        var c :| c in contacts && c !in t;
        assert c !in Members(t');
      }
    case Insert(ts, c) => assert c in OnSet(Members(t), op);
    case Delete(_, _) =>
  }

  /** `ts` itself, or the second after `last` if the clock is behind. */
  predicate StampedAfter(x: int, ts: int, last: int) {
    ts <= x && last < x && (x == ts || x == last + 1)
  }

  /** What each operation writes: a removal, or an assignment, is stamped with its time,
      or just after the addition if that is later; an addition is stamped with its time,
      or with the removal if that is later. All else stays. */
  lemma OpStamps(t: Table, op: Op, c: ContactId)
    ensures var t' := Do(t, op);
            match op
            case AssignAll(ts, contacts) =>
              if c in t then
                && c in t' && StampedAfter(t'[c].rem, ts, t[c].add)
                && t'[c].add == if c in contacts then t'[c].rem else t[c].add
              else if c in contacts then c in t' && t'[c] == Row(ts, 0)
              else c !in t'
            case Insert(ts, x) =>
              if c == x && c !in t then c in t' && t'[c] == Row(ts, 0)
              else if c == x && IsPast(t, c) then
                && c in t' && t'[c].rem == t[c].rem
                && ts <= t'[c].add && t[c].rem <= t'[c].add && t'[c].add in {ts, t[c].rem}
              else (c in t' <==> c in t) && (c in t ==> t'[c] == t[c])
            case Delete(ts, x) =>
              if c == x && c in t then c in t' && t'[c].add == t[c].add && StampedAfter(t'[c].rem, ts, t[c].add)
              else (c in t' <==> c in t) && (c in t ==> t'[c] == t[c])
  {
  }

  /** The same for a list of contacts, listed once or more: only their rows change. */
  lemma {:induction false} AddAllStamps(t: Table, ts: int, contacts: seq<ContactId>, c: ContactId)
    ensures var t' := AddAll(t, ts, contacts);
            if c !in contacts then (c in t' <==> c in t) && (c in t ==> t'[c] == t[c])
            else if c in t then
              && c in t' && t'[c].rem == t[c].rem
              && ts <= t'[c].add && t[c].rem <= t'[c].add && t'[c].add in {ts, t[c].rem}
            else c in t' && t'[c].rem == 0 && t'[c].add in {ts, 0} && ts <= t'[c].add
  {
    if contacts != [] {
      var before, last := contacts[..|contacts| - 1], contacts[|contacts| - 1];
      AddAllStamps(t, ts, before, c);
      assert contacts == before + [last];
    }
  }

  /** Adding a list of contacts, listed once or more, adds them to the members. */
  lemma {:induction false} AddAllIsUnion(t: Table, ts: int, contacts: seq<ContactId>)
    requires ts >= 0
    ensures Members(AddAll(t, ts, contacts)) == Members(t) + set c | c in contacts
  {
    if contacts != [] {
      var c, before := contacts[|contacts| - 1], contacts[..|contacts| - 1];
      AddAllIsUnion(t, ts, before);
      assert contacts == before + [c];
      assert Members(AddOne(AddAll(t, ts, before), ts, c)) == Members(AddAll(t, ts, before)) + {c};
    }
  }

  function Run(ops: seq<Op>): Table {
    if ops == [] then map[] else Do(Run(ops[..|ops| - 1]), ops[|ops| - 1])
  }

  function RunOnSet(ops: seq<Op>): set<ContactId> {
    if ops == [] then {} else OnSet(RunOnSet(ops[..|ops| - 1]), ops[|ops| - 1])
  }

  lemma {:induction false} RunRefines(ops: seq<Op>)
    requires forall op :: op in ops ==> op.ts >= 0
    ensures Members(Run(ops)) == RunOnSet(ops)
  {
    if ops != [] {
      RunRefines(ops[..|ops| - 1]);
      OpRefines(Run(ops[..|ops| - 1]), ops[|ops| - 1]);
    }
  }

  // --------------------------------------------- timestamps and the clock

  /** Clock readings are non-negative and never go back. */
  predicate Clocked(ops: seq<Op>) {
    && (forall i :: 0 <= i < |ops| ==> 0 <= ops[i].ts)
    && (forall i, j :: 0 <= i < j < |ops| ==> ops[i].ts <= ops[j].ts)
  }

  function Clock(ops: seq<Op>): int { if ops == [] then 0 else ops[|ops| - 1].ts }

  /** How many removals and assignments have hit the row of `c`. */
  function Bumps(ops: seq<Op>, c: ContactId): nat {
    if ops == [] then 0
    else
      var before := ops[..|ops| - 1];
      var op := ops[|ops| - 1];
      Bumps(before, c) +
      if c in Run(before) && (op.AssignAll? || (op.Delete? && op.c == c)) then 1 else 0
  }

  predicate RowFits(r: Row, clock: int, bumps: nat) {
    && 0 <= r.rem <= Max(r.add + 1, clock) && 0 <= r.add
    && r.add <= clock + bumps && r.rem <= clock + bumps
  }

  lemma ClockStep(ops: seq<Op>)
    requires Clocked(ops) && ops != []
    ensures Clocked(ops[..|ops| - 1]) && Clock(ops[..|ops| - 1]) <= Clock(ops)
  {
    var before := ops[..|ops| - 1];
    if before != [] { assert before[|before| - 1] == ops[|ops| - 2]; }
  }

  /** Neither timestamp gets ahead of the clock by more than the number of
      removals and assignments that hit the row. */
  lemma {:induction false} TimestampsStayNearTheClock(ops: seq<Op>, c: ContactId)
    requires Clocked(ops) && c in Run(ops)
    ensures RowFits(Run(ops)[c], Clock(ops), Bumps(ops, c))
  {
    if ops != [] {
      ClockStep(ops);
      if c in Run(ops[..|ops| - 1]) {
        TimestampsStayNearTheClock(ops[..|ops| - 1], c);
      }
    }
  }

  lemma OpRaises(t: Table, op: Op, c: ContactId, clock: int)
    requires c in t && t[c].rem <= Max(t[c].add + 1, clock) && clock <= op.ts
    ensures c in Do(t, op) && t[c].add <= Do(t, op)[c].add && t[c].rem <= Do(t, op)[c].rem
  {
  }

  /** Over a whole run no row goes away and neither of its timestamps falls. */
  lemma {:induction false} TimestampsNeverFall(ops: seq<Op>, i: nat, c: ContactId)
    requires Clocked(ops) && i <= |ops| && c in Run(ops[..i])
    ensures c in Run(ops)
    ensures Run(ops[..i])[c].add <= Run(ops)[c].add && Run(ops[..i])[c].rem <= Run(ops)[c].rem
  {
    if i == |ops| {
      assert ops[..i] == ops;
    } else {
      var before := ops[..|ops| - 1];
      assert before[..i] == ops[..i];
      ClockStep(ops);
      TimestampsNeverFall(before, i, c);
      TimestampsStayNearTheClock(before, c);
      OpRaises(Run(before), ops[|ops| - 1], c, Clock(before));
    }
  }

  function Toggles(ts: int, c: ContactId, k: nat): seq<Op> {
    if k == 0 then [Insert(ts, c)] else Toggles(ts, c, k - 1) + [Delete(ts, c), Insert(ts, c)]
  }

  /** The bound is reached: `k` removals and re-additions within one second push
      both timestamps exactly `k` seconds ahead of the clock. */
  lemma {:induction false} TogglesDrift(ts: int, c: ContactId, k: nat)
    requires ts >= 0
    ensures Run(Toggles(ts, c, k)) == map[c := Row(ts + k, if k == 0 then 0 else ts + k)]
  {
    var ops := Toggles(ts, c, k);
    if k == 0 {
      assert ops[..0] == [];
    } else {
      var before := Toggles(ts, c, k - 1);
      TogglesDrift(ts, c, k - 1);
      assert ops[..|ops| - 1] == before + [Delete(ts, c)];
      assert (before + [Delete(ts, c)])[..|before|] == before;
      assert Run(before + [Delete(ts, c)]) == Remove(Run(before), ts, c);
    }
  }
}
