/** The message list of a chat: its order, its day markers, and where a message
    that is being sent ends up in it. */
module MessageList {
  import opened Ids

  type MsgId = nat

  datatype MsgState =
    | Undefined | InFresh | InNoticed | InSeen
    | OutDraft | OutPending | OutFailed | OutDelivered | OutMdnRcvd

  datatype Msg = Msg(chat: ChatId, state: MsgState, hidden: bool, ts: int)
  type Msgs = map<MsgId, Msg>

  /** A visible message as the list query returns it. */
  datatype Row = Row(ts: int, id: MsgId)

  datatype Item = Message(id: MsgId) | DayMarker(ts: int)

  // ------------------------------------------------------------------ order

  predicate Before(a: Row, b: Row) { a.ts < b.ts || (a.ts == b.ts && a.id <= b.id) }

  predicate Sorted(s: seq<Row>) { forall i, j :: 0 <= i < j < |s| ==> Before(s[i], s[j]) }

  function Insert(r: Row, s: seq<Row>): (r': seq<Row>)
    ensures multiset(r') == multiset(s) + multiset{r}
  {
    if s == [] || Before(r, s[0]) then [r] + s
    else
      assert s == [s[0]] + s[1..];
      [s[0]] + Insert(r, s[1..])
  }

  lemma {:induction false} InsertSorted(r: Row, s: seq<Row>)
    requires Sorted(s)
    ensures Sorted(Insert(r, s))
  {
    if s != [] && !Before(r, s[0]) {
      InsertSorted(r, s[1..]);
      forall x | x in Insert(r, s[1..]) ensures Before(s[0], x) {
        assert x in multiset(Insert(r, s[1..]));
        assert x == r || x in s[1..];
      }
    }
  }

  function Sort(rows: seq<Row>): (s: seq<Row>)
    ensures Sorted(s) && multiset(s) == multiset(rows)
  {
    if rows == [] then []
    else
      assert rows == [rows[0]] + rows[1..];
      InsertSorted(rows[0], Sort(rows[1..]));
      Insert(rows[0], Sort(rows[1..]))
  }

  /** Row `r` is one that the list query of `chat` returns. */
  predicate IsVisible(msgs: Msgs, chat: ChatId, r: Row) {
    r.id in msgs && msgs[r.id].chat == chat && !msgs[r.id].hidden && msgs[r.id].ts == r.ts
  }

  /** `rows` has each visible message of the chat once. */
  ghost predicate VisibleRows(rows: seq<Row>, msgs: Msgs, chat: ChatId) {
    forall r :: multiset(rows)[r] == if IsVisible(msgs, chat, r) then 1 else 0
  }

  /** The rows of the query among `ids`, in some order. */
  ghost function RowsAmong(msgs: Msgs, chat: ChatId, ids: set<MsgId>): (rows: seq<Row>)
    requires ids <= msgs.Keys
    ensures forall r :: multiset(rows)[r] == if r.id in ids && IsVisible(msgs, chat, r) then 1 else 0
  {
    if ids == {} then []
    else
      var x :| x in ids;
      var r := Row(msgs[x].ts, x);
      var rest := RowsAmong(msgs, chat, ids - {x});
      if IsVisible(msgs, chat, r) then rest + [r] else rest
  }

  /** The visible messages of a chat by time, then ID. */
  ghost function InOrder(msgs: Msgs, chat: ChatId): (s: seq<Row>)
    ensures Sorted(s) && VisibleRows(s, msgs, chat)
  {
    Sort(RowsAmong(msgs, chat, msgs.Keys))
  }

  lemma HeadIsLeast(s: seq<Row>, r: Row)
    requires Sorted(s) && r in multiset(s)
    ensures s != [] && Before(s[0], r)
  {
    var i :| 0 <= i < |s| && s[i] == r;
  }

  lemma TailMultiset(s: seq<Row>)
    requires s != []
    ensures multiset(s[1..]) == multiset(s) - multiset{s[0]}
  {
    assert s == [s[0]] + s[1..];
  }

  /** There is only one such order. */
  lemma {:induction false} SortedIsUnique(s: seq<Row>, s': seq<Row>)
    requires Sorted(s) && Sorted(s') && multiset(s) == multiset(s')
    ensures s == s'
  {
    if s == [] {
      assert |multiset(s')| == 0;
    } else {
      HeadIsLeast(s', s[0]);
      HeadIsLeast(s, s'[0]);
      assert Row(s[0].ts, s[0].id) == Row(s'[0].ts, s'[0].id);
      TailMultiset(s);
      TailMultiset(s');
      SortedIsUnique(s[1..], s'[1..]);
      assert s == [s[0]] + s[1..] && s' == [s'[0]] + s'[1..];
    }
  }

  lemma OrderIsUnique(s: seq<Row>, msgs: Msgs, chat: ChatId)
    requires Sorted(s) && VisibleRows(s, msgs, chat)
    ensures s == InOrder(msgs, chat)
  {
    assert multiset(s) == multiset(InOrder(msgs, chat));
    SortedIsUnique(s, InOrder(msgs, chat));
  }

  // ------------------------------------------------------------ day markers

  /** The number of a day; the division truncates toward zero. */
  function DayOf(local: int): int {
    if local >= 0 then local / 86400 else -((-local) / 86400)
  }

  function Day(r: Row, offset: int): int { DayOf(r.ts + offset) }

  /** When a day starts. */
  function DayStart(day: int, offset: int): int { day * 86400 - offset }

  function LastDay(s: seq<Row>, offset: int): int {
    if s == [] then 0 else Day(s[|s| - 1], offset)
  }

  function MarkerFor(s: seq<Row>, r: Row, offset: int): seq<Item> {
    var day := Day(r, offset);
    if day != LastDay(s, offset) then [DayMarker(DayStart(day, offset))] else []
  }

  /** The items for sorted rows, with a marker wherever the day changes. */
  function Marked(s: seq<Row>, offset: int): seq<Item> {
    if s == [] then []
    else
      var front, r := s[..|s| - 1], s[|s| - 1];
      Marked(front, offset) + MarkerFor(front, r, offset) + [Message(r.id)]
  }

  function Plain(s: seq<Row>): seq<Item> {
    if s == [] then [] else Plain(s[..|s| - 1]) + [Message(s[|s| - 1].id)]
  }

  lemma MarkedSnoc(s: seq<Row>, r: Row, offset: int)
    ensures Marked(s + [r], offset) == Marked(s, offset) + MarkerFor(s, r, offset) + [Message(r.id)]
    ensures Plain(s + [r]) == Plain(s) + [Message(r.id)]
    ensures LastDay(s + [r], offset) == Day(r, offset)
  {
    assert (s + [r])[..|s|] == s;
  }

  method Arrange(sorted: seq<Row>, addDaymarker: bool, offset: int) returns (items: seq<Item>)
    ensures items == if addDaymarker then Marked(sorted, offset) else Plain(sorted)
  {
    items := [];
    var lastDay := 0;
    ghost var front: seq<Row> := [];
    for i := 0 to |sorted|
      invariant front == sorted[..i]
      invariant items == if addDaymarker then Marked(front, offset) else Plain(front)
      invariant addDaymarker ==> lastDay == LastDay(front, offset)
    {
      var r := sorted[i];
      MarkedSnoc(front, r, offset);
      var marker: seq<Item> := [];
      if addDaymarker {
        var day := Day(r, offset);
        if day != lastDay {
          marker := [DayMarker(DayStart(day, offset))];
          lastDay := day;
        }
        assert marker == MarkerFor(front, r, offset);
      } else {
        assert items + marker == items;
      }
      items, front := items + marker + [Message(r.id)], front + [r];
    }
    assert front == sorted;
  }

  /** The query, which returns the rows in any order. */
  method Query(msgs: Msgs, chat: ChatId) returns (rows: seq<Row>)
    ensures VisibleRows(rows, msgs, chat)
  {
    rows := [];
    var todo := msgs.Keys;
    while todo != {}
      invariant todo <= msgs.Keys
      invariant forall r :: multiset(rows)[r] == if r.id !in todo && IsVisible(msgs, chat, r) then 1 else 0
      decreases todo
    {
      var x :| x in todo;
      var r := Row(msgs[x].ts, x);
      if IsVisible(msgs, chat, r) { rows := rows + [r]; }
      todo := todo - {x};
    }
  }

  method GetChatMsgs(msgs: Msgs, chat: ChatId, addDaymarker: bool, offset: int) returns (items: seq<Item>)
    ensures items == if addDaymarker then Marked(InOrder(msgs, chat), offset) else Plain(InOrder(msgs, chat))
  {
    var rows := Query(msgs, chat);
    var sorted := Sort(rows);
    OrderIsUnique(sorted, msgs, chat);
    items := Arrange(sorted, addDaymarker, offset);
  }

  function WithoutMarkers(items: seq<Item>): seq<Item> {
    if items == [] then []
    else
      var last := items[|items| - 1];
      WithoutMarkers(items[..|items| - 1]) + if last.Message? then [last] else []
  }

  function Markers(items: seq<Item>): seq<int> {
    if items == [] then []
    else
      var last := items[|items| - 1];
      Markers(items[..|items| - 1]) + if last.DayMarker? then [last.ts] else []
  }

  lemma Snoc(items: seq<Item>, x: Item)
    ensures WithoutMarkers(items + [x]) == WithoutMarkers(items) + if x.Message? then [x] else []
    ensures Markers(items + [x]) == Markers(items) + if x.DayMarker? then [x.ts] else []
  {
    assert (items + [x])[..|items|] == items;
  }

  lemma MarkedParts(s: seq<Row>, r: Row, offset: int)
    ensures WithoutMarkers(Marked(s + [r], offset)) == WithoutMarkers(Marked(s, offset)) + [Message(r.id)]
    ensures Markers(Marked(s + [r], offset)) ==
              Markers(Marked(s, offset)) +
              if Day(r, offset) != LastDay(s, offset) then [DayStart(Day(r, offset), offset)] else []
  {
    MarkedSnoc(s, r, offset);
    var items, marker := Marked(s, offset), MarkerFor(s, r, offset);
    if marker == [] {
      assert items + [] == items;
    } else {
      Snoc(items, marker[0]);
    }
    Snoc(items + marker, Message(r.id));
  }

  /** Without its markers the list is the plain list. */
  lemma {:induction false} MarkersOnlyAdd(s: seq<Row>, offset: int)
    ensures WithoutMarkers(Marked(s, offset)) == Plain(s)
  {
    if s != [] {
      var front := s[..|s| - 1];
      MarkersOnlyAdd(front, offset);
      MarkedParts(front, s[|s| - 1], offset);
      assert s == front + [s[|s| - 1]];
    }
  }

  lemma DaysFollowTime(a: Row, b: Row, offset: int)
    requires a.ts <= b.ts
    ensures Day(a, offset) <= Day(b, offset)
  {
  }

  predicate Increasing(ms: seq<int>) { forall i, j :: 0 <= i < j < |ms| ==> ms[i] < ms[j] }

  /** The last marker stands for `day`; without markers, `day` is 0. */
  predicate EndsWith(ms: seq<int>, day: int, offset: int) {
    if ms == [] then day == 0 else ms[|ms| - 1] == DayStart(day, offset)
  }

  lemma IncreasingSnoc(ms: seq<int>, day: int, day': int, offset: int)
    requires Increasing(ms) && EndsWith(ms, day, offset) && (ms == [] || day <= day')
    ensures var ms' := ms + if day' != day then [DayStart(day', offset)] else [];
            Increasing(ms') && EndsWith(ms', day', offset)
  {
  }

  /** Markers strictly increase; the last one stands for the day of the last row,
      and while there is none every row so far is on day 0. */
  lemma {:induction false} MarkersIncrease(s: seq<Row>, offset: int)
    requires Sorted(s)
    ensures Increasing(Markers(Marked(s, offset)))
    ensures EndsWith(Markers(Marked(s, offset)), LastDay(s, offset), offset)
  {
    if s != [] {
      var front, r := s[..|s| - 1], s[|s| - 1];
      assert s == front + [r];
      MarkersIncrease(front, offset);
      MarkedParts(front, r, offset);
      if front != [] { DaysFollowTime(front[|front| - 1], r, offset); }
      IncreasingSnoc(Markers(Marked(front, offset)), LastDay(front, offset), Day(r, offset), offset);
    }
  }

  lemma {:induction false} MarkedPrefix(s: seq<Row>, k: nat, offset: int)
    requires k <= |s|
    ensures Marked(s[..k], offset) <= Marked(s, offset)
  {
    if k == |s| {
      assert s[..k] == s;
    } else {
      assert s[..|s| - 1][..k] == s[..k];
      MarkedPrefix(s[..|s| - 1], k, offset);
    }
  }

  /** The items before the message of row `k`. */
  function ItemsBefore(s: seq<Row>, k: nat, offset: int): seq<Item>
    requires k < |s|
  {
    Marked(s[..k], offset) + MarkerFor(s[..k], s[k], offset)
  }

  lemma ItemsBeforeArePrefix(s: seq<Row>, k: nat, offset: int)
    requires k < |s|
    ensures ItemsBefore(s, k, offset) + [Message(s[k].id)] == Marked(s[..k + 1], offset)
    ensures ItemsBefore(s, k, offset) + [Message(s[k].id)] <= Marked(s, offset)
    ensures LastDay(s[..k + 1], offset) == Day(s[k], offset)
  {
    assert s[..k + 1] == s[..k] + [s[k]];
    MarkedSnoc(s[..k], s[k], offset);
    MarkedPrefix(s, k + 1, offset);
  }

  lemma ItemsBeforeFit(s: seq<Row>, k: nat, offset: int)
    requires Sorted(s) && k < |s|
    ensures EndsWith(Markers(ItemsBefore(s, k, offset)), Day(s[k], offset), offset)
  {
    ItemsBeforeArePrefix(s, k, offset);
    MarkersIncrease(s[..k + 1], offset);
    Snoc(ItemsBefore(s, k, offset), Message(s[k].id));
  }

  lemma DayWindow(ts: int, offset: int)
    ensures var start := DayStart(DayOf(ts + offset), offset);
            start <= ts < start + 86400 <==> ts + offset >= 0 || (ts + offset) % 86400 == 0
    ensures DayOf(ts + offset) == 0 <==> -86400 < ts + offset < 86400
  {
  }

  lemma DayOfMarker(ms: seq<int>, ts: int, offset: int)
    requires EndsWith(ms, DayOf(ts + offset), offset)
    ensures if ms == [] then -86400 < ts + offset < 86400
            else ms[|ms| - 1] <= ts < ms[|ms| - 1] + 86400 <==> ts + offset >= 0 || (ts + offset) % 86400 == 0
  {
    DayWindow(ts, offset);
  }

  lemma NearestDay(s: seq<Row>, k: nat, offset: int)
    requires Sorted(s) && k < |s|
    ensures var ms, local := Markers(ItemsBefore(s, k, offset)), s[k].ts + offset;
            if ms == [] then -86400 < local < 86400
            else ms[|ms| - 1] <= s[k].ts < ms[|ms| - 1] + 86400 <==> local >= 0 || local % 86400 == 0
  {
    var ms := Markers(ItemsBefore(s, k, offset));
    ItemsBeforeFit(s, k, offset);
    DayOfMarker(ms, s[k].ts, offset);
  }

  /** A message lies within the day that starts at the nearest marker before it
      exactly if its local time is not negative, or is a whole number of days. A
      message with no marker before it is less than a day away from local time 0. */
  lemma NearestMarker(s: seq<Row>, k: nat, offset: int)
    requires Sorted(s) && k < |s|
    ensures ItemsBefore(s, k, offset) + [Message(s[k].id)] <= Marked(s, offset)
    ensures var ms, local := Markers(ItemsBefore(s, k, offset)), s[k].ts + offset;
            if ms == [] then -86400 < local < 86400
            else ms[|ms| - 1] <= s[k].ts < ms[|ms| - 1] + 86400 <==> local >= 0 || local % 86400 == 0
  {
    ItemsBeforeArePrefix(s, k, offset);
    NearestDay(s, k, offset);
  }

  // ------------------------------------------------------ sorting to the bottom

  /** The states the send query looks at: not undefined, draft or read. */
  predicate Listed(m: Msg) { !m.state.Undefined? && !m.state.OutDraft? && !m.state.OutMdnRcvd? }

  ghost predicate Counts(msgs: Msgs, id: MsgId, x: MsgId)
    requires id in msgs
  {
    x in msgs && x <= id && msgs[x].chat == msgs[id].chat && Listed(msgs[x])
  }

  /** `b` is the latest timestamp among the messages the query looks at. */
  ghost predicate IsBottom(msgs: Msgs, id: MsgId, b: int)
    requires id in msgs
  {
    && (exists x :: Counts(msgs, id, x) && msgs[x].ts == b)
    && (forall x :: Counts(msgs, id, x) ==> msgs[x].ts <= b)
  }

  /** Gives the message being sent the timestamp that sorts it to the bottom. */
  method SortToBottom(msgs: Msgs, id: MsgId) returns (msgs': Msgs)
    requires id in msgs && msgs[id].state.OutPending?
    ensures id in msgs' && IsBottom(msgs, id, msgs'[id].ts)
    ensures msgs' == msgs[id := msgs[id].(ts := msgs'[id].ts)]
  {
    var bottom := msgs[id].ts;
    var todo := msgs.Keys;
    assert Counts(msgs, id, id);
    while todo != {}
      invariant todo <= msgs.Keys
      invariant exists x :: Counts(msgs, id, x) && msgs[x].ts == bottom
      invariant forall x :: Counts(msgs, id, x) && x !in todo ==> msgs[x].ts <= bottom
      decreases todo
    {
      var x :| x in todo;
      if x <= id && msgs[x].chat == msgs[id].chat && Listed(msgs[x]) && msgs[x].ts > bottom {
        assert Counts(msgs, id, x);
        bottom := msgs[x].ts;
      }
      todo := todo - {x};
    }
    msgs' := msgs[id := msgs[id].(ts := bottom)];
  }

  lemma LastIsGreatest(s: seq<Row>, r: Row)
    requires Sorted(s) && r in s
    ensures s[|s| - 1] == r <==> forall x :: x in s ==> Before(x, r)
  {
    var last := s[|s| - 1];
    forall x | x in s ensures Before(x, last) {
      var j :| 0 <= j < |s| && s[j] == x;
    }
    assert last in s && Before(r, last);
    assert Before(last, r) ==> Row(last.ts, last.id) == Row(r.ts, r.id);
  }

  /** After sending, no earlier message of the chat that is fresh, noticed, seen, pending,
      failed or delivered is later than the one sent, and one of them is as late. */
  lemma BottomIsLatest(msgs: Msgs, id: MsgId, b: int)
    requires id in msgs && IsBottom(msgs, id, b)
    ensures forall x :: x in msgs && x <= id && msgs[x].chat == msgs[id].chat
                        && msgs[x].state in {InFresh, InNoticed, InSeen, OutPending, OutFailed, OutDelivered} ==>
              msgs[x].ts <= b
    ensures exists x :: && x in msgs && x <= id && msgs[x].chat == msgs[id].chat && msgs[x].ts == b
                        && msgs[x].state in {InFresh, InNoticed, InSeen, OutPending, OutFailed, OutDelivered}
  {
    forall x | x in msgs && x <= id && msgs[x].chat == msgs[id].chat
               && msgs[x].state in {InFresh, InNoticed, InSeen, OutPending, OutFailed, OutDelivered}
      ensures msgs[x].ts <= b
    {
      assert Counts(msgs, id, x);
    }
    var x :| Counts(msgs, id, x) && msgs[x].ts == b;
  }

  lemma LastItem(s: seq<Row>, offset: int)
    requires s != []
    ensures Marked(s, offset) != [] && Marked(s, offset)[|Marked(s, offset)| - 1] == Message(s[|s| - 1].id)
    ensures Plain(s) != [] && Plain(s)[|Plain(s)| - 1] == Message(s[|s| - 1].id)
  {
  }

  /** Some message that the send query looks at is at `t` or later. */
  ghost predicate Reaches(msgs: Msgs, id: MsgId, t: int)
    requires id in msgs
  {
    exists x :: Counts(msgs, id, x) && t <= msgs[x].ts
  }

  /** What puts a message last: every other visible message of the chat is an earlier
      one whose state is looked at, or which is not later than all that are looked at,
      or is a later one that is before one of these. */
  ghost predicate GoesLast(msgs: Msgs, id: MsgId)
    requires id in msgs
  {
    forall x :: x in msgs && x != id && msgs[x].chat == msgs[id].chat && !msgs[x].hidden ==>
      if x < id then Listed(msgs[x]) || Reaches(msgs, id, msgs[x].ts) else Reaches(msgs, id, msgs[x].ts + 1)
  }

  lemma SentIsGreatest(msgs: Msgs, id: MsgId, b: int, s: seq<Row>)
    requires id in msgs && !msgs[id].hidden && IsBottom(msgs, id, b)
    requires Sorted(s) && VisibleRows(s, msgs[id := msgs[id].(ts := b)], msgs[id].chat)
    ensures s != []
    ensures s[|s| - 1].id == id <==>
              forall x :: x in msgs && x != id && msgs[x].chat == msgs[id].chat && !msgs[x].hidden ==>
                if x < id then Listed(msgs[x]) || msgs[x].ts <= b else msgs[x].ts < b
  {
    var after := msgs[id := msgs[id].(ts := b)];
    forall r ensures r in s <==> IsVisible(after, msgs[id].chat, r) {
      assert r in s <==> multiset(s)[r] > 0;
    }
    var own := Row(b, id);
    assert own in s;
    LastIsGreatest(s, own);
    assert s[|s| - 1] in s;
    if forall r :: r in s ==> Before(r, own) {
      forall x | x in msgs && x != id && msgs[x].chat == msgs[id].chat && !msgs[x].hidden
        ensures if x < id then Listed(msgs[x]) || msgs[x].ts <= b else msgs[x].ts < b
      {
        assert Row(msgs[x].ts, x) in s;
      }
    } else {
      var r :| r in s && !Before(r, own);
      assert r.id != id && msgs[r.id].ts == r.ts;
      assert r.id < id && Listed(msgs[r.id]) ==> Counts(msgs, id, r.id);
    }
  }

  /** A visible message that is sent becomes the last item of its chat, with or without
      markers and even if the clock went back, exactly if it goes last by the above. */
  lemma SentIsLast(msgs: Msgs, id: MsgId, b: int, offset: int)
    requires id in msgs && !msgs[id].hidden && IsBottom(msgs, id, b)
    ensures var s := InOrder(msgs[id := msgs[id].(ts := b)], msgs[id].chat);
            && s != []
            && (Marked(s, offset)[|Marked(s, offset)| - 1] == Message(id) <==> GoesLast(msgs, id))
            && (Plain(s)[|Plain(s)| - 1] == Message(id) <==> GoesLast(msgs, id))
  {
    var s := InOrder(msgs[id := msgs[id].(ts := b)], msgs[id].chat);
    SentIsGreatest(msgs, id, b, s);
    LastItem(s, offset);
    var c :| Counts(msgs, id, c) && msgs[c].ts == b;
    forall t ensures Reaches(msgs, id, t) <==> t <= b {
    }
  }

  // ------------------------------------------------------------- the whole list

  lemma {:induction false} PlainAt(s: seq<Row>)
    ensures |Plain(s)| == |s| && forall i :: 0 <= i < |s| ==> Plain(s)[i] == Message(s[i].id)
  {
    if s != [] { PlainAt(s[..|s| - 1]); }
  }

  lemma RowsListed(s: seq<Row>, msgs: Msgs, chat: ChatId, r: Row)
    requires VisibleRows(s, msgs, chat)
    ensures r in s <==> IsVisible(msgs, chat, r)
  {
    assert r in s <==> multiset(s)[r] > 0;
  }

  lemma VisibleById(msgs: Msgs, chat: ChatId, r: Row, r': Row)
    requires IsVisible(msgs, chat, r) && IsVisible(msgs, chat, r')
    ensures r.id == r'.id ==> r == r'
  {
  }

  lemma OnceEach(s: seq<Row>, msgs: Msgs, chat: ChatId, i: nat, j: nat)
    requires VisibleRows(s, msgs, chat) && i < j < |s|
    ensures s[i].id != s[j].id
  {
    assert s[..j][i] == s[i] && s[j..][0] == s[j];
    assert s == s[..j] + s[j..];
    assert multiset(s) == multiset(s[..j]) + multiset(s[j..]);
    RowsListed(s, msgs, chat, s[i]);
    RowsListed(s, msgs, chat, s[j]);
    VisibleById(msgs, chat, s[i], s[j]);
  }

  lemma VisibleIsListed(s: seq<Row>, msgs: Msgs, chat: ChatId, x: MsgId)
    requires VisibleRows(s, msgs, chat)
    ensures Message(x) in Plain(s) <==> x in msgs && msgs[x].chat == chat && !msgs[x].hidden
  {
    PlainAt(s);
    if x in msgs {
      var r := Row(msgs[x].ts, x);
      RowsListed(s, msgs, chat, r);
      if r in s {
        var i :| 0 <= i < |s| && s[i] == r;
        assert Plain(s)[i] == Message(x);
      }
    }
    if Message(x) in Plain(s) {
      var i :| 0 <= i < |s| && s[i].id == x;
      RowsListed(s, msgs, chat, s[i]);
    }
  }

  /** From the table to the list: besides its markers, the list has exactly the visible
      messages of the chat, each once, by time and then ID. */
  lemma ListIsComplete(msgs: Msgs, chat: ChatId, offset: int)
    ensures var s, p := InOrder(msgs, chat), WithoutMarkers(Marked(InOrder(msgs, chat), offset));
            && p == Plain(s) && |p| == |s|
            && (forall x :: Message(x) in p <==> x in msgs && msgs[x].chat == chat && !msgs[x].hidden)
            && (forall i :: 0 <= i < |s| ==> p[i] == Message(s[i].id) && IsVisible(msgs, chat, s[i]))
            && (forall i, j :: 0 <= i < j < |s| ==> s[i].id != s[j].id && Before(s[i], s[j]))
  {
    var s := InOrder(msgs, chat);
    MarkersOnlyAdd(s, offset);
    PlainAt(s);
    forall x: MsgId
      ensures Message(x) in Plain(s) <==> x in msgs && msgs[x].chat == chat && !msgs[x].hidden
    {
      VisibleIsListed(s, msgs, chat, x);
    }
    forall i | 0 <= i < |s| ensures IsVisible(msgs, chat, s[i]) {
      RowsListed(s, msgs, chat, s[i]);
    }
    forall i, j | 0 <= i < j < |s| ensures s[i].id != s[j].id {
      OnceEach(s, msgs, chat, i, j);
    }
  }
}
