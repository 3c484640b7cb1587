/** The list of accounts in the user's order. */
module AccountOrder {

  type Id = nat

  predicate IsMin(m: Id, s: set<Id>) {
    m in s && forall x :: x in s ==> m <= x
  }

  lemma {:induction false} HasMin(s: set<Id>)
    requires s != {}
    ensures exists m :: IsMin(m, s)
  {
    var a :| a in s;
    var rest := s - {a};
    if rest == {} {
      assert IsMin(a, s) by { assert s == {a}; }
    } else {
      HasMin(rest);
      var b :| IsMin(b, rest);
      assert IsMin(if a < b then a else b, s) by { assert s == rest + {a}; }
    }
  }

  function Min(s: set<Id>): (m: Id)
    requires s != {}
    ensures IsMin(m, s)
  {
    HasMin(s);
    var m :| IsMin(m, s);
    m
  }

  function Ascending(s: set<Id>): seq<Id> {
    if s == {} then [] else [Min(s)] + Ascending(s - {Min(s)})
  }

  function Elements(s: seq<Id>): set<Id> { set x | x in s }

  /** The part of `order` that is in `live`. */
  function Keep(order: seq<Id>, live: set<Id>): seq<Id> {
    if order == [] then []
    else Keep(order[..|order| - 1], live) + if order[|order| - 1] in live then [order[|order| - 1]] else []
  }

  /** The live accounts: first those in `order`, then the others. */
  function Listing(order: seq<Id>, live: set<Id>): seq<Id> {
    if order == [] then Ascending(live)
    else if order[0] in live then [order[0]] + Listing(order[1..], live - {order[0]})
    else Listing(order[1..], live)
  }

  method GetAll(order: seq<Id>, live: set<Id>) returns (ids: seq<Id>)
    ensures ids == Listing(order, live)
  {
    ids := [];
    var all := live;
    for i := 0 to |order|
      invariant ids + Listing(order[i..], all) == Listing(order, live)
    {
      if order[i] in all {
        assert order[i..][1..] == order[i + 1..];
        ids, all := ids + [order[i]], all - {order[i]};
      }
    }
    while all != {}
      invariant ids + Ascending(all) == Listing(order, live)
      decreases all
    {
      var id := Min(all);
      ids, all := ids + [id], all - {id};
    }
  }

  /** The order list that is stored for a requested order. */
  function Stored(order: seq<Id>, live: set<Id>): seq<Id> {
    Keep(order, live) + Ascending(live - Elements(order))
  }

  method FilterLive(order: seq<Id>, live: set<Id>) returns (kept: seq<Id>)
    ensures kept == Keep(order, live)
  {
    kept := [];
    for i := 0 to |order|
      invariant kept == Keep(order[..i], live)
    {
      assert order[..i + 1][..i] == order[..i];
      if order[i] in live { kept := kept + [order[i]]; }
    }
    assert order[..|order|] == order;
  }

  /** One step of adding the missing accounts, from the smallest ID up. */
  lemma SmallestFirst(todo: set<Id>, listed: set<Id>)
    requires todo != {}
    ensures Ascending(todo - listed) ==
              (if Min(todo) in listed then [] else [Min(todo)]) + Ascending(todo - {Min(todo)} - listed)
  {
    var id := Min(todo);
    if id in listed {
      assert todo - listed == todo - {id} - listed;
    } else {
      assert id in todo - listed;
      assert Min(todo - listed) == id;
      assert todo - listed - {id} == todo - {id} - listed;
    }
  }

  method OrderToStore(order: seq<Id>, live: set<Id>) returns (stored: seq<Id>)
    ensures stored == Stored(order, live)
  {
    stored := FilterLive(order, live);
    KeepElements(order, live);
    var todo := live;
    while todo != {}
      invariant todo <= live
      invariant stored + Ascending(todo - Elements(order)) == Stored(order, live)
      invariant forall x :: x in todo ==> (x in stored <==> x in order)
      decreases todo
    {
      var id := Min(todo);
      SmallestFirst(todo, Elements(order));
      if id !in stored { stored := stored + [id]; }
      todo := todo - {id};
    }
  }

  lemma {:induction false} KeepElements(order: seq<Id>, live: set<Id>)
    ensures forall x :: x in Keep(order, live) <==> x in order && x in live
  {
    if order != [] {
      KeepElements(order[..|order| - 1], live);
      assert order == order[..|order| - 1] + [order[|order| - 1]];
    }
  }

  // ------------------------------------------------------- what the list is

  function FirstIndex(order: seq<Id>, x: Id): nat
    requires x in order
  {
    if order[0] == x then 0 else 1 + FirstIndex(order[1..], x)
  }

  /** `x` comes before `y`: listed ones by first occurrence, then the others by ID. */
  predicate Precedes(order: seq<Id>, x: Id, y: Id) {
    if x in order then y !in order || FirstIndex(order, x) < FirstIndex(order, y)
    else y !in order && x < y
  }

  lemma {:induction false} AscendingIsSorted(s: set<Id>)
    ensures forall x :: x in Ascending(s) <==> x in s
    ensures forall i, j :: 0 <= i < j < |Ascending(s)| ==> Ascending(s)[i] < Ascending(s)[j]
  {
    if s != {} {
      var rest := s - {Min(s)};
      AscendingIsSorted(rest);
      forall i | 0 <= i < |Ascending(rest)| ensures Min(s) < Ascending(rest)[i] {
        assert Ascending(rest)[i] in rest;
      }
    }
  }

  /** The listing has every live account once, in the order defined above; so it is
      a permutation of the live accounts, and the only one in that order. */
  lemma {:induction false} ListingIsOrdered(order: seq<Id>, live: set<Id>)
    ensures forall x :: x in Listing(order, live) <==> x in live
    ensures forall i, j :: 0 <= i < j < |Listing(order, live)| ==>
              Listing(order, live)[i] != Listing(order, live)[j]
              && Precedes(order, Listing(order, live)[i], Listing(order, live)[j])
  {
    if order == [] {
      AscendingIsSorted(live);
    } else {
      var rest := live - {order[0]};
      ListingIsOrdered(order[1..], rest);
      assert order[0] !in live ==> rest == live;
      forall x, y | x != order[0] && y != order[0] && Precedes(order[1..], x, y)
        ensures Precedes(order, x, y)
      {
        assert order == [order[0]] + order[1..];
      }
    }
  }

  lemma {:induction false} KeepCons(x: Id, order: seq<Id>, live: set<Id>)
    ensures Keep([x] + order, live) == (if x in live then [x] else []) + Keep(order, live)
  {
    if order == [] {
      assert [x][..0] == [];
    } else {
      var n := |order| - 1;
      KeepCons(x, order[..n], live);
      assert ([x] + order)[..n + 1] == [x] + order[..n];
    }
  }

  lemma {:induction false} ListingIgnoresUnknown(order: seq<Id>, tail: seq<Id>, live: set<Id>, now: set<Id>)
    requires forall x :: x in order && x in now ==> x in live
    ensures Listing(Keep(order, live) + tail, now) == Listing(order + tail, now)
  {
    if order != [] {
      var x, rest := order[0], order[1..];
      assert order == [x] + rest && (order + tail)[1..] == rest + tail;
      KeepCons(x, rest, live);
      ListingIgnoresUnknown(rest, tail, live, now);
      ListingIgnoresUnknown(rest, tail, live, now - {x});
      if x in live {
        assert (Keep(order, live) + tail)[1..] == Keep(rest, live) + tail;
      } else {
        assert Keep(order, live) + tail == Keep(rest, live) + tail;
      }
    }
  }

  lemma {:induction false} ListingOfAscending(live: set<Id>)
    ensures Listing(Ascending(live), live) == Ascending(live)
  {
    if live != {} {
      ListingOfAscending(live - {Min(live)});
      assert Ascending(live)[1..] == Ascending(live - {Min(live)});
    }
  }

  lemma {:induction false} ListingAddsMissing(order: seq<Id>, live: set<Id>)
    ensures Listing(order + Ascending(live - Elements(order)), live) == Listing(order, live)
  {
    if order == [] {
      assert live - Elements(order) == live && order + Ascending(live) == Ascending(live);
      ListingOfAscending(live);
    } else {
      var x, rest := order[0], order[1..];
      var tail := Ascending(live - Elements(order));
      assert (order + tail)[1..] == rest + tail && order == [x] + rest;
      if x in live {
        assert live - Elements(order) == live - {x} - Elements(rest);
        ListingAddsMissing(rest, live - {x});
      } else {
        assert live - Elements(order) == live - Elements(rest);
        ListingAddsMissing(rest, live);
      }
    }
  }

  /** Storing a requested order and listing the accounts gives the requested order. */
  lemma StoredOrderIsListed(order: seq<Id>, live: set<Id>)
    ensures Listing(Stored(order, live), live) == Listing(order, live)
  {
    ListingIgnoresUnknown(order, Ascending(live - Elements(order)), live, live);
    ListingAddsMissing(order, live);
  }
}
