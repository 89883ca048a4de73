/** Lists of a session's orders: what they hold, in which order, what they add up to, and their pages. */
module OrderLists {
  import opened Collections
  import opened Rows
  import Sorting

  // ---------- Contents ----------

  ghost predicate DistinctIds(orders: seq<Order>) {
    forall i, j :: 0 <= i < j < |orders| ==> orders[i].id != orders[j].id
  }

  lemma {:induction false} LiveMembers(orders: seq<Order>, store: Id, session: Id)
    ensures forall o :: o in LiveOrders(orders, store, session) <==> o in orders && Live(o, store, session)
  {
    if orders != [] {
      LiveMembers(orders[..|orders| - 1], store, session);
      assert orders == orders[..|orders| - 1] + [orders[|orders| - 1]];
    }
  }

  lemma {:induction false} LiveDistinct(orders: seq<Order>, store: Id, session: Id)
    requires DistinctIds(orders)
    ensures DistinctIds(LiveOrders(orders, store, session))
  {
    if orders != [] {
      var front := orders[..|orders| - 1];
      LiveDistinct(front, store, session);
      LiveMembers(front, store, session);
      var live := LiveOrders(front, store, session);
      forall i | 0 <= i < |live|
        ensures live[i].id != orders[|orders| - 1].id
      {
        assert live[i] in front;
      }
    }
  }

  /** The list holds the session's live orders and nothing else. */
  lemma ListMembers(orders: seq<Order>, store: Id, session: Id)
    ensures forall o :: o in ListBySession(orders, store, session) <==>
              o in orders && o.store == store && o.session == session && o.deletedAt.None?
  {
    LiveMembers(orders, store, session);
    Sorting.SortKeeps(Precedes, LiveOrders(orders, store, session));
    Sorting.SameMembers(ListBySession(orders, store, session), LiveOrders(orders, store, session));
  }

  lemma {:induction false} InsertDistinct(o: Order, orders: seq<Order>)
    requires DistinctIds(orders) && forall x :: x in orders ==> x.id != o.id
    ensures DistinctIds(Sorting.InsertBy(Precedes, o, orders))
  {
    hide Precedes;
    if orders != [] && !Precedes(orders[|orders| - 1], o) {
      var front := orders[..|orders| - 1];
      InsertDistinct(o, front);
      Sorting.InsertKeeps(Precedes, o, front);
      var r := Sorting.InsertBy(Precedes, o, front);
      forall i | 0 <= i < |r|
        ensures r[i].id != orders[|orders| - 1].id
      {
        assert r[i] in multiset(r);
      }
    }
  }

  lemma {:induction false} SortDistinct(orders: seq<Order>)
    requires DistinctIds(orders)
    ensures DistinctIds(SortByCreation(orders))
  {
    if orders != [] {
      var front, last := orders[..|orders| - 1], orders[|orders| - 1];
      SortDistinct(front);
      Sorting.SortKeeps(Precedes, front);
      Sorting.SameMembers(SortByCreation(front), front);
      InsertDistinct(last, SortByCreation(front));
    }
  }

  lemma ListDistinct(orders: seq<Order>, store: Id, session: Id)
    requires DistinctIds(orders)
    ensures DistinctIds(ListBySession(orders, store, session))
  {
    LiveDistinct(orders, store, session);
    SortDistinct(LiveOrders(orders, store, session));
  }

  // ---------- Order ----------

  /** Earlier orders first, and of those created at the same time the one with the lower number. */
  predicate InCreationOrder(orders: seq<Order>) {
    forall i, j :: 0 <= i < j < |orders| ==>
      && orders[i].createdAt <= orders[j].createdAt
      && (orders[i].createdAt == orders[j].createdAt ==> orders[i].seqNo <= orders[j].seqNo)
  }

  lemma SortOrdered(orders: seq<Order>)
    ensures InCreationOrder(SortByCreation(orders))
  {
    Sorting.SortOrdered(Precedes, orders);
  }

  /** The list is in the order of creation. */
  lemma ListOrdered(orders: seq<Order>, store: Id, session: Id)
    ensures InCreationOrder(ListBySession(orders, store, session))
  {
    SortOrdered(LiveOrders(orders, store, session));
  }

  predicate DistinctKeys(orders: seq<Order>) {
    forall i, j :: 0 <= i < j < |orders| ==> orders[i].createdAt != orders[j].createdAt || orders[i].seqNo != orders[j].seqNo
  }

  /** With distinct sort keys there is only one sorted arrangement, so every query returns the same one. */
  lemma {:induction false} SortedUnique(a: seq<Order>, b: seq<Order>)
    requires multiset(a) == multiset(b) && InCreationOrder(a) && InCreationOrder(b) && DistinctKeys(a)
    ensures a == b
  {
    hide InCreationOrder, DistinctKeys;
    assert |a| == |multiset(a)| == |multiset(b)| == |b|;
    if a != [] {
      SameFronts(a, b);
      SortedUnique(a[..|a| - 1], b[..|b| - 1]);
      assert a == a[..|a| - 1] + [a[|a| - 1]] && b == b[..|b| - 1] + [b[|b| - 1]];
    }
  }

  lemma SameFronts(a: seq<Order>, b: seq<Order>)
    requires multiset(a) == multiset(b) && InCreationOrder(a) && InCreationOrder(b) && DistinctKeys(a)
    requires a != [] && |a| == |b|
    ensures a[|a| - 1] == b[|b| - 1]
    ensures var (x, y) := (a[..|a| - 1], b[..|b| - 1]);
            multiset(x) == multiset(y) && InCreationOrder(x) && InCreationOrder(y) && DistinctKeys(x)
  {
    SameLast(a, b);
    WithoutLast(a);
    WithoutLast(b);
  }

  lemma WithoutLast(a: seq<Order>)
    requires a != []
    ensures multiset(a[..|a| - 1]) == multiset(a) - multiset{a[|a| - 1]}
  {
    assert a == a[..|a| - 1] + [a[|a| - 1]];
  }

  lemma SameLast(a: seq<Order>, b: seq<Order>)
    requires multiset(a) == multiset(b) && InCreationOrder(a) && InCreationOrder(b) && DistinctKeys(a)
    requires a != [] && |a| == |b|
    ensures a[|a| - 1] == b[|b| - 1]
  {
    var x, y := a[|a| - 1], b[|b| - 1];
    Sorting.SameMembers(a, b);
    assert x in a && y in b;
    var i :| 0 <= i < |a| && a[i] == y;
    var j :| 0 <= j < |b| && b[j] == x;
    assert i < |a| - 1 ==> Precedes(y, x);
    assert j < |b| - 1 ==> Precedes(x, y);
  }

  // ---------- Sums and counts ----------

  function TotalOf(orders: seq<Order>): int {
    if orders == [] then 0 else TotalOf(orders[..|orders| - 1]) + orders[|orders| - 1].total
  }

  lemma TotalSnoc(orders: seq<Order>, o: Order)
    ensures TotalOf(orders + [o]) == TotalOf(orders) + o.total
  {
    assert (orders + [o])[..|orders|] == orders;
  }

  lemma {:induction false} InsertTotal(o: Order, orders: seq<Order>)
    ensures TotalOf(Sorting.InsertBy(Precedes, o, orders)) == TotalOf(orders) + o.total
  {
    if orders == [] || Precedes(orders[|orders| - 1], o) {
      TotalSnoc(orders, o);
    } else {
      var front, last := orders[..|orders| - 1], orders[|orders| - 1];
      InsertTotal(o, front);
      TotalSnoc(Sorting.InsertBy(Precedes, o, front), last);
    }
  }

  lemma {:induction false} SortTotal(orders: seq<Order>)
    ensures TotalOf(SortByCreation(orders)) == TotalOf(orders)
  {
    if orders != [] {
      SortTotal(orders[..|orders| - 1]);
      InsertTotal(orders[|orders| - 1], SortByCreation(orders[..|orders| - 1]));
    }
  }

  lemma {:induction false} LiveTotal(orders: seq<Order>, store: Id, session: Id)
    ensures TotalOf(LiveOrders(orders, store, session)) == SumTableTotal(orders, store, session)
  {
    if orders != [] {
      var front, last := orders[..|orders| - 1], orders[|orders| - 1];
      LiveTotal(front, store, session);
      TotalSnoc(LiveOrders(front, store, session), last);
      assert LiveOrders(front, store, session) + [] == LiveOrders(front, store, session);
    }
  }

  lemma {:induction false} SumUpdate(orders: seq<Order>, i: nat, o: Order, store: Id, session: Id)
    requires i < |orders|
    ensures SumTableTotal(orders[i := o], store, session) ==
            SumTableTotal(orders, store, session) - Worth(orders[i], store, session) + Worth(o, store, session)
  {
    var front := orders[..|orders| - 1];
    if i < |front| {
      SumUpdate(front, i, o, store, session);
      assert orders[i := o][..|orders| - 1] == front[i := o];
    } else {
      assert orders[i := o][..|orders| - 1] == front;
    }
  }

  lemma SumSnoc(orders: seq<Order>, o: Order, store: Id, session: Id)
    ensures SumTableTotal(orders + [o], store, session) == SumTableTotal(orders, store, session) + Worth(o, store, session)
  {
    assert (orders + [o])[..|orders|] == orders;
  }

  /** The list adds up to the session's total. */
  lemma ListTotal(orders: seq<Order>, store: Id, session: Id)
    ensures TotalOf(ListBySession(orders, store, session)) == SumTableTotal(orders, store, session)
  {
    SortTotal(LiveOrders(orders, store, session));
    LiveTotal(orders, store, session);
  }

  /** `COUNT(*)` of the session's live orders. */
  function CountBySession(orders: seq<Order>, store: Id, session: Id): nat {
    if orders == [] then 0
    else CountBySession(orders[..|orders| - 1], store, session) + if Live(orders[|orders| - 1], store, session) then 1 else 0
  }

  lemma {:induction false} LiveCount(orders: seq<Order>, store: Id, session: Id)
    ensures |LiveOrders(orders, store, session)| == CountBySession(orders, store, session)
  {
    if orders != [] { LiveCount(orders[..|orders| - 1], store, session); }
  }

  lemma ListCount(orders: seq<Order>, store: Id, session: Id)
    ensures |ListBySession(orders, store, session)| == CountBySession(orders, store, session)
  {
    LiveCount(orders, store, session);
    Sorting.SortKeeps(Precedes, LiveOrders(orders, store, session));
  }

  /** Nothing is pending exactly when every live order of the session is completed. */
  lemma {:induction false} NonePending(orders: seq<Order>, store: Id, session: Id)
    ensures CountPending(orders, store, session) == 0 <==>
            forall o :: o in orders && Live(o, store, session) ==> o.status == OrderStatus.Completed
  {
    if orders != [] {
      NonePending(orders[..|orders| - 1], store, session);
      assert orders == orders[..|orders| - 1] + [orders[|orders| - 1]];
    }
  }

  // ---------- Pages ----------

  /** Page `page` (from 1) of the session's list. */
  function OrdersPage(orders: seq<Order>, store: Id, session: Id, page: nat, size: nat): seq<Order>
    requires page >= 1
  {
    Slice(ListBySession(orders, store, session), (page - 1) * size, size)
  }

  function PagesUpTo(orders: seq<Order>, store: Id, session: Id, n: nat, size: nat): seq<Order> {
    if n == 0 then [] else PagesUpTo(orders, store, session, n - 1, size) + OrdersPage(orders, store, session, n, size)
  }

  lemma {:induction false} PagesAreAPrefix(orders: seq<Order>, store: Id, session: Id, n: nat, size: nat)
    ensures var all := ListBySession(orders, store, session);
            PagesUpTo(orders, store, session, n, size) == all[..if n * size < |all| then n * size else |all|]
  {
    if n > 0 {
      PagesAreAPrefix(orders, store, session, n - 1, size);
      assert n * size == (n - 1) * size + size;
    }
  }

  /** The pages 1 to `TotalPages(count, size)`, put together, are the whole list. */
  lemma PagesPartition(orders: seq<Order>, store: Id, session: Id, size: nat)
    requires size >= 1
    ensures PagesUpTo(orders, store, session, TotalPages(CountBySession(orders, store, session), size), size)
            == ListBySession(orders, store, session)
  {
    var all := ListBySession(orders, store, session);
    var n := TotalPages(CountBySession(orders, store, session), size);
    hide ListBySession, TotalPages, PagesUpTo;
    ListCount(orders, store, session);
    PagesReachTheEnd(|all|, size);
    PagesAreAPrefix(orders, store, session, n, size);
    assert all[..|all|] == all;
  }

  /** What `ORDER BY created_at, order_seq` may return; equal keys may come in any order. */
  ghost predicate AscendingArrangement(r: seq<Order>, orders: seq<Order>, store: Id, session: Id) {
    multiset(r) == multiset(LiveOrders(orders, store, session)) && InCreationOrder(r)
  }

  /** Page by page, each from an answer of its own: the first page is a slice of `answers[0]`, and so on. */
  function JoinedPages(answers: seq<seq<Order>>, size: nat): seq<Order> {
    if answers == [] then []
    else JoinedPages(answers[..|answers| - 1], size) + Slice(answers[|answers| - 1], (|answers| - 1) * size, size)
  }

  lemma {:induction false} JoinedFromOne(answers: seq<seq<Order>>, orders: seq<Order>, store: Id, session: Id,
      size: nat)
    requires forall i :: 0 <= i < |answers| ==> answers[i] == ListBySession(orders, store, session)
    ensures JoinedPages(answers, size) == PagesUpTo(orders, store, session, |answers|, size)
  {
    if answers != [] { JoinedFromOne(answers[..|answers| - 1], orders, store, session, size); }
  }

  /**
    If sort keys are distinct, the pages add up to the list although each comes from a query of its
    own, and every query may arrange the rows as it likes.
   */
  lemma PagesOfSeparateQueries(answers: seq<seq<Order>>, orders: seq<Order>, store: Id, session: Id, size: nat)
    requires size >= 1 && |answers| == TotalPages(CountBySession(orders, store, session), size)
    requires forall i :: 0 <= i < |answers| ==> AscendingArrangement(answers[i], orders, store, session)
    requires DistinctKeys(ListBySession(orders, store, session))
    ensures JoinedPages(answers, size) == ListBySession(orders, store, session)
  {
    hide ListBySession, InCreationOrder, DistinctKeys, LiveOrders, TotalPages, JoinedPages, PagesUpTo;
    forall i | 0 <= i < |answers|
      ensures answers[i] == ListBySession(orders, store, session)
    {
      OnlyOneAnswer(answers[i], orders, store, session);
    }
    JoinedFromOne(answers, orders, store, session, size);
    PagesPartition(orders, store, session, size);
  }

  lemma OnlyOneAnswer(r: seq<Order>, orders: seq<Order>, store: Id, session: Id)
    requires AscendingArrangement(r, orders, store, session) && DistinctKeys(ListBySession(orders, store, session))
    ensures r == ListBySession(orders, store, session)
  {
    Sorting.SortKeeps(Precedes, LiveOrders(orders, store, session));
    SortOrdered(LiveOrders(orders, store, session));
    hide LiveOrders, InCreationOrder, DistinctKeys;
    SortedUnique(ListBySession(orders, store, session), r);
  }

  /** ... and none of them is empty, unless there are no orders at all. */
  lemma PagesNotEmpty(orders: seq<Order>, store: Id, session: Id, page: nat, size: nat)
    requires size >= 1 && CountBySession(orders, store, session) >= 1
    requires 1 <= page <= TotalPages(CountBySession(orders, store, session), size)
    ensures OrdersPage(orders, store, session, page, size) != []
  {
    var total := CountBySession(orders, store, session);
    hide ListBySession, TotalPages, CountBySession, Slice;
    ListCount(orders, store, session);
    PagesReachTheEnd(total, size);
    ProductsMonotone(page - 1, size, TotalPages(total, size) - 1, size);
    SliceNotEmpty(ListBySession(orders, store, session), (page - 1) * size, size);
  }

  // ---------- The most recent orders ----------

  function Reverse(orders: seq<Order>): (r: seq<Order>)
    ensures |r| == |orders| && forall i :: 0 <= i < |r| ==> r[i] == orders[|orders| - 1 - i]
  {
    if orders == [] then [] else [orders[|orders| - 1]] + Reverse(orders[..|orders| - 1])
  }

  /** Later orders first, and of those created at the same time the one with the higher number. */
  predicate LatestFirst(orders: seq<Order>) {
    forall i, j :: 0 <= i < j < |orders| ==>
      && orders[i].createdAt >= orders[j].createdAt
      && (orders[i].createdAt == orders[j].createdAt ==> orders[i].seqNo >= orders[j].seqNo)
  }

  /** What `ORDER BY created_at DESC, order_seq DESC` may return. */
  ghost predicate DescendingArrangement(r: seq<Order>, orders: seq<Order>, store: Id, session: Id) {
    multiset(r) == multiset(LiveOrders(orders, store, session)) && LatestFirst(r)
  }

  lemma {:induction false} ReverseKeeps(orders: seq<Order>)
    ensures multiset(Reverse(orders)) == multiset(orders)
  {
    if orders != [] {
      ReverseKeeps(orders[..|orders| - 1]);
      assert orders == orders[..|orders| - 1] + [orders[|orders| - 1]];
    }
  }

  /** The three most recent orders are the end of the list, latest first. */
  lemma RecentIsReversedEnd(r: seq<Order>, orders: seq<Order>, store: Id, session: Id, limit: nat)
    requires DescendingArrangement(r, orders, store, session)
    requires DistinctKeys(ListBySession(orders, store, session))
    ensures Slice(r, 0, limit) == Slice(Reverse(ListBySession(orders, store, session)), 0, limit)
  {
    ReverseKeeps(r);
    ReverseAscends(r);
    hide ListBySession, LiveOrders, Reverse, InCreationOrder, DistinctKeys;
    OnlyOneAnswer(Reverse(r), orders, store, session);
    ReverseTwice(r);
  }

  lemma ReverseTwice(r: seq<Order>)
    ensures Reverse(Reverse(r)) == r
  {
    hide Reverse;
  }

  lemma ReverseAscends(r: seq<Order>)
    requires LatestFirst(r)
    ensures InCreationOrder(Reverse(r))
  {
    hide Reverse;
  }
}
