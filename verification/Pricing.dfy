/** The cart's total in the browser, in floating point, against the server's, in whole numbers. */
module Pricing {
  import opened Wrappers
  import opened Collections
  import Rows
  import Steps
  import Transactions

  // ---------- Numbers as the browser has them ----------

  datatype Number = NaN | Infinity(negative: bool) | Finite(value: real)

  /** The largest integer up to which all integers are represented exactly (section 21.1.2.6 of ECMA-262). */
  const MAX_SAFE := 9007199254740991

  /** All that is assumed of rounding to a double: it leaves safe integers alone. */
  ghost predicate ExactOnSafe(rnd: real -> Number) {
    forall n: int :: -MAX_SAFE <= n <= MAX_SAFE ==> ExactAt(rnd, n)
  }

  ghost predicate ExactAt(rnd: real -> Number, n: int) {
    rnd(n as real) == Finite(n as real)
  }

  function Trunc(x: real): int {
    if x >= 0.0 then x.Floor else -(-x).Floor
  }

  function ToSafeInt(n: Number): int {
    if n.Finite? then Trunc(n.value) else 0
  }

  function AtLeastZero(n: int): nat {
    if n > 0 then n else 0
  }

  /** `price * qty`, both finite, whole and not negative. */
  function LineTotal(rnd: real -> Number, unitPrice: Number, quantity: Number): Number {
    rnd((AtLeastZero(ToSafeInt(unitPrice)) * AtLeastZero(ToSafeInt(quantity))) as real)
  }

  function Plus(rnd: real -> Number, a: Number, b: Number): Number {
    match (a, b)
    case (Finite(x), Finite(y)) => rnd(x + y)
    case (Finite(_), _) => b
    case (Infinity(s), Infinity(t)) => if s == t then a else NaN
    case (Infinity(_), Finite(_)) => a
    case _ => NaN
  }

  datatype Line = Line(unitPrice: Option<Number>, price: Option<Number>, quantity: Number)

  /** `unit_price ?? price ?? 0` */
  function Unit(l: Line): Number {
    if l.unitPrice.Some? then l.unitPrice.value else if l.price.Some? then l.price.value else Finite(0.0)
  }

  /** The reduction, each product and each sum rounded. */
  function CartTotal(rnd: real -> Number, items: seq<Line>): Number {
    if items == [] then Finite(0.0)
    else
      var last := items[|items| - 1];
      Plus(rnd, CartTotal(rnd, items[..|items| - 1]), LineTotal(rnd, Unit(last), last.quantity))
  }

  // ---------- The same without rounding ----------

  function Amount(l: Line): nat {
    AtLeastZero(ToSafeInt(Unit(l))) * AtLeastZero(ToSafeInt(l.quantity))
  }

  /** The price of the line: its own, else the dish's, else nothing. */
  predicate PricedAt(l: Line, price: Number) {
    || l.unitPrice == Some(price)
    || (l.unitPrice.None? && l.price == Some(price))
    || (l.unitPrice.None? && l.price.None? && price == Finite(0.0))
  }

  /** Fractions are cut off of both; what is negative, infinite or not a number counts as nothing. */
  lemma AmountMeans(l: Line, price: Number)
    requires PricedAt(l, price)
    ensures Amount(l) ==
            if price.Finite? && price.value >= 0.0 && l.quantity.Finite? && l.quantity.value >= 0.0
            then price.value.Floor * l.quantity.value.Floor else 0
  {}

  function Total(items: seq<Line>): nat {
    if items == [] then 0 else Total(items[..|items| - 1]) + Amount(items[|items| - 1])
  }

  /** As long as the true total is a safe integer, so is every partial sum, and nothing is ever rounded. */
  lemma {:induction false} CartIsExact(rnd: real -> Number, items: seq<Line>)
    requires ExactOnSafe(rnd) && Total(items) <= MAX_SAFE
    ensures CartTotal(rnd, items) == Finite(Total(items) as real)
  {
    hide Amount, AtLeastZero, ToSafeInt, Unit;
    if items != [] {
      var front, last := items[..|items| - 1], items[|items| - 1];
      CartIsExact(rnd, front);
      assert LineTotal(rnd, Unit(last), last.quantity) == rnd(Amount(last) as real) by { LineIsAmount(rnd, last); }
      assert ExactAt(rnd, Amount(last));
      assert Total(front) as real + Amount(last) as real == Total(items) as real;
      assert ExactAt(rnd, Total(items));
    }
  }

  lemma LineIsAmount(rnd: real -> Number, l: Line)
    ensures LineTotal(rnd, Unit(l), l.quantity) == rnd(Amount(l) as real)
  {}

  lemma {:induction false} PartialSumsSafe(rnd: real -> Number, items: seq<Line>, k: nat)
    requires ExactOnSafe(rnd) && Total(items) <= MAX_SAFE && k <= |items|
    ensures Total(items[..k]) <= Total(items) && CartTotal(rnd, items[..k]) == Finite(Total(items[..k]) as real)
    decreases |items|
  {
    if k == |items| {
      assert items[..k] == items;
      CartIsExact(rnd, items);
    } else {
      PartialSumsSafe(rnd, items[..|items| - 1], k);
      assert items[..|items| - 1][..k] == items[..k];
    }
  }

  // ---------- The order of the lines ----------

  lemma {:induction false} TotalWithout(items: seq<Line>, i: nat)
    requires i < |items|
    ensures Total(items) == Total(items[..i] + items[i + 1..]) + Amount(items[i])
  {
    var front, last := items[..|items| - 1], items[|items| - 1];
    var rest := items[..i] + items[i + 1..];
    if i < |front| {
      TotalWithout(front, i);
      assert rest[..|rest| - 1] == front[..i] + front[i + 1..] && rest[|rest| - 1] == last;
    } else {
      assert rest == front;
    }
  }

  lemma MultisetWithout(items: seq<Line>, i: nat)
    requires i < |items|
    ensures multiset(items[..i] + items[i + 1..]) == multiset(items) - multiset{items[i]}
  {
    assert items == items[..i] + [items[i]] + items[i + 1..];
  }

  lemma {:induction false} TotalOfPermutation(a: seq<Line>, b: seq<Line>)
    requires multiset(a) == multiset(b)
    ensures Total(a) == Total(b)
    decreases |a|
  {
    hide Amount, Total;
    if a == [] {
      assert |b| == |multiset(b)| == |multiset(a)| == 0;
    } else {
      assert a[0] in multiset(b);
      var i :| 0 <= i < |b| && b[i] == a[0];
      MultisetWithout(a, 0);
      MultisetWithout(b, i);
      TotalOfPermutation(a[..0] + a[1..], b[..i] + b[i + 1..]);
      TotalWithout(a, 0);
      TotalWithout(b, i);
    }
  }

  /** Up to that limit the order of the lines does not matter, although every sum is a floating-point one. */
  lemma CartOrderIrrelevant(rnd: real -> Number, a: seq<Line>, b: seq<Line>)
    requires ExactOnSafe(rnd) && multiset(a) == multiset(b) && Total(a) <= MAX_SAFE
    ensures CartTotal(rnd, a) == CartTotal(rnd, b)
  {
    TotalOfPermutation(a, b);
    CartIsExact(rnd, a);
    CartIsExact(rnd, b);
  }

  // ---------- The limits of a request ----------

  const MAX_ITEMS_PER_ORDER := 100
  const MAX_QTY_PER_ITEM := 999
  const HIGHEST_PRICE := 90162154702

  predicate WholeUpTo(n: Number, low: int, high: int) {
    n.Finite? && n.value == Trunc(n.value) as real && low <= Trunc(n.value) <= high
  }

  predicate WithinLimits(items: seq<Line>, price: nat) {
    && |items| <= MAX_ITEMS_PER_ORDER
    && forall i :: 0 <= i < |items| ==> WholeUpTo(Unit(items[i]), 0, price) && WholeUpTo(items[i].quantity, 1, MAX_QTY_PER_ITEM)
  }

  lemma AmountBound(l: Line, price: nat)
    requires WholeUpTo(Unit(l), 0, price) && WholeUpTo(l.quantity, 1, MAX_QTY_PER_ITEM)
    ensures Amount(l) <= price * MAX_QTY_PER_ITEM
  {
    var (x, y) := (AtLeastZero(ToSafeInt(Unit(l))), AtLeastZero(ToSafeInt(l.quantity)));
    assert x <= price && y <= MAX_QTY_PER_ITEM;
    ProductsMonotone(x, y, price, MAX_QTY_PER_ITEM);
  }

  lemma {:induction false} TotalBound(items: seq<Line>, price: nat)
    requires WithinLimits(items, price)
    ensures Total(items) <= |items| * (price * MAX_QTY_PER_ITEM)
  {
    hide Amount, WholeUpTo;
    if items != [] {
      var front, last := items[..|items| - 1], items[|items| - 1];
      TotalBound(front, price);
      AmountBound(last, price);
      OneMore(|front|, price * MAX_QTY_PER_ITEM);
    }
  }

  lemma OneMore(n: nat, c: nat)
    ensures (n + 1) * c == n * c + c
  {}

  /** A hundred times the same line, at the greatest quantity. */
  function FullCart(price: nat, n: nat): seq<Line> {
    if n == 0 then [] else FullCart(price, n - 1) + [FullLineAt(price)]
  }

  function FullLineAt(price: nat): Line {
    Line(Some(Finite(price as real)), None, Finite(MAX_QTY_PER_ITEM as real))
  }

  lemma FullLine(price: nat)
    ensures Amount(FullLineAt(price)) == price * MAX_QTY_PER_ITEM
    ensures WholeUpTo(Unit(FullLineAt(price)), 0, price) && WholeUpTo(FullLineAt(price).quantity, 1, MAX_QTY_PER_ITEM)
  {}

  lemma {:induction false} FullCartTotal(price: nat, n: nat, amount: nat)
    requires Amount(FullLineAt(price)) == amount
    ensures |FullCart(price, n)| == n && Total(FullCart(price, n)) == n * amount
  {
    hide Amount, FullLineAt;
    if n > 0 {
      FullCartTotal(price, n - 1, amount);
      var cart := FullCart(price, n);
      assert cart[..|cart| - 1] == FullCart(price, n - 1);
      OneMore(n - 1, amount);
    }
  }

  lemma {:induction false} FullCartFits(price: nat, n: nat)
    requires n <= MAX_ITEMS_PER_ORDER
    ensures |FullCart(price, n)| == n && WithinLimits(FullCart(price, n), price)
  {
    FullLine(price);
    hide WholeUpTo, Unit, FullLineAt;
    if n > 0 { FullCartFits(price, n - 1); }
  }

  /** Every cart within the limits has a safe total exactly if no dish costs more than 90 162 154 702 won. */
  lemma LimitIsSharp(price: nat)
    ensures (forall items :: WithinLimits(items, price) ==> Total(items) <= MAX_SAFE) <==> price <= HIGHEST_PRICE
  {
    if price <= HIGHEST_PRICE {
      forall items | WithinLimits(items, price)
        ensures Total(items) <= MAX_SAFE
      {
        TotalBound(items, price);
        ProductsMonotone(|items|, price * MAX_QTY_PER_ITEM, MAX_ITEMS_PER_ORDER, HIGHEST_PRICE * MAX_QTY_PER_ITEM);
      }
    } else {
      FullLine(price);
      FullCartTotal(price, MAX_ITEMS_PER_ORDER, price * MAX_QTY_PER_ITEM);
      FullCartFits(price, MAX_ITEMS_PER_ORDER);
    }
  }

  // ---------- The server's total ----------

  /** The cart lines of an order the server has priced. */
  function LineOf(i: Rows.Item): Line {
    Line(Some(Finite(i.unitPrice as real)), None, Finite(i.quantity as real))
  }

  function LinesOf(items: seq<Rows.Item>): (r: seq<Line>)
    ensures |r| == |items| && forall i :: 0 <= i < |r| ==> r[i] == LineOf(items[i])
  {
    if items == [] then [] else LinesOf(items[..|items| - 1]) + [LineOf(items[|items| - 1])]
  }

  predicate ItemOk(i: Rows.Item) {
    0 <= i.unitPrice <= HIGHEST_PRICE && 1 <= i.quantity <= MAX_QTY_PER_ITEM
        && i.lineAmount == Rows.LineAmount(i.unitPrice, i.quantity)
  }

  lemma {:induction false} SameTotal(items: seq<Rows.Item>)
    requires forall i :: 0 <= i < |items| ==> ItemOk(items[i])
    ensures Total(LinesOf(items)) == Rows.TotalAmount(items)
  {
    if items != [] {
      SameTotal(items[..|items| - 1]);
      var lines := LinesOf(items);
      assert lines[..|lines| - 1] == LinesOf(items[..|items| - 1]);
      assert ItemOk(items[|items| - 1]);
    }
  }

  lemma ItemWithinLimits(i: Rows.Item)
    requires ItemOk(i)
    ensures WholeUpTo(Unit(LineOf(i)), 0, HIGHEST_PRICE) && WholeUpTo(LineOf(i).quantity, 1, MAX_QTY_PER_ITEM)
  {}

  /** For orders within the request limits the browser shows what the server charges, to the won. */
  lemma CartAgreesWithServer(rnd: real -> Number, menus: seq<Rows.Menu>, store: Rows.Id,
      requests: seq<Steps.ItemRequest>)
    requires ExactOnSafe(rnd) && |requests| <= MAX_ITEMS_PER_ORDER
    requires forall i :: 0 <= i < |requests| ==> 1 <= requests[i].quantity <= MAX_QTY_PER_ITEM
    requires forall m :: m in menus ==> 0 <= m.price <= HIGHEST_PRICE
    requires Steps.PriceItems(menus, store, requests).Some?
    ensures var items := Steps.PriceItems(menus, store, requests).value;
            CartTotal(rnd, LinesOf(items)) == Finite(Rows.TotalAmount(items) as real)
  {
    hide Amount, Total, CartTotal, Rows.TotalAmount, WholeUpTo, Unit, LineOf, ExactOnSafe, Steps.PriceItems;
    var items := Steps.PriceItems(menus, store, requests).value;
    Transactions.PricedItems(menus, store, requests);
    forall i | 0 <= i < |items|
      ensures ItemOk(items[i])
    {
      assert items[i].quantity == requests[i].quantity;
    }
    SameTotal(items);
    var lines := LinesOf(items);
    forall i | 0 <= i < |lines|
      ensures WholeUpTo(Unit(lines[i]), 0, HIGHEST_PRICE) && WholeUpTo(lines[i].quantity, 1, MAX_QTY_PER_ITEM)
    {
      ItemWithinLimits(items[i]);
    }
    LimitIsSharp(HIGHEST_PRICE);
    CartIsExact(rnd, lines);
  }
}
