/** Slices and pages of lists, and a few facts about sets and products, that several modules use. */
module Collections {

  /** `OFFSET ... LIMIT ...` */
  function Slice<T>(rows: seq<T>, offset: nat, limit: nat): seq<T> {
    var from := if offset < |rows| then offset else |rows|;
    var to := if offset + limit < |rows| then offset + limit else |rows|;
    rows[from..to]
  }

  // ---------- Pages ----------

  /** `max(1, ceil(total / size))`, and 1 for size 0. */
  function TotalPages(total: nat, size: nat): (pages: nat)
    ensures pages >= 1 && (size == 0 || total <= size ==> pages == 1)
  {
    if size == 0 then 1
    else
      var c := (total + size - 1) / size;
      if c < 1 then 1 else c
  }

  lemma PagesReachTheEnd(total: nat, size: nat)
    requires size >= 1
    ensures TotalPages(total, size) * size >= total
    ensures total >= 1 ==> (TotalPages(total, size) - 1) * size < total
  {
    var c := (total + size - 1) / size;
    DivBounds(total + size - 1, size);
    assert (c + 1) * size == c * size + size && (c - 1) * size == c * size - size;
    if c == 0 { assert c * size == 0; }
  }

  lemma DivBounds(n: nat, d: nat)
    requires d >= 1
    ensures (n / d) * d <= n < (n / d) * d + d
  {
    assert n == d * (n / d) + n % d;
  }

  lemma SliceNotEmpty<T>(rows: seq<T>, offset: nat, limit: nat)
    requires offset < |rows| && limit >= 1
    ensures Slice(rows, offset, limit) != []
  {}

  /** The first `n` pages of a list, put together. */
  function PagesJoined<T>(rows: seq<T>, size: nat, n: nat): seq<T> {
    if n == 0 then [] else PagesJoined(rows, size, n - 1) + Slice(rows, (n - 1) * size, size)
  }

  lemma {:induction false} PagesAreSlices<T>(rows: seq<T>, size: nat, n: nat)
    ensures PagesJoined(rows, size, n) == Slice(rows, 0, n * size)
  {
    if n > 0 {
      PagesAreSlices(rows, size, n - 1);
      assert n * size == (n - 1) * size + size;
    }
  }

  // ---------- Sets and products ----------

  lemma CardinalityMonotone<T>(a: set<T>, b: set<T>)
    requires a <= b
    ensures |a| <= |b|
  {
    if a != {} {
      var x :| x in a;
      CardinalityMonotone(a - {x}, b - {x});
    }
  }

  lemma ProductsMonotone(x: nat, y: nat, p: nat, q: nat)
    requires x <= p && y <= q
    ensures x * y <= p * q
  {
    assert x * y <= p * y <= p * q;
  }
}
