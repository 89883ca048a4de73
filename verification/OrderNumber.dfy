/** Order numbers: `<store>-<YYYYMMDD>-<NNN>`, printed and taken apart again. */
module OrderNumber {
  import opened Wrappers
  import opened Decimal

  datatype Parts = Parts(store: string, date: string, number: nat)
  datatype ParseError = TooFewParts | NotANumber

  function FormatOrderNumber(store: string, date: string, number: nat): string {
    store + "-" + date + "-" + PadAtLeast(number, 3)
  }

  function LastDash(s: string): (r: Option<nat>)
    ensures r.None? <==> '-' !in s
    ensures r.Some? ==> r.value < |s| && s[r.value] == '-' && '-' !in s[r.value + 1..]
  {
    if s == "" then None
    else if s[|s| - 1] == '-' then Some(|s| - 1)
    else
      var r := LastDash(s[..|s| - 1]);
      assert r.Some? ==> s[r.value + 1..] == s[..|s| - 1][r.value + 1..] + [s[|s| - 1]];
      r
  }

  /** Split at the last two dashes, then read the last part as a number. */
  function ParseOrderNumber(s: string): Result<Parts, ParseError> {
    match LastDash(s)
    case None => Failure(TooFewParts)
    case Some(j) =>
      match LastDash(s[..j])
      case None => Failure(TooFewParts)
      case Some(i) =>
        match ReadNat(s[j + 1..])
        case None => Failure(NotANumber)
        case Some(n) => Success(Parts(s[..i], s[i + 1..j], n))
  }

  lemma {:induction false} LastDashOf(a: string, b: string)
    requires '-' !in b
    ensures LastDash(a + "-" + b) == Some(|a|)
  {
    var s := a + "-" + b;
    if b != "" {
      var front := b[..|b| - 1];
      LastDashOf(a, front);
      assert s[..|s| - 1] == a + "-" + front;
      assert s[|s| - 1] == b[|b| - 1];
    }
  }

  lemma DigitsHaveNoDash(s: string)
    requires AllDigits(s)
    ensures '-' !in s
  {}

  /** Parsing undoes printing, whatever dashes the store id has and however long the number is. */
  lemma RoundTrip(store: string, date: string, number: nat)
    requires '-' !in date
    ensures ParseOrderNumber(FormatOrderNumber(store, date, number)) == Success(Parts(store, date, number))
  {
    var tail := PadAtLeast(number, 3);
    var head := store + "-" + date;
    var s := FormatOrderNumber(store, date, number);
    DigitsHaveNoDash(tail);
    ReadPadAtLeast(number, 3);
    assert s == head + "-" + tail;
    LastDashOf(head, tail);
    LastDashOf(store, date);
    assert s[..|head|] == head && s[|head| + 1..] == tail;
    assert s[..|store|] == store && s[|store| + 1..|head|] == date;
  }

  /** A number part as the printer writes it: three digits, or more without a leading zero. */
  predicate CanonicalNumber(s: string) {
    |s| == 3 || (|s| > 3 && s[0] != '0')
  }

  /** The other direction: a parsed string is printed back exactly when its number part is canonical. */
  lemma ParseThenFormat(s: string)
    requires ParseOrderNumber(s).Success?
    ensures var p := ParseOrderNumber(s).value;
            && '-' !in p.date
            && (FormatOrderNumber(p.store, p.date, p.number) == s <==> CanonicalNumber(s[LastDash(s).value + 1..]))
  {
    var p := ParseOrderNumber(s).value;
    var j := LastDash(s).value;
    var i := LastDash(s[..j]).value;
    SplitAtDashes(s, i, j);
    SameHead(p.store + "-" + p.date + "-", PadAtLeast(p.number, 3), s[j + 1..]);
    PrintedBack(s[j + 1..]);
  }

  lemma SplitAtDashes(s: string, i: nat, j: nat)
    requires i < j < |s| && s[i] == '-' && s[j] == '-'
    ensures s == s[..i] + "-" + s[i + 1..j] + "-" + s[j + 1..]
    ensures s[..j][..i] == s[..i] && s[..j][i + 1..] == s[i + 1..j]
  {}

  lemma SameHead(head: string, a: string, b: string)
    ensures head + a == head + b <==> a == b
  {
    assert (head + a)[|head|..] == a && (head + b)[|head|..] == b;
  }

  lemma PrintedBack(s: string)
    requires s != "" && AllDigits(s)
    ensures PadAtLeast(ReadDigits(s), 3) == s <==> CanonicalNumber(s)
  {
    var n := ReadDigits(s);
    assert Pow10(3) == 1000;
    PadRead(s);
    if CanonicalNumber(s) && |s| > 3 {
      ShortestRead(s);
      Pow10Monotone(3, |s| - 1);
    }
    if PadAtLeast(n, 3) == s && n >= 1000 {
      ShortestNoZero(n);
    }
  }

  lemma {:induction false} Pow10Monotone(v: nat, w: nat)
    requires v <= w
    ensures Pow10(v) <= Pow10(w)
  {
    if v < w { Pow10Monotone(v, w - 1); }
  }

  /** Different (store, date, number) never print alike. */
  lemma FormatInjective(store: string, date: string, number: nat, store': string, date': string, number': nat)
    requires '-' !in date && '-' !in date'
    ensures FormatOrderNumber(store, date, number) == FormatOrderNumber(store', date', number')
            <==> store == store' && date == date' && number == number'
  {
    RoundTrip(store, date, number);
    RoundTrip(store', date', number');
  }

  /** At least three digits, and more where they are needed. */
  lemma Samples()
    ensures FormatOrderNumber("s1", "20250102", 7) == "s1-20250102-007"
    ensures FormatOrderNumber("s1", "20250102", 1234) == "s1-20250102-1234"
  {
    SampleDigits();
    hide PadAtLeast;
  }

  lemma SampleDigits()
    ensures PadAtLeast(7, 3) == "007" && PadAtLeast(1234, 3) == "1234"
  {
    assert Pad(0, 1) == "0" && Pad(0, 2) == "00" && Pad(7, 3) == "007";
    assert Digits(12) == "12" && Digits(123) == "123" && Digits(1234) == "1234";
    assert Pow10(1) == 10 && Pow10(2) == 100 && Pow10(3) == 1000;
  }
}
