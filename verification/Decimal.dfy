// Decimal text of int64 values, as written by strconv.AppendInt and read by
// strconv.ParseInt(s, 10, 64).

module Decimal {
  import opened ByteStrings

  const MINUS: byte := 45
  const PLUS: byte := 43
  const ZERO: byte := 48

  datatype ParsedInt = Number(n: int) | Syntax | Range

  function Digits(n: nat): (r: Bytes)
    ensures r != [] && forall i :: 0 <= i < |r| ==> 48 <= r[i] <= 57
  {
    if n < 10 then [ZERO + n as byte] else Digits(n / 10) + [ZERO + (n % 10) as byte]
  }

  function FormatInt(n: int): Bytes {
    if n < 0 then [MINUS] + Digits(-n) else Digits(n)
  }

  // The digit loop of ParseUint: the first bad digit is a syntax error, the first
  // step that leaves uint64 a range error, whichever comes earlier.
  function Scan(s: Bytes): (r: ParsedInt)
    ensures r.Number? ==> 0 <= r.n < TWO_64
  {
    if s == [] then Number(0)
    else
      var front := Scan(s[..|s| - 1]);
      var c := s[|s| - 1];
      if !front.Number? then front
      else if !IsDigit(c) then Syntax
      else
        var n := front.n * 10 + (c - ZERO) as int;
        if n < TWO_64 then Number(n) else Range
  }

  function ParseInt(s: Bytes): (r: ParsedInt)
    ensures r.Number? ==> IsInt64(r.n)
  {
    if s == [] then Syntax
    else
      var signed := s[0] == PLUS || s[0] == MINUS;
      var digits := if signed then s[1..] else s;
      var negative := s[0] == MINUS;
      if digits == [] then Syntax
      else match Scan(digits)
        case Syntax => Syntax
        case Range => Range
        case Number(n) =>
          if negative then (if n <= -MIN_INT64 then Number(-n) else Range)
          else if n <= MAX_INT64 then Number(n) else Range
  }

  lemma {:induction false} ScanDigits(n: nat)
    requires n < TWO_64
    ensures Scan(Digits(n)) == Number(n)
  {
    if n < 10 {
      assert Digits(n)[..0] == [];
    } else {
      ScanDigits(n / 10);
      var d := Digits(n);
      assert d[..|d| - 1] == Digits(n / 10);
    }
  }

  // Every int64, the minimum included, survives printing and parsing.
  lemma IntRoundTrip(n: int)
    requires IsInt64(n)
    ensures ParseInt(FormatInt(n)) == Number(n)
  {
    hide Scan, Digits;
    ScanDigits(if n < 0 then -n else n);
    var s := FormatInt(n);
    assert n < 0 ==> s[1..] == Digits(-n);
  }

  predicate IsDigit(c: byte) {
    48 <= c <= 57
  }

  predicate AllDigits(s: Bytes) {
    forall i :: 0 <= i < |s| ==> IsDigit(s[i])
  }

  // The number a string of digits denotes, however large.
  function Denoted(s: Bytes): nat
    requires AllDigits(s)
  {
    if s == [] then 0 else 10 * Denoted(s[..|s| - 1]) + (s[|s| - 1] - ZERO) as int
  }

  // The digits before position k stay within uint64, and no digit follows.
  predicate StopsAt(s: Bytes, k: nat) {
    k < |s| && AllDigits(s[..k]) && Denoted(s[..k]) < TWO_64 && !IsDigit(s[k])
  }

  lemma {:induction false} ScanExactly(s: Bytes)
    ensures Scan(s).Number? <==> AllDigits(s) && Denoted(s) < TWO_64
    ensures Scan(s).Number? ==> Scan(s).n == Denoted(s)
  {
    if s != [] {
      var front := s[..|s| - 1];
      ScanExactly(front);
      assert AllDigits(s) <==> AllDigits(front) && IsDigit(s[|s| - 1]);
    }
  }

  lemma {:induction false} ScanStops(s: Bytes)
    ensures Scan(s) == Syntax <==> exists k :: StopsAt(s, k)
  {
    hide Denoted;
    if s != [] {
      var n := |s| - 1;
      ScanExactly(s[..n]);
      ScanStops(s[..n]);
      StopsEarlier(s, s[..n]);
      assert Scan(s) == Syntax <==> Scan(s[..n]) == Syntax || StopsAt(s, n);
    }
  }

  lemma StopsEarlier(s: Bytes, front: Bytes)
    requires s != [] && front == s[..|s| - 1]
    ensures (exists k :: StopsAt(s, k)) <==> StopsAt(s, |s| - 1) || exists k :: StopsAt(front, k)
  {
    hide Denoted, AllDigits;
    var n := |s| - 1;
    forall k: nat | k < n
      ensures StopsAt(s, k) <==> StopsAt(front, k)
    {
      assert front[..k] == s[..k];
    }
  }

  // An optional sign and at least one digit.
  predicate Numeral(s: Bytes) {
    Unsigned(s) != [] && AllDigits(Unsigned(s))
  }

  function Unsigned(s: Bytes): Bytes {
    if s != [] && (s[0] == PLUS || s[0] == MINUS) then s[1..] else s
  }

  function SignedValue(s: Bytes): int
    requires Numeral(s)
  {
    if s[0] == MINUS then 0 - Denoted(Unsigned(s)) else Denoted(Unsigned(s))
  }

  // Which texts are numbers, which number, and which error the others give: a syntax
  // error exactly when there is no digit at all, or a bad byte comes before the digits
  // leave uint64.
  lemma ParseIntExactly(s: Bytes)
    ensures ParseInt(s).Number? <==> Numeral(s) && IsInt64(SignedValue(s))
    ensures ParseInt(s).Number? ==> ParseInt(s).n == SignedValue(s)
    ensures ParseInt(s) == Syntax <==> Unsigned(s) == [] || exists k :: StopsAt(Unsigned(s), k)
  {
    hide Scan, Denoted, StopsAt;
    ScanExactly(Unsigned(s));
    ScanStops(Unsigned(s));
  }

  // No digit string for a number is shorter than its printed digits, and none other is as
  // short.
  lemma {:induction false} DigitsShortest(s: Bytes, m: nat)
    requires s != [] && AllDigits(s) && Denoted(s) == m
    ensures |s| >= |Digits(m)| && (|s| == |Digits(m)| ==> s == Digits(m))
  {
    var n := |s| - 1;
    if |s| == 1 {
      assert s[..0] == [];
    } else if m >= 10 {
      DigitsShortest(s[..n], m / 10);
      assert s == s[..n] + [s[n]];
    }
  }

  // The printed text is the shortest one that reads as the number, and the only one of its
  // length: no sign but a minus, no leading zero.
  lemma PrintedShortest(n: int, s: Bytes)
    requires ParseInt(s) == Number(n)
    ensures |s| >= |FormatInt(n)|
    ensures |s| == |FormatInt(n)| ==> s == FormatInt(n)
  {
    hide Digits, Denoted, Scan, ParseInt;
    ParseIntExactly(s);
    DigitsShortest(Unsigned(s), if n < 0 then -n else n);
    assert Unsigned(s) != s ==> s == [s[0]] + Unsigned(s);
  }

  function Pow10(k: nat): (r: nat)
    ensures r > 0
  {
    if k == 0 then 1 else 10 * Pow10(k - 1)
  }

  lemma {:induction false} DigitsLength(n: nat, k: nat)
    requires 0 < k && n < Pow10(k)
    ensures |Digits(n)| <= k
  {
    if n >= 10 {
      assert Pow10(k) == 10 * Pow10(k - 1);
      DigitsLength(n / 10, k - 1);
    }
  }

  // A printed int64 takes at most 20 bytes, none of them a line feed.
  lemma FormatIntShape(n: int)
    requires IsInt64(n)
    ensures 1 <= |FormatInt(n)| <= 20
    ensures LF !in FormatInt(n)
  {
    assert Pow10(7) == 10_000_000;
    assert Pow10(14) == 100_000_000_000_000;
    assert Pow10(19) == 10_000_000_000_000_000_000;
    DigitsLength(if n < 0 then -n else n, 19);
  }
}
