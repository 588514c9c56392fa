// Byte strings, ASCII text, Go's int64 wrap-around, and a few facts about
// sequences that every other module needs.

module ByteStrings {

  newtype byte = x: int | 0 <= x < 256

  type Bytes = seq<byte>

  datatype Option<+T> = None | Some(value: T)

  const LF: byte := 10
  const CR: byte := 13
  const SPACE: byte := 32
  const CRLF: Bytes := [CR, LF]

  const MIN_INT64: int := -0x8000_0000_0000_0000
  const MAX_INT64: int := 0x7FFF_FFFF_FFFF_FFFF
  const TWO_64: int := 0x1_0000_0000_0000_0000

  predicate IsInt64(n: int) {
    MIN_INT64 <= n <= MAX_INT64
  }

  // Two's complement wrap-around of Go's int64 arithmetic.
  function Wrap(n: int): (r: int)
    ensures IsInt64(r)
    ensures (n - r) % TWO_64 == 0
    ensures IsInt64(n) ==> r == n
  {
    (n - MIN_INT64) % TWO_64 + MIN_INT64
  }

  // Wrapping a part of a sum first does not change the wrapped sum.
  lemma WrapSum(m: int, n: int)
    ensures Wrap(Wrap(m) + n) == Wrap(m + n)
  {
    var q := (m - MIN_INT64) / TWO_64;
    assert Wrap(m) == m - q * TWO_64;
    ModShift(m + n - MIN_INT64, q);
  }

  lemma ModShift(x: int, q: int)
    ensures (x - q * TWO_64) % TWO_64 == x % TWO_64
  {
    var d := x / TWO_64;
    assert x == d * TWO_64 + x % TWO_64;
    assert x - q * TWO_64 == (d - q) * TWO_64 + x % TWO_64;
  }

  // ASCII upper-casing, byte by byte.
  function UpperByte(b: byte): byte {
    if 97 <= b <= 122 then b - 32 else b
  }

  function Upper(s: Bytes): (r: Bytes)
    ensures |r| == |s|
    ensures forall i :: 0 <= i < |s| ==> r[i] == UpperByte(s[i])
  {
    seq(|s|, i requires 0 <= i < |s| => UpperByte(s[i]))
  }

  lemma UpperIdempotent(s: Bytes)
    ensures Upper(Upper(s)) == Upper(s)
  {
  }

  predicate IsLetter(b: byte) {
    'a' as int <= b as int <= 'z' as int || 'A' as int <= b as int <= 'Z' as int
  }

  // The same byte, or the same letter in the other case.
  predicate SameButCase(a: byte, b: byte) {
    a == b || (IsLetter(a) && IsLetter(b) && (a as int - b as int == 32 || b as int - a as int == 32))
  }

  predicate IgnoringCase(a: Bytes, b: Bytes) {
    |a| == |b| && forall i :: 0 <= i < |a| ==> SameButCase(a[i], b[i])
  }

  lemma UpperByteIs(a: byte, b: byte)
    ensures UpperByte(a) == UpperByte(b) <==> SameButCase(a, b)
    ensures !('a' as int <= UpperByte(a) as int <= 'z' as int) && SameButCase(a, UpperByte(a))
  {
  }

  // Upper-casing forgets exactly the case of letters, and leaves none in lower case.
  lemma UpperExactly(a: Bytes, b: Bytes)
    ensures Upper(a) == Upper(b) <==> IgnoringCase(a, b)
    ensures IgnoringCase(a, Upper(a))
    ensures forall i :: 0 <= i < |a| ==> !('a' as int <= Upper(a)[i] as int <= 'z' as int)
  {
    hide UpperByte, SameButCase;
    forall i | 0 <= i < |a|
      ensures SameButCase(a[i], Upper(a)[i]) && !('a' as int <= Upper(a)[i] as int <= 'z' as int)
    {
      UpperByteIs(a[i], a[i]);
    }
    if |a| == |b| {
      forall i | 0 <= i < |a|
        ensures Upper(a)[i] == Upper(b)[i] <==> SameButCase(a[i], b[i])
      {
        UpperByteIs(a[i], b[i]);
      }
      assert Upper(a) == Upper(b) <==> forall i :: 0 <= i < |a| ==> Upper(a)[i] == Upper(b)[i];
    }
  }

  // The named bytes and bounds, spelled out.
  lemma Spelled()
    ensures [LF] == Ascii("\n") && [CR] == Ascii("\r") && [SPACE] == Ascii(" ") && CRLF == Ascii("\r\n")
    ensures forall n :: IsInt64(n) <==> -9223372036854775808 <= n <= 9223372036854775807
  {
  }

  // The bytes of an ASCII text.
  function AsciiByte(c: char): byte {
    if c as int < 128 then c as int as byte else 63
  }

  function Ascii(s: string): Bytes {
    seq(|s|, i requires 0 <= i < |s| => AsciiByte(s[i]))
  }

  // Position of the first occurrence of b, or |s| when there is none.
  function IndexOf(s: Bytes, b: byte): (i: nat)
    ensures i <= |s|
    ensures forall k :: 0 <= k < i ==> s[k] != b
    ensures i < |s| ==> s[i] == b
  {
    if s == [] then 0
    else if s[0] == b then 0
    else
      1 + IndexOf(s[1..], b)
  }

  // IndexOf is the only position with these properties.
  lemma IndexOfIs(s: Bytes, b: byte, i: nat)
    requires i <= |s| && (i < |s| ==> s[i] == b)
    requires forall k :: 0 <= k < i ==> s[k] != b
    ensures IndexOf(s, b) == i
  {
  }

  // The elements of a duplicate-free sequence are exactly those of a set: one
  // possible outcome of ranging over a Go map.
  ghost predicate Enumerates<T(!new)>(order: seq<T>, s: set<T>) {
    && (forall i, j :: 0 <= i < j < |order| ==> order[i] != order[j])
    && (forall x :: x in order <==> x in s)
  }

  lemma EnumerationSnoc<T(!new)>(order: seq<T>, s: set<T>, todo: set<T>, x: T)
    requires todo <= s && x in todo && Enumerates(order, s - todo)
    ensures Enumerates(order + [x], s - (todo - {x}))
  {
  }

  lemma EnumerationSize<T(!new)>(order: seq<T>, s: set<T>)
    requires Enumerates(order, s)
    ensures |order| == |s|
  {
    if order == [] {
      assert s == {};
    } else {
      var n := |order| - 1;
      var rest := order[..n];
      forall x
        ensures x in rest <==> x in s - {order[n]}
      {
        if x in s - {order[n]} {
          assert x in order;
          var i :| 0 <= i < |order| && order[i] == x;
          assert rest[i] == x;
        }
      }
      EnumerationSize(rest, s - {order[n]});
    }
  }
}
