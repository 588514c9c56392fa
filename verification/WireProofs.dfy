// What the wire format guarantees: round trips on an exact domain, and readers that
// do not depend on how the stream is cut into chunks.

module WireProofs {
  import opened ByteStrings
  import opened Decimal
  import opened Wire

  // ---------- stability: more input never changes an answer ----------

  // The reader ran off the end of the bytes it was given.
  predicate NeedsMore<T>(p: Parse<T>) {
    p.Fail? && (p.error == Eof || p.error == UnexpectedEof)
  }

  function Extend<T>(p: Parse<T>, t: Bytes): Parse<T> {
    match p
    case Ok(v, rest) => Ok(v, rest + t)
    case Fail(e) => Fail(e)
  }

  lemma SliceStable(s: Bytes, t: Bytes)
    requires !NeedsMore(ReadSlice(s))
    ensures ReadSlice(s + t) == Extend(ReadSlice(s), t)
  {
    var i := IndexOf(s, LF);
    if i < |s| {
      IndexOfIs(s + t, LF, i);
      assert (s + t)[i + 1..] == s[i + 1..] + t;
      assert (s + t)[..i + 1] == s[..i + 1];
    } else {
      var j := IndexOf(s + t, LF);
      assert j >= |s| by {
        assert forall k :: 0 <= k < |s| ==> (s + t)[k] == s[k];
      }
    }
  }

  lemma LineStable(s: Bytes, t: Bytes)
    requires !NeedsMore(ReadLine(s))
    ensures ReadLine(s + t) == Extend(ReadLine(s), t)
  {
    SliceStable(s, t);
  }

  lemma BlockStable(n: nat, s: Bytes, t: Bytes)
    requires !NeedsMore(ReadBlock(n, s))
    ensures ReadBlock(n, s + t) == Extend(ReadBlock(n, s), t)
  {
    LineStable(s[n..], t);
    assert (s + t)[n..] == s[n..] + t;
    assert (s + t)[..n] == s[..n];
  }

  // On arbitrary bytes: an answer, be it a value or an error other than the end of
  // the stream, is the same whatever bytes follow, and so is the length consumed.
  lemma {:induction false} ReadStable(lib: Lib, s: Bytes, t: Bytes)
    requires !NeedsMore(Read(lib, s))
    ensures Read(lib, s + t) == Extend(Read(lib, s), t)
    decreases |s|, 0
  {
    LineStable(s, t);
    if ReadLine(s).Ok? && |ReadLine(s).value| >= 2 {
      var line := ReadLine(s).value;
      TaggedStable(lib, line[0], line[1..], ReadLine(s).rest, t);
    }
  }

  lemma {:induction false} TaggedStable(lib: Lib, tag: byte, body: Bytes, s: Bytes, t: Bytes)
    requires body != [] && !NeedsMore(ReadTagged(lib, tag, body, s))
    ensures ReadTagged(lib, tag, body, s + t) == Extend(ReadTagged(lib, tag, body, s), t)
    decreases |s|, 2
  {
    var n := ParseInt(body);
    if tag == DOLLAR && n.Number? && n.n >= 0 {
      BlockStable(n.n, s, t);
    } else if tag == STAR && n.Number? && n.n >= 0 {
      ReadManyStable(lib, n.n, s, t);
    } else if tag == TILDE {
      ReadStable(lib, s, t);
    }
  }

  lemma {:induction false} ReadManyStable(lib: Lib, n: nat, s: Bytes, t: Bytes)
    requires !NeedsMore(ReadMany(lib, n, s))
    ensures ReadMany(lib, n, s + t) == Extend(ReadMany(lib, n, s), t)
    decreases |s|, 1
  {
    hide ReadTagged;
    if n > 0 {
      ReadStable(lib, s, t);
      if Read(lib, s).Ok? {
        ReadManyStable(lib, n - 1, Read(lib, s).rest, t);
      }
    }
  }

  lemma LineNotHungry(a: Bytes, b: Bytes)
    requires ReadLine(a + b).Ok? && |b| <= |ReadLine(a + b).rest|
    ensures ReadLine(a).Ok?
  {
    var i := IndexOf(a + b, LF);
    assert forall k :: 0 <= k < |a| ==> (a + b)[k] == a[k];
    IndexOfIs(a, LF, i);
    assert (a + b)[..i + 1] == a[..i + 1];
  }

  lemma BlockNotHungry(n: nat, a: Bytes, b: Bytes)
    requires ReadBlock(n, a + b).Ok? && |b| <= |ReadBlock(n, a + b).rest|
    ensures ReadBlock(n, a).Ok?
  {
    assert (a + b)[n..] == a[n..] + b;
    LineNotHungry(a[n..], b);
    LineStable(a[n..], b);
  }

  // Bytes the reader consumes entirely do not make it ask for more.
  lemma {:induction false} ReadNotHungry(lib: Lib, a: Bytes, b: Bytes)
    requires Read(lib, a + b).Ok? && |b| <= |Read(lib, a + b).rest|
    ensures !NeedsMore(Read(lib, a))
    decreases |a|, 0
  {
    var r := ReadLine(a + b);
    if |r.rest| >= |b| {
      LineNotHungry(a, b);
      LineStable(a, b);
      var line := ReadLine(a).value;
      TaggedNotHungry(lib, line[0], line[1..], ReadLine(a).rest, b);
    }
  }

  lemma {:induction false} TaggedNotHungry(lib: Lib, tag: byte, body: Bytes, a: Bytes, b: Bytes)
    requires body != []
    requires var r := ReadTagged(lib, tag, body, a + b); r.Ok? && |b| <= |r.rest|
    ensures !NeedsMore(ReadTagged(lib, tag, body, a))
    decreases |a|, 2
  {
    var n := ParseInt(body);
    if tag == DOLLAR && n.n >= 0 {
      BlockNotHungry(n.n, a, b);
    } else if tag == STAR {
      ReadManyNotHungry(lib, n.n, a, b);
    } else if tag == TILDE {
      ReadNotHungry(lib, a, b);
    }
  }

  lemma {:induction false} ReadManyNotHungry(lib: Lib, n: nat, a: Bytes, b: Bytes)
    requires ReadMany(lib, n, a + b).Ok? && |b| <= |ReadMany(lib, n, a + b).rest|
    ensures !NeedsMore(ReadMany(lib, n, a))
    decreases |a|, 1
  {
    hide ReadTagged;
    if n > 0 {
      ReadNotHungry(lib, a, b);
      ReadStable(lib, a, b);
      var rest := Read(lib, a).rest;
      assert ReadMany(lib, n - 1, rest + b).Ok?;
      ReadManyNotHungry(lib, n - 1, rest, b);
    }
  }

  predicate IsSuffix(s: Bytes, r: Bytes) {
    |r| <= |s| && r == s[|s| - |r|..]
  }

  lemma SuffixOfSuffix(s: Bytes, r: Bytes, q: Bytes)
    requires IsSuffix(s, r) && IsSuffix(r, q)
    ensures IsSuffix(s, q)
  {
  }

  lemma {:induction false} ReadSuffix(lib: Lib, s: Bytes)
    requires Read(lib, s).Ok?
    ensures IsSuffix(s, Read(lib, s).rest)
    decreases |s|, 0
  {
    var line, rest := ReadLine(s).value, ReadLine(s).rest;
    TaggedSuffix(lib, line[0], line[1..], rest);
    SuffixOfSuffix(s, rest, Read(lib, s).rest);
  }

  lemma {:induction false} TaggedSuffix(lib: Lib, tag: byte, body: Bytes, s: Bytes)
    requires body != [] && ReadTagged(lib, tag, body, s).Ok?
    ensures IsSuffix(s, ReadTagged(lib, tag, body, s).rest)
    decreases |s|, 2
  {
    var n := ParseInt(body);
    if tag == STAR {
      ReadManySuffix(lib, n.n, s);
    } else if tag == TILDE {
      ReadSuffix(lib, s);
    }
  }

  lemma {:induction false} ReadManySuffix(lib: Lib, n: nat, s: Bytes)
    requires ReadMany(lib, n, s).Ok?
    ensures IsSuffix(s, ReadMany(lib, n, s).rest)
    decreases |s|, 1
  {
    hide ReadTagged;
    if n > 0 {
      var first := Read(lib, s);
      ReadSuffix(lib, s);
      var others := ReadMany(lib, n - 1, first.rest);
      ReadManySuffix(lib, n - 1, first.rest);
      assert ReadMany(lib, n, s) == Ok([first.value] + others.value, others.rest);
      SuffixOfSuffix(s, first.rest, others.rest);
    }
  }

  // A value is announced exactly when its last byte arrives: the bytes it occupies
  // read back as that value alone, and every shorter prefix asks for more.
  lemma ReadMinimal(lib: Lib, s: Bytes, k: nat)
    requires Read(lib, s).Ok?
    requires k < |s| - |Read(lib, s).rest|
    ensures Read(lib, s[..|s| - |Read(lib, s).rest|]) == Ok(Read(lib, s).value, [])
    ensures NeedsMore(Read(lib, s[..k]))
  {
    hide Read;
    ReadExact(lib, s);
    assert s[..k] + s[k..] == s;
    if !NeedsMore(Read(lib, s[..k])) {
      ReadStable(lib, s[..k], s[k..]);
    }
  }

  lemma ReadExact(lib: Lib, s: Bytes)
    requires Read(lib, s).Ok?
    ensures Read(lib, s[..|s| - |Read(lib, s).rest|]) == Ok(Read(lib, s).value, [])
  {
    ReadSuffix(lib, s);
    var r := Read(lib, s);
    var used := |s| - |r.rest|;
    var a := s[..used];
    assert a + r.rest == s;
    ReadNotHungry(lib, a, r.rest);
    ReadStable(lib, a, r.rest);
    assert Extend(Read(lib, a), r.rest) == r;
  }
}
