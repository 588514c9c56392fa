// Reading back what was written: the exact domain on which the typed wire format
// loses nothing.

module RoundTrip {
  import opened ByteStrings
  import opened Decimal
  import opened Wire

  // ---------- the domain ----------

  // A line body that fits the reader's buffer next to its prefix and CRLF, and that
  // the reader accepts: at least one byte, and no line feed.
  predicate LineBody(body: Bytes) {
    0 < |body| <= LINE_BUFFER - 3 && LF !in body
  }

  // The values a reader can be given. Sizes are bounded by int64 as in Go.
  predicate Readable(lib: Lib, v: Value) {
    match v
    case Null => true
    case Int(n) => IsInt64(n)
    case Str(s) => LineBody(s)
    case Byte(b) => b != LF
    case Blob(data) => |data| <= MAX_INT64
    case Bool(_) => true
    case Float(text) => LineBody(text) && lib.floatOk(text)
    case Error(message) => LineBody(message)
    case Arr(elems) => |elems| <= MAX_INT64 && forall e <- elems :: Readable(lib, e)
    case Json(document) => |document| <= MAX_INT64 && lib.jsonOk(document)
  }

  // ---------- everything the reader yields is in the domain ----------

  lemma LineContent(s: Bytes)
    requires ReadLine(s).Ok?
    ensures LF !in ReadLine(s).value
  {
    var i := IndexOf(s, LF);
    assert ReadLine(s).value == s[..i - 1];
  }

  lemma {:induction false} ReadYieldsReadable(lib: Lib, s: Bytes)
    requires Read(lib, s).Ok?
    ensures Readable(lib, Read(lib, s).value)
    decreases |s|, 0
  {
    LineContent(s);
    var line, rest := ReadLine(s).value, ReadLine(s).rest;
    TaggedYieldsReadable(lib, line[0], line[1..], rest);
  }

  lemma {:induction false} TaggedYieldsReadable(lib: Lib, tag: byte, body: Bytes, s: Bytes)
    requires LineBody(body) && ReadTagged(lib, tag, body, s).Ok?
    ensures Readable(lib, ReadTagged(lib, tag, body, s).value)
    decreases |s|, 2
  {
    if tag == STAR {
      ReadManyYieldsReadable(lib, ParseInt(body).n, s);
    } else if tag == TILDE {
      ReadYieldsReadable(lib, s);
    }
  }

  lemma {:induction false} ReadManyYieldsReadable(lib: Lib, n: nat, s: Bytes)
    requires ReadMany(lib, n, s).Ok?
    ensures forall e <- ReadMany(lib, n, s).value :: Readable(lib, e)
    decreases |s|, 1
  {
    hide ReadTagged;
    if n > 0 {
      var first := Read(lib, s);
      ReadYieldsReadable(lib, s);
      ReadManyYieldsReadable(lib, n - 1, first.rest);
      var others := ReadMany(lib, n - 1, first.rest);
      assert ReadMany(lib, n, s) == Ok([first.value] + others.value, others.rest);
    }
  }

  // ---------- the frames, spelled out ----------

  // What each kind of message looks like on the wire: the constants,
  lemma ConstantFrames(lib: Lib)
    ensures Emit(lib, Plain(Null)) == Ascii("$-1\r\n")
    ensures Emit(lib, Plain(Bool(true))) == Ascii("?1\r\n")
    ensures Emit(lib, Plain(Bool(false))) == Ascii("?0\r\n")
    ensures Emit(lib, Failure(None)) == Ascii("-ERR \r\n")
  {
  }

  // those of one line,
  lemma LineFrames(lib: Lib, n: int, s: Bytes, b: byte)
    ensures Emit(lib, Plain(Int(n))) == Ascii(":") + FormatInt(n) + Ascii("\r\n")
    ensures Emit(lib, Plain(Str(s))) == Ascii("+") + s + Ascii("\r\n")
    ensures Emit(lib, Plain(Float(s))) == Ascii(".") + s + Ascii("\r\n")
    ensures Emit(lib, Plain(Byte(b))) == Ascii("&") + [b] + Ascii("\r\n")
    ensures Emit(lib, Failure(Some(s))) == Ascii("-ERR ") + s + Ascii("\r\n")
  {
    hide FormatInt;
  }

  // and those that announce a length.
  lemma LengthFrames(lib: Lib, s: Bytes, vs: seq<Value>)
    ensures Emit(lib, Plain(Blob(s))) == Ascii("$") + FormatInt(|s|) + Ascii("\r\n") + s + Ascii("\r\n")
    ensures Emit(lib, Document(s)) == Ascii("~json\r\n") + Emit(lib, Plain(Blob(s)))
    ensures Emit(lib, Array(vs)) == Ascii("*") + FormatInt(|vs|) + Ascii("\r\n") + EmitValues(lib, vs)
  {
    hide FormatInt, EmitValues;
  }

  // ---------- everything in the domain is read back ----------

  lemma LineBack(prefix: byte, body: Bytes, t: Bytes)
    requires prefix != LF && LF !in body && |body| <= LINE_BUFFER - 3
    ensures ReadLine(Line(prefix, body) + t) == Ok([prefix] + body, t)
  {
    var s := Line(prefix, body) + t;
    IndexOfIs(s, LF, |body| + 2);
    assert s[|body| + 3..] == t;
    assert s[..|body| + 3][..|body| + 1] == [prefix] + body;
  }

  lemma BlockBack(data: Bytes, t: Bytes)
    ensures ReadBlock(|data|, data + CRLF + t) == Ok(data, t)
  {
    var s := data + CRLF + t;
    assert s[|data|..] == CRLF + t;
    IndexOfIs(CRLF + t, LF, 1);
    assert (CRLF + t)[2..] == t;
    assert s[..|data|] == data;
  }

  // A line announcing a length.
  lemma LenBack(prefix: byte, n: int, t: Bytes)
    requires prefix != LF && IsInt64(n)
    ensures ReadLine(EmitLen(prefix, n) + t) == Ok([prefix] + FormatInt(n), t)
    ensures ParseInt(([prefix] + FormatInt(n))[1..]) == Number(n)
    ensures FormatInt(n) != []
  {
    FormatIntShape(n);
    LineBack(prefix, FormatInt(n), t);
    IntRoundTrip(n);
    assert ([prefix] + FormatInt(n))[1..] == FormatInt(n);
  }

  // One line is read as a value by its tag alone.
  lemma TaggedBack(lib: Lib, tag: byte, body: Bytes, t: Bytes)
    requires tag != LF && LineBody(body)
    ensures Read(lib, Line(tag, body) + t) == ReadTagged(lib, tag, body, t)
  {
    LineBack(tag, body, t);
    assert ([tag] + body)[1..] == body;
  }

  // What one line is read as, by its first byte.
  lemma LineRead(lib: Lib, tag: char, body: Bytes, t: Bytes)
    requires tag as int < 128 && tag != '\n' && LineBody(body)
    ensures var r := Read(lib, Ascii([tag]) + body + Ascii("\r\n") + t);
            && (tag == '+' ==> r == Ok(Str(body), t))
            && (tag == '-' ==> r == Ok(Error(body), t))
            && (tag == '&' ==> r == Ok(Byte(body[0]), t))
            && (tag == '?' ==> r == Ok(Bool(body[0] == Ascii("1")[0]), t))
            && (tag == '.' ==> r == if lib.floatOk(body) then Ok(Float(body), t) else Fail(BadFloat))
            && (tag == ':' ==> r == if ParseInt(body).Number? then Ok(Int(ParseInt(body).n), t) else Fail(BadInt))
            && (tag !in {'+', '-', '&', '?', '.', ':', '$', '*', '~'} ==> r == Fail(ReadRequest))
    ensures var r, n := Read(lib, Ascii([tag]) + body + Ascii("\r\n") + t), ParseInt(body);
            && (tag in {'$', '*'} && !n.Number? ==> r == Fail(BadInt))
            && (tag == '$' && n == Number(-1) ==> r == Ok(Null, t))
            && (tag == '$' && n.Number? && n.n < -1 ==> r == Fail(Crash))
            && (tag == '*' && n.Number? && n.n < 0 ==> r == Fail(Crash))
    ensures var r, inner := Read(lib, Ascii([tag]) + body + Ascii("\r\n") + t), Read(lib, t);
            tag == '~' ==>
              r == if inner.Fail? then Fail(inner.error)
                   else if body != Ascii("json") then Fail(ReadRequest)
                   else if !inner.value.Blob? then Fail(Crash)
                   else if lib.jsonOk(inner.value.data) then Ok(Json(inner.value.data), inner.rest)
                   else Fail(BadJson)
  {
    hide Read, ParseInt, ReadMany, ReadBlock;
    var b := AsciiByte(tag);
    assert Ascii([tag]) == [b] && Ascii("\r\n") == CRLF && Ascii("json") == JSON_TAG;
    assert Ascii([tag]) + body + Ascii("\r\n") + t == Line(b, body) + t;
    TaggedBack(lib, b, body, t);
  }

  // Lines that are refused: too short, without a carriage return, without an end within
  // the buffer, or cut off.
  lemma LineRefused(s: Bytes, b: byte, t: Bytes)
    ensures b != LF ==> forall lib :: Read(lib, [b] + Ascii("\r\n") + t) == Fail(ReadRequest)
    ensures LF !in s && |s| < 128 && (s == [] || s[|s| - 1] != CR) ==>
              ReadLine(s + Ascii("\n") + t) == Fail(LineFormat)
    ensures LF !in s && |s| >= 128 ==> ReadLine(s + t) == Fail(BufferFull)
    ensures LF !in s && |s| < 128 ==> ReadLine(s) == Fail(Eof)
  {
    if LF !in s {
      if |s| < 128 {
        IndexOfIs(s + Ascii("\n") + t, LF, |s|);
        IndexOfIs(s, LF, |s|);
      } else {
        assert IndexOf(s + t, LF) >= 128 by {
          assert forall k :: 0 <= k < |s| ==> (s + t)[k] == s[k];
        }
      }
    }
    if b != LF {
      LineBack(b, [], t);
      assert Line(b, []) + t == [b] + Ascii("\r\n") + t;
    }
  }

  // A sized payload that is cut off, or not followed by an empty line.
  lemma BlockRefused(n: nat, s: Bytes)
    ensures |s| < n ==> ReadBlock(n, s) == Fail(if s == [] then Eof else UnexpectedEof)
    ensures |s| >= n && ReadLine(s[n..]).Ok? && ReadLine(s[n..]).value != [] ==> ReadBlock(n, s) == Fail(BadBulk)
  {
    hide ReadLine;
  }

  lemma BlobSplit(data: Bytes, t: Bytes)
    ensures EmitBlob(data) + t == Line(DOLLAR, FormatInt(|data|)) + (data + CRLF + t)
  {
    hide Line, FormatInt;
  }

  lemma BlobBack(lib: Lib, data: Bytes, t: Bytes)
    requires |data| <= MAX_INT64
    ensures Read(lib, EmitBlob(data) + t) == Ok(Blob(data), t)
  {
    hide Read, ReadBlock, FormatInt, ParseInt, Line, EmitBlob;
    FormatIntShape(|data|);
    IntRoundTrip(|data|);
    BlockBack(data, t);
    TaggedBack(lib, DOLLAR, FormatInt(|data|), data + CRLF + t);
    BlobSplit(data, t);
  }

  lemma NullText()
    ensures FormatInt(-1) == NULL_BULK
  {
  }

  lemma ValueBack(lib: Lib, v: Value, t: Bytes)
    requires Readable(lib, Flatten(lib, v))
    ensures Read(lib, EmitValue(lib, v) + t) == Ok(Flatten(lib, v), t)
  {
    hide Read, Line, FormatInt, ParseInt, EmitBlob, ReadBlock;
    match v
    case Null =>
      NullText();
      IntRoundTrip(-1);
      TaggedBack(lib, DOLLAR, NULL_BULK, t);
    case Int(n) =>
      FormatIntShape(n);
      IntRoundTrip(n);
      TaggedBack(lib, COLON, FormatInt(n), t);
    case Str(s) => TaggedBack(lib, PLUS_SIGN, s, t);
    case Byte(b) => TaggedBack(lib, AMPERSAND, [b], t);
    case Blob(data) => BlobBack(lib, data, t);
    case Bool(flag) => TaggedBack(lib, QUESTION, [if flag then 49 else 48], t);
    case Float(text) => TaggedBack(lib, DOT, text, t);
    case _ => BlobBack(lib, lib.sprint(v), t);
  }

  lemma {:induction false} ValuesBack(lib: Lib, vs: seq<Value>, t: Bytes)
    requires forall v <- vs :: Readable(lib, Flatten(lib, v))
    ensures ReadMany(lib, |vs|, EmitValues(lib, vs) + t) == Ok(FlattenAll(lib, vs), t)
  {
    hide Read, ReadTagged, EmitValue;
    if vs == [] {
      assert EmitValues(lib, vs) + t == t;
    } else {
      var others := EmitValues(lib, vs[1..]) + t;
      ValueBack(lib, vs[0], others);
      ValuesBack(lib, vs[1..], t);
      assert EmitValues(lib, vs) + t == EmitValue(lib, vs[0]) + others;
      assert FlattenAll(lib, vs) == [Flatten(lib, vs[0])] + FlattenAll(lib, vs[1..]);
    }
  }

  lemma ArrayBack(lib: Lib, vs: seq<Value>, t: Bytes)
    requires |vs| <= MAX_INT64 && forall v <- vs :: Readable(lib, Flatten(lib, v))
    ensures Read(lib, EmitLen(STAR, |vs|) + EmitValues(lib, vs) + t) == Ok(Arr(FlattenAll(lib, vs)), t)
  {
    hide Read, EmitValues;
    FormatIntShape(|vs|);
    IntRoundTrip(|vs|);
    ValuesBack(lib, vs, t);
    TaggedBack(lib, STAR, FormatInt(|vs|), EmitValues(lib, vs) + t);
    assert EmitLen(STAR, |vs|) + EmitValues(lib, vs) + t == EmitLen(STAR, |vs|) + (EmitValues(lib, vs) + t);
  }

  lemma MessageBack(lib: Lib, m: Message, t: Bytes)
    requires Readable(lib, Meaning(lib, m))
    ensures Read(lib, Emit(lib, m) + t) == Ok(Meaning(lib, m), t)
  {
    hide Read, EmitValue, EmitValues;
    match m
    case Plain(v) => ValueBack(lib, v, t);
    case Failure(None) => TaggedBack(lib, DASH, ERR_PREFIX, t);
    case Failure(Some(reason)) => TaggedBack(lib, DASH, ERR_PREFIX + reason, t);
    case Array(items) =>
      forall v | v in items
        ensures Readable(lib, Flatten(lib, v))
      {
        var i :| 0 <= i < |items| && items[i] == v;
        assert FlattenAll(lib, items)[i] in FlattenAll(lib, items);
      }
      ArrayBack(lib, items, t);
    case Document(text) =>
      BlobBack(lib, text, t);
      TaggedBack(lib, TILDE, JSON_TAG, EmitBlob(text) + t);
      assert Emit(lib, m) + t == Line(TILDE, JSON_TAG) + (EmitBlob(text) + t);
    case Bulk(parts) =>
      forall v | v in Blobs(parts)
        ensures Readable(lib, Flatten(lib, v))
      {
      }
      ArrayBack(lib, Blobs(parts), t);
      assert FlattenAll(lib, Blobs(parts)) == Blobs(parts);
  }

  // The exact domain of one message, whatever follows it on the stream.
  lemma MessageRoundTrip(lib: Lib, m: Message, t: Bytes)
    ensures Read(lib, Emit(lib, m) + t) == Ok(Meaning(lib, m), t) <==> Readable(lib, Meaning(lib, m))
  {
    hide Read, Emit, Meaning, Readable;
    if Readable(lib, Meaning(lib, m)) {
      MessageBack(lib, m, t);
    }
    if Read(lib, Emit(lib, m) + t) == Ok(Meaning(lib, m), t) {
      ReadYieldsReadable(lib, Emit(lib, m) + t);
    }
  }

  // An empty simple string: the reader refuses the line that was written for it.
  lemma EmptyStringIsRefused(lib: Lib, t: Bytes)
    ensures Read(lib, Emit(lib, Plain(Str([]))) + t) == Fail(ReadRequest)
  {
    LineBack(PLUS_SIGN, [], t);
  }

  lemma {:induction false} MessagesBack(lib: Lib, ms: seq<Message>, t: Bytes)
    requires forall m <- ms :: Readable(lib, Meaning(lib, m))
    ensures ReadMany(lib, |ms|, EmitAll(lib, ms) + t) == Ok(Meanings(lib, ms), t)
  {
    hide Read, ReadTagged, Emit, Meaning, Readable;
    if ms == [] {
      assert EmitAll(lib, ms) + t == t;
    } else {
      var others := EmitAll(lib, ms[1..]) + t;
      MessageBack(lib, ms[0], others);
      MessagesBack(lib, ms[1..], t);
      assert EmitAll(lib, ms) + t == Emit(lib, ms[0]) + others;
      assert Meanings(lib, ms) == [Meaning(lib, ms[0])] + Meanings(lib, ms[1..]);
    }
  }

  // Whole streams: reading back the concatenation of any list of messages yields
  // their meanings and consumes exactly their bytes, if and only if every one of them
  // is readable.
  lemma StreamRoundTrip(lib: Lib, ms: seq<Message>, t: Bytes)
    ensures ReadMany(lib, |ms|, EmitAll(lib, ms) + t) == Ok(Meanings(lib, ms), t)
            <==> forall m <- ms :: Readable(lib, Meaning(lib, m))
  {
    hide Read, ReadTagged, ReadMany, Emit, EmitAll, Meaning, Readable;
    if forall m <- ms :: Readable(lib, Meaning(lib, m)) {
      MessagesBack(lib, ms, t);
    }
    if ReadMany(lib, |ms|, EmitAll(lib, ms) + t) == Ok(Meanings(lib, ms), t) {
      ReadManyYieldsReadable(lib, |ms|, EmitAll(lib, ms) + t);
      forall m | m in ms
        ensures Readable(lib, Meaning(lib, m))
      {
        var i :| 0 <= i < |ms| && ms[i] == m;
        assert Meanings(lib, ms)[i] in Meanings(lib, ms);
      }
    }
  }

  // No readable message is a proper prefix of another, and equal bytes mean the same.
  lemma PrefixFree(lib: Lib, a: Message, b: Message)
    requires Readable(lib, Meaning(lib, a)) && Readable(lib, Meaning(lib, b))
    requires Emit(lib, a) <= Emit(lib, b)
    ensures Emit(lib, a) == Emit(lib, b) && Meaning(lib, a) == Meaning(lib, b)
  {
    hide Read, Emit, Meaning, Readable;
    var t := Emit(lib, b)[|Emit(lib, a)|..];
    assert Emit(lib, a) + t == Emit(lib, b) + [];
    MessageBack(lib, a, t);
    MessageBack(lib, b, []);
  }
}
