// server.BufferClient: the stateful writer and reader of the typed wire format, proved
// against the functions of module Wire.

module BufferClients {
  import opened ByteStrings
  import opened Decimal
  import opened Wire

  // What a Read* operation returns. After an error every caller abandons the
  // connection, so where the reader then stands is left open.
  datatype Outcome<+T> = Got(value: T) | Broken(error: ReadError)

  // The result and the remaining stream of a read agree with a parse of the stream.
  ghost predicate Follows<T>(r: Outcome<T>, rest: Bytes, p: Parse<T>) {
    match p
    case Ok(v, rest') => r == Got(v) && rest == rest'
    case Fail(e) => r == Broken(e)
  }

  function Prepend<T>(xs: seq<T>, p: Parse<seq<T>>): Parse<seq<T>> {
    match p
    case Ok(vs, rest) => Ok(xs + vs, rest)
    case Fail(e) => Fail(e)
  }

  lemma PrependNil<T>(p: Parse<seq<T>>)
    ensures Prepend([], p) == p
  {
    assert p.Ok? ==> [] + p.value == p.value;
  }

  lemma PrependSnoc<T>(xs: seq<T>, x: T, p: Parse<seq<T>>)
    ensures Prepend(xs, Prepend([x], p)) == Prepend(xs + [x], p)
  {
    assert p.Ok? ==> xs + ([x] + p.value) == xs + [x] + p.value;
  }

  // One step of a loop that reads n items in a row.
  lemma ReadManyStep(lib: Lib, n: nat, s: Bytes)
    ensures ReadMany(lib, 0, s) == Ok([], s)
    ensures n > 0 ==> match Read(lib, s)
      case Ok(v, rest) => ReadMany(lib, n, s) == Prepend([v], ReadMany(lib, n - 1, rest))
      case Fail(e) => ReadMany(lib, n, s) == Fail(e)
  {
    hide ReadTagged;
  }

  lemma ReadPayloadsStep(n: nat, s: Bytes)
    ensures ReadPayloads(0, s) == Ok([], s)
    ensures n > 0 ==> match Wire.ReadPayload(s)
      case Ok(v, rest) => ReadPayloads(n, s) == Prepend([v], ReadPayloads(n - 1, rest))
      case Fail(e) => ReadPayloads(n, s) == Fail(e)
  {
  }

  lemma {:induction false} EmitValuesSnoc(lib: Lib, vs: seq<Value>, v: Value)
    ensures EmitValues(lib, vs + [v]) == EmitValues(lib, vs) + EmitValue(lib, v)
  {
    hide EmitValue;
    if vs == [] {
      assert vs + [v] == [v];
    } else {
      assert (vs + [v])[1..] == vs[1..] + [v];
      EmitValuesSnoc(lib, vs[1..], v);
    }
  }

  lemma EmitValuesPrefix(lib: Lib, vs: seq<Value>, i: nat)
    requires i < |vs|
    ensures EmitValues(lib, vs[..i + 1]) == EmitValues(lib, vs[..i]) + EmitValue(lib, vs[i])
  {
    assert vs[..i + 1] == vs[..i] + [vs[i]];
    EmitValuesSnoc(lib, vs[..i], vs[i]);
  }

  // Appending a frame piece by piece.
  lemma AppendLine(base: Bytes, prefix: byte, body: Bytes)
    ensures base + [prefix] + body + CRLF == base + Line(prefix, body)
  {
  }

  lemma AppendBlob(base: Bytes, data: Bytes)
    ensures base + EmitLen(DOLLAR, |data|) + data + CRLF == base + EmitBlob(data)
  {
    hide EmitLen;
  }

  lemma AppendTwice(base: Bytes, a: Bytes, b: Bytes)
    ensures base + a + b == base + (a + b)
  {
  }

  class BufferClient {
    const lib: Lib
    const stream: Bytes  // everything the peer ever sends on this connection
    var at: nat          // how much of it the reader has consumed
    var written: Bytes   // everything appended to the writer so far

    constructor (lib: Lib, stream: Bytes)
      ensures this.lib == lib && this.stream == stream
      ensures Valid() && Rest() == stream && written == []
    {
      this.lib, this.stream := lib, stream;
      at, written := 0, [];
    }

    ghost predicate Valid()
      reads this
    {
      at <= |stream|
    }

    ghost function Rest(): Bytes
      requires Valid()
      reads this
    {
      stream[at..]
    }

    // ---------- writing ----------

    method WriteLen(prefix: byte, n: int)
      modifies this`written
      ensures written == old(written) + EmitLen(prefix, n)
    {
      hide Line, FormatInt;
      AppendLine(written, prefix, FormatInt(n));
      written := written + [prefix];
      written := written + FormatInt(n);
      written := written + CRLF;
    }

    method WriteString(s: Bytes)
      modifies this`written
      ensures written == old(written) + Emit(lib, Plain(Str(s)))
    {
      hide Line, FormatInt;
      AppendLine(written, PLUS_SIGN, s);
      written := written + [PLUS_SIGN];
      written := written + s;
      written := written + CRLF;
    }

    method WriteByte(b: byte)
      modifies this`written
      ensures written == old(written) + Emit(lib, Plain(Byte(b)))
    {
      hide Line, FormatInt;
      AppendLine(written, AMPERSAND, [b]);
      written := written + [AMPERSAND];
      written := written + [b];
      written := written + CRLF;
    }

    method WriteBytes(b: Bytes)
      modifies this`written
      ensures written == old(written) + Emit(lib, Plain(Blob(b)))
    {
      hide EmitLen, EmitBlob;
      AppendBlob(written, b);
      WriteLen(DOLLAR, |b|);
      written := written + b;
      written := written + CRLF;
    }

    method WriteInt64(n: int)
      modifies this`written
      ensures written == old(written) + Emit(lib, Plain(Int(n)))
    {
      hide Line, FormatInt;
      AppendLine(written, COLON, FormatInt(n));
      written := written + [COLON];
      written := written + FormatInt(n);
      written := written + CRLF;
    }

    method WriteFloat64(text: Bytes)
      modifies this`written
      ensures written == old(written) + Emit(lib, Plain(Float(text)))
    {
      hide Line, FormatInt;
      AppendLine(written, DOT, text);
      written := written + [DOT];
      written := written + text;
      written := written + CRLF;
    }

    method WriteBool(b: bool)
      modifies this`written
      ensures written == old(written) + Emit(lib, Plain(Bool(b)))
    {
      hide Line, FormatInt;
      AppendLine(written, QUESTION, [if b then 49 else 48]);
      written := written + [QUESTION];
      if b {
        written := written + [49];
      } else {
        written := written + [48];
      }
      written := written + CRLF;
    }

    method WriteError(e: Option<Bytes>)
      modifies this`written
      ensures written == old(written) + Emit(lib, Failure(e))
    {
      hide Line, FormatInt;
      AppendLine(written, DASH, if e.Some? then ERR_PREFIX + e.value else ERR_PREFIX);
      written := written + [DASH];
      if e.Some? {
        written := written + (ERR_PREFIX + e.value);
      } else {
        written := written + ERR_PREFIX;
      }
      written := written + CRLF;
    }

    method WriteNull()
      modifies this`written
      ensures written == old(written) + Emit(lib, Plain(Null))
    {
      hide Line, FormatInt;
      AppendLine(written, DOLLAR, NULL_BULK);
      written := written + [DOLLAR];
      written := written + NULL_BULK;
      written := written + CRLF;
    }

    method WriteBulk(data: seq<Bytes>)
      modifies this`written
      ensures written == old(written) + Emit(lib, Bulk(data))
    {
      hide EmitValue, EmitLen;
      WriteLen(STAR, |data|);
      for i := 0 to |data|
        invariant written == old(written) + EmitLen(STAR, |data|) + EmitValues(lib, Blobs(data)[..i])
      {
        EmitValuesPrefix(lib, Blobs(data), i);
        WriteBytes(data[i]);
      }
      assert Blobs(data)[..|data|] == Blobs(data);
      AppendTwice(old(written), EmitLen(STAR, |data|), EmitValues(lib, Blobs(data)));
    }

    method WriteInterface(arg: Value)
      modifies this`written
      ensures written == old(written) + Emit(lib, Plain(arg))
    {
      match arg
      case Str(s) => WriteString(s);
      case Int(n) => WriteInt64(n);
      case Float(text) => WriteFloat64(text);
      case Bool(b) => WriteBool(b);
      case Byte(b) => WriteByte(b);
      case Blob(b) => WriteBytes(b);
      case Null => WriteNull();
      case _ =>
        var buf := lib.sprint(arg);
        WriteBytes(buf);
    }

    method WriteArray(args: seq<Value>)
      modifies this`written
      ensures written == old(written) + Emit(lib, Array(args))
    {
      hide EmitValue, EmitLen;
      WriteLen(STAR, |args|);
      for i := 0 to |args|
        invariant written == old(written) + EmitLen(STAR, |args|) + EmitValues(lib, args[..i])
      {
        EmitValuesPrefix(lib, args, i);
        WriteInterface(args[i]);
      }
      assert args[..|args|] == args;
      AppendTwice(old(written), EmitLen(STAR, |args|), EmitValues(lib, args));
    }

    // None stands for a value json.Marshal rejects.
    method WriteJson(text: Option<Bytes>) returns (ok: bool)
      modifies this`written
      ensures ok <==> text.Some?
      ensures written == old(written) + if ok then Emit(lib, Document(text.value)) else []
    {
      hide Line, EmitBlob;
      if text.None? {
        return false;
      }
      AppendLine(written, TILDE, JSON_TAG);
      AppendTwice(written, Line(TILDE, JSON_TAG), EmitBlob(text.value));
      written := written + [TILDE];
      written := written + JSON_TAG;
      written := written + CRLF;
      WriteBytes(text.value);
      return true;
    }

    // The typed command form: the name upper-cased as bytes, then the arguments.
    method WriteCommand(cmd: Bytes, args: seq<Value>)
      modifies this`written
      ensures written == old(written) + Emit(lib, Array([Blob(Upper(cmd))] + args))
    {
      var argsmod := new Value[|args| + 1](_ => Null);
      argsmod[0] := Blob(Upper(cmd));
      for i := 0 to |args|
        invariant argsmod[0] == Blob(Upper(cmd))
        invariant forall j :: 0 <= j < i ==> argsmod[j + 1] == args[j]
        invariant written == old(written)
      {
        argsmod[i + 1] := args[i];
      }
      assert argsmod[..] == [Blob(Upper(cmd))] + args;
      WriteArray(argsmod[..]);
    }

    // ---------- reading ----------

    method ReadSlice() returns (r: Outcome<Bytes>)
      requires Valid()
      modifies this`at
      ensures Valid() && Follows(r, Rest(), Wire.ReadSlice(old(Rest())))
    {
      match Wire.ReadSlice(stream[at..])
      case Ok(packet, rest) =>
        at := at + |packet|;
        r := Got(packet);
      case Fail(e) =>
        r := Broken(e);
    }

    method ReadLine() returns (r: Outcome<Bytes>)
      requires Valid()
      modifies this`at
      ensures Valid() && Follows(r, Rest(), Wire.ReadLine(old(Rest())))
    {
      var p := ReadSlice();
      if p.Broken? {
        return Broken(p.error);
      }
      var packet := p.value;
      var i := |packet| - 2;
      if i < 0 || packet[i] != CR {
        return Broken(LineFormat);
      }
      return Got(packet[..i]);
    }

    method ReadLineInvariant() returns (r: Outcome<Bytes>)
      requires Valid()
      modifies this`at
      ensures Valid() && Follows(r, Rest(), Wire.ReadLineInvariant(old(Rest())))
    {
      var p := ReadSlice();
      if p.Broken? {
        return Broken(p.error);
      }
      var packet := p.value;
      var i := |packet| - 2;
      if i < 0 {
        return Broken(LineFormat);
      }
      if packet[i] == CR || packet[i] == SPACE {
        return Got(packet[..i]);
      } else {
        return Got(packet[..i + 1]);
      }
    }

    // io.ReadFull of n bytes and the empty line after them.
    method ReadBlock(n: nat) returns (r: Outcome<Bytes>)
      requires Valid()
      modifies this`at
      ensures Valid() && Follows(r, Rest(), Wire.ReadBlock(n, old(Rest())))
    {
      if |stream| - at < n {
        return Broken(if at == |stream| then Eof else UnexpectedEof);
      }
      var buffer := stream[at..at + n];
      assert buffer == Rest()[..n];
      at := at + n;
      assert Rest() == old(Rest())[n..];
      var line := ReadLine();
      if line.Broken? {
        return Broken(line.error);
      } else if |line.value| != 0 {
        return Broken(BadBulk);
      }
      return Got(buffer);
    }

    method ReadPayload() returns (r: Outcome<Bytes>)
      requires Valid()
      modifies this`at
      ensures Valid() && Follows(r, Rest(), Wire.ReadPayload(old(Rest())))
    {
      var p := ReadLine();
      if p.Broken? {
        return Broken(p.error);
      }
      var line := p.value;
      if |line| < 2 || line[0] != DOLLAR {
        return Broken(ReadRequest);
      }
      match ParseInt(line[1..])
      case Number(n) =>
        if n == -1 {
          return Got([]);
        } else if n < 0 {
          return Broken(Crash);
        } else {
          r := ReadBlock(n);
        }
      case _ =>
        return Broken(BadInt);
    }

    method ReadBulkPayload() returns (r: Outcome<seq<Bytes>>)
      requires Valid()
      modifies this`at
      ensures Valid() && Follows(r, Rest(), ReadBulk(old(Rest())))
    {
      var p := ReadLine();
      if p.Broken? {
        return Broken(p.error);
      }
      var line := p.value;
      if |line| < 2 || line[0] != STAR {
        return Broken(ReadRequest);
      }
      var count := ParseInt(line[1..]);
      if !count.Number? {
        return Broken(BadInt);
      }
      var n := count.n;
      if n < 0 {
        return Broken(Crash);
      }
      r := ReadPayloadItems(n);
    }

    // The loop of ReadBulkPayload that fills a slice of n payloads.
    method ReadPayloadItems(n: nat) returns (r: Outcome<seq<Bytes>>)
      requires Valid()
      modifies this`at
      ensures Valid() && Follows(r, Rest(), ReadPayloads(n, old(Rest())))
    {
      hide Wire.ReadPayload, ReadPayloads;
      ghost var start := Rest();
      var a := new Bytes[n](_ => []);
      PrependNil(ReadPayloads(n, start));
      for i := 0 to n
        invariant Valid()
        invariant ReadPayloads(n, start) == Prepend(a[..i], ReadPayloads(n - i, Rest()))
      {
        ReadPayloadsStep(n - i, Rest());
        var v := ReadPayload();
        if v.Broken? {
          return Broken(v.error);
        }
        ghost var before := a[..i];
        PrependSnoc(before, v.value, ReadPayloads(n - i - 1, Rest()));
        a[i] := v.value;
        assert a[..i + 1] == before + [v.value];
      }
      ReadPayloadsStep(0, Rest());
      assert a[..n] + [] == a[..];
      return Got(a[..]);
    }

    method ReadInterface() returns (r: Outcome<Value>)
      requires Valid()
      modifies this`at
      ensures Valid() && Follows(r, Rest(), Read(lib, old(Rest())))
      decreases |stream| - at, 0
    {
      var p := ReadLine();
      if p.Broken? {
        return Broken(p.error);
      }
      var line := p.value;
      if |line| < 2 {
        return Broken(ReadRequest);
      }
      var body := line[1..];
      if line[0] == DOLLAR {
        var count := ParseInt(body);
        if !count.Number? {
          return Broken(BadInt);
        } else if count.n == -1 {
          return Got(Null);
        } else if count.n < 0 {
          return Broken(Crash);
        }
        var block := ReadBlock(count.n);
        return if block.Broken? then Broken(block.error) else Got(Blob(block.value));
      } else if line[0] == STAR {
        var count := ParseInt(body);
        if !count.Number? {
          return Broken(BadInt);
        } else if count.n < 0 {
          return Broken(Crash);
        }
        var items := ReadItems(count.n);
        return if items.Broken? then Broken(items.error) else Got(Arr(items.value));
      } else if line[0] == AMPERSAND {
        return Got(Byte(body[0]));
      } else if line[0] == PLUS_SIGN {
        return Got(Str(body));
      } else if line[0] == COLON {
        var n := ParseInt(body);
        return if n.Number? then Got(Int(n.n)) else Broken(BadInt);
      } else if line[0] == DOT {
        return if lib.floatOk(body) then Got(Float(body)) else Broken(BadFloat);
      } else if line[0] == QUESTION {
        return Got(Bool(body[0] == 49));
      } else if line[0] == DASH {
        return Got(Error(body));
      } else if line[0] == TILDE {
        var inner := ReadInterface();
        if inner.Broken? {
          return Broken(inner.error);
        } else if body != JSON_TAG {
          return Broken(ReadRequest);
        } else if !inner.value.Blob? {
          return Broken(Crash);
        }
        return if lib.jsonOk(inner.value.data) then Got(Json(inner.value.data)) else Broken(BadJson);
      }
      return Broken(ReadRequest);
    }

    // The loop of ReadInterface that fills a slice of n values.
    method ReadItems(n: nat) returns (r: Outcome<seq<Value>>)
      requires Valid()
      modifies this`at
      ensures Valid() && Follows(r, Rest(), ReadMany(lib, n, old(Rest())))
      decreases |stream| - at, 1
    {
      hide ReadMany, Read;
      var a := new Value[n](_ => Null);
      ghost var start := Rest();
      PrependNil(ReadMany(lib, n, start));
      for i := 0 to n
        invariant Valid() && at >= old(at)
        invariant ReadMany(lib, n, start) == Prepend(a[..i], ReadMany(lib, n - i, Rest()))
      {
        ReadManyStep(lib, n - i, Rest());
        var v := ReadInterface();
        if v.Broken? {
          return Broken(v.error);
        }
        ghost var before := a[..i];
        PrependSnoc(before, v.value, ReadMany(lib, n - i - 1, Rest()));
        a[i] := v.value;
        assert a[..i + 1] == before + [v.value];
      }
      ReadManyStep(lib, 0, Rest());
      assert a[..n] + [] == a[..];
      return Got(a[..]);
    }
  }
}
