// The typed wire format of server/client.go as pure functions: what each Write*
// operation appends to the stream, and what each Read* operation takes off it.

module Wire {
  import opened ByteStrings
  import opened Decimal

  // A dynamically typed value (Go's interface{} restricted to what travels on the
  // wire). A float and a decoded JSON object are represented by their texts.
  datatype Value =
    | Null
    | Int(n: int)
    | Str(s: Bytes)
    | Byte(b: byte)
    | Blob(data: Bytes)
    | Bool(flag: bool)
    | Float(text: Bytes)
    | Error(message: Bytes)
    | Arr(elems: seq<Value>)
    | Json(document: Bytes)

  // Library code the format depends on: which texts strconv.ParseFloat and
  // json.Unmarshal accept, how fmt.Fprint prints a value, how strconv.Quote quotes.
  datatype Lib = Lib(
    floatOk: Bytes -> bool,
    jsonOk: Bytes -> bool,
    sprint: Value -> Bytes,
    quote: Bytes -> Bytes
  )

  // One use of a Write* operation that produces a complete frame.
  datatype Message =
    | Plain(v: Value)                 // WriteInterface
    | Failure(reason: Option<Bytes>)  // WriteError, of an error or of nil
    | Array(items: seq<Value>)        // WriteArray
    | Document(text: Bytes)           // WriteJson
    | Bulk(parts: seq<Bytes>)         // WriteBulk

  const DOLLAR: byte := 36
  const AMPERSAND: byte := 38
  const STAR: byte := 42
  const PLUS_SIGN: byte := 43
  const DASH: byte := 45
  const DOT: byte := 46
  const COLON: byte := 58
  const QUESTION: byte := 63
  const TILDE: byte := 126
  const JSON_TAG: Bytes := [106, 115, 111, 110]      // json
  const ERR_PREFIX: Bytes := [69, 82, 82, 32]        // "ERR "
  const NULL_BULK: Bytes := [45, 49]                 // -1

  // ---------- writing ----------

  function Line(prefix: byte, body: Bytes): Bytes {
    [prefix] + body + CRLF
  }

  function EmitLen(prefix: byte, n: int): Bytes {
    Line(prefix, FormatInt(n))
  }

  function EmitBlob(data: Bytes): Bytes {
    EmitLen(DOLLAR, |data|) + data + CRLF
  }

  function EmitValue(lib: Lib, v: Value): Bytes {
    match v
    case Null => Line(DOLLAR, NULL_BULK)
    case Int(n) => Line(COLON, FormatInt(n))
    case Str(s) => Line(PLUS_SIGN, s)
    case Byte(b) => Line(AMPERSAND, [b])
    case Blob(data) => EmitBlob(data)
    case Bool(flag) => Line(QUESTION, [if flag then 49 else 48])
    case Float(text) => Line(DOT, text)
    case _ => EmitBlob(lib.sprint(v))
  }

  function EmitValues(lib: Lib, vs: seq<Value>): Bytes {
    if vs == [] then [] else EmitValue(lib, vs[0]) + EmitValues(lib, vs[1..])
  }

  function Blobs(parts: seq<Bytes>): (r: seq<Value>)
    ensures |r| == |parts| && forall i :: 0 <= i < |parts| ==> r[i] == Blob(parts[i])
  {
    seq(|parts|, i requires 0 <= i < |parts| => Blob(parts[i]))
  }

  function Emit(lib: Lib, m: Message): Bytes {
    match m
    case Plain(v) => EmitValue(lib, v)
    case Failure(None) => Line(DASH, ERR_PREFIX)
    case Failure(Some(reason)) => Line(DASH, ERR_PREFIX + reason)
    case Array(items) => EmitLen(STAR, |items|) + EmitValues(lib, items)
    case Document(text) => Line(TILDE, JSON_TAG) + EmitBlob(text)
    case Bulk(parts) => EmitLen(STAR, |parts|) + EmitValues(lib, Blobs(parts))
  }

  function EmitAll(lib: Lib, ms: seq<Message>): Bytes {
    if ms == [] then [] else Emit(lib, ms[0]) + EmitAll(lib, ms[1..])
  }

  // ---------- what a written message means to its reader ----------

  // Values without a prefix of their own are printed and sent as plain bytes.
  function Flatten(lib: Lib, v: Value): Value {
    if v.Error? || v.Arr? || v.Json? then Blob(lib.sprint(v)) else v
  }

  function FlattenAll(lib: Lib, vs: seq<Value>): (r: seq<Value>)
    ensures |r| == |vs| && forall i :: 0 <= i < |vs| ==> r[i] == Flatten(lib, vs[i])
  {
    seq(|vs|, i requires 0 <= i < |vs| => Flatten(lib, vs[i]))
  }

  function Meaning(lib: Lib, m: Message): Value {
    match m
    case Plain(v) => Flatten(lib, v)
    case Failure(None) => Error(ERR_PREFIX)
    case Failure(Some(reason)) => Error(ERR_PREFIX + reason)
    case Array(items) => Arr(FlattenAll(lib, items))
    case Document(text) => Json(text)
    case Bulk(parts) => Arr(Blobs(parts))
  }

  function Meanings(lib: Lib, ms: seq<Message>): (r: seq<Value>)
    ensures |r| == |ms| && forall i :: 0 <= i < |ms| ==> r[i] == Meaning(lib, ms[i])
  {
    seq(|ms|, i requires 0 <= i < |ms| => Meaning(lib, ms[i]))
  }

  // ---------- reading ----------

  datatype ReadError =
    | Eof | UnexpectedEof      // the stream ended
    | BufferFull               // bufio.ErrBufferFull: no line feed within the buffer
    | LineFormat | ReadRequest | BadBulk
    | BadInt | BadFloat | BadJson
    | Crash                    // a panic: negative allocation or failed type assertion

  datatype Parse<+T> = Ok(value: T, rest: Bytes) | Fail(error: ReadError)

  const LINE_BUFFER: nat := 128

  // bufio.Reader.ReadSlice('\n') with a 128-byte buffer.
  function ReadSlice(s: Bytes): (r: Parse<Bytes>)
    ensures r.Ok? ==> 0 < |r.value| <= LINE_BUFFER && |s| == |r.value| + |r.rest|
  {
    var i := IndexOf(s, LF);
    if i < |s| && i < LINE_BUFFER then Ok(s[..i + 1], s[i + 1..])
    else if |s| >= LINE_BUFFER then Fail(BufferFull)
    else Fail(Eof)
  }

  function ReadLine(s: Bytes): (r: Parse<Bytes>)
    ensures r.Ok? ==> |r.value| + 2 <= LINE_BUFFER && |s| == |r.value| + 2 + |r.rest|
  {
    match ReadSlice(s)
    case Fail(e) => Fail(e)
    case Ok(packet, rest) =>
      if |packet| < 2 || packet[|packet| - 2] != CR then Fail(LineFormat)
      else Ok(packet[..|packet| - 2], rest)
  }

  // ReadLineInvariant: also accepts a bare line feed, or a space before it.
  function ReadLineInvariant(s: Bytes): (r: Parse<Bytes>)
    ensures r.Ok? ==> |r.rest| < |s|
  {
    match ReadSlice(s)
    case Fail(e) => Fail(e)
    case Ok(packet, rest) =>
      var i := |packet| - 2;
      if i < 0 then Fail(LineFormat)
      else if packet[i] == CR || packet[i] == SPACE then Ok(packet[..i], rest)
      else Ok(packet[..i + 1], rest)
  }

  // The payload of a bulk string once its length is known: io.ReadFull, then an
  // empty line.
  function ReadBlock(n: nat, s: Bytes): (r: Parse<Bytes>)
    ensures r.Ok? ==> |r.value| == n && |s| == n + 2 + |r.rest|
  {
    if |s| < n then Fail(if s == [] then Eof else UnexpectedEof)
    else match ReadLine(s[n..])
      case Fail(e) => Fail(e)
      case Ok(line, rest) =>
        if line == [] then Ok(s[..n], rest) else Fail(BadBulk)
  }

  // ReadInterface.
  function Read(lib: Lib, s: Bytes): (r: Parse<Value>)
    ensures r.Ok? ==> |r.rest| < |s|
    decreases |s|, 0
  {
    match ReadLine(s)
    case Fail(e) => Fail(e)
    case Ok(line, rest) =>
      if |line| < 2 then Fail(ReadRequest) else ReadTagged(lib, line[0], line[1..], rest)
  }

  // What the first byte of the line announces.
  function ReadTagged(lib: Lib, tag: byte, body: Bytes, s: Bytes): (r: Parse<Value>)
    requires body != []
    ensures r.Ok? ==> |r.rest| <= |s|
    decreases |s|, 2
  {
    if tag == DOLLAR then
      match ParseInt(body)
      case Number(n) =>
        if n == -1 then Ok(Null, s)
        else if n < 0 then Fail(Crash)
        else (match ReadBlock(n, s)
              case Fail(e) => Fail(e)
              case Ok(data, rest) => Ok(Blob(data), rest))
      case _ => Fail(BadInt)
    else if tag == STAR then
      match ParseInt(body)
      case Number(n) =>
        if n < 0 then Fail(Crash)
        else (match ReadMany(lib, n, s)
              case Fail(e) => Fail(e)
              case Ok(vs, rest) => Ok(Arr(vs), rest))
      case _ => Fail(BadInt)
    else if tag == AMPERSAND then Ok(Byte(body[0]), s)
    else if tag == PLUS_SIGN then Ok(Str(body), s)
    else if tag == COLON then
      match ParseInt(body)
      case Number(n) => Ok(Int(n), s)
      case _ => Fail(BadInt)
    else if tag == DOT then
      if lib.floatOk(body) then Ok(Float(body), s) else Fail(BadFloat)
    else if tag == QUESTION then Ok(Bool(body[0] == 49), s)
    else if tag == DASH then Ok(Error(body), s)
    else if tag == TILDE then
      match Read(lib, s)
      case Fail(e) => Fail(e)
      case Ok(v, rest) =>
        if body != JSON_TAG then Fail(ReadRequest)
        else if !v.Blob? then Fail(Crash)
        else if lib.jsonOk(v.data) then Ok(Json(v.data), rest) else Fail(BadJson)
    else Fail(ReadRequest)
  }

  // n values in a row.
  function ReadMany(lib: Lib, n: nat, s: Bytes): (r: Parse<seq<Value>>)
    ensures r.Ok? ==> |r.value| == n && |r.rest| <= |s|
    decreases |s|, 1
  {
    if n == 0 then Ok([], s)
    else match Read(lib, s)
      case Fail(e) => Fail(e)
      case Ok(v, rest) =>
        match ReadMany(lib, n - 1, rest)
        case Fail(e) => Fail(e)
        case Ok(vs, rest') => Ok([v] + vs, rest')
  }

  // ReadPayload; a null bulk string is Go's nil slice, which no caller tells apart
  // from an empty one.
  function ReadPayload(s: Bytes): (r: Parse<Bytes>)
    ensures r.Ok? ==> |r.rest| < |s|
  {
    match ReadLine(s)
    case Fail(e) => Fail(e)
    case Ok(line, rest) =>
      if |line| < 2 || line[0] != DOLLAR then Fail(ReadRequest)
      else match ParseInt(line[1..])
        case Number(n) =>
          if n == -1 then Ok([], rest)
          else if n < 0 then Fail(Crash)
          else ReadBlock(n, rest)
        case _ => Fail(BadInt)
  }

  function ReadPayloads(n: nat, s: Bytes): (r: Parse<seq<Bytes>>)
    ensures r.Ok? ==> |r.value| == n && |r.rest| <= |s|
    decreases |s|
  {
    if n == 0 then Ok([], s)
    else match ReadPayload(s)
      case Fail(e) => Fail(e)
      case Ok(p, rest) =>
        match ReadPayloads(n - 1, rest)
        case Fail(e) => Fail(e)
        case Ok(ps, rest') => Ok([p] + ps, rest')
  }

  // ReadBulkPayload.
  function ReadBulk(s: Bytes): (r: Parse<seq<Bytes>>)
    ensures r.Ok? ==> |r.rest| < |s|
  {
    match ReadLine(s)
    case Fail(e) => Fail(e)
    case Ok(line, rest) =>
      if |line| < 2 || line[0] != STAR then Fail(ReadRequest)
      else match ParseInt(line[1..])
        case Number(n) => if n < 0 then Fail(Crash) else ReadPayloads(n, rest)
        case _ => Fail(BadInt)
  }
}
