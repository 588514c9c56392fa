// Commands on the wire: the redis form, the line form, and the table of handlers both
// protocols dispatch through.

module RedisClient {
  import opened ByteStrings
  import opened Decimal
  import opened Wire
  import opened BufferClients
  import opened RoundTrip

  // What a command carries, once decoded: its name in upper case, then its arguments.
  function Parts(cmd: Bytes, texts: seq<Bytes>): seq<Bytes> {
    [Upper(cmd)] + texts
  }

  // Sizes a Go slice can have.
  predicate Sized(parts: seq<Bytes>) {
    |parts| <= MAX_INT64 && forall p <- parts :: |p| <= MAX_INT64
  }

  method WriteCommand(client: BufferClient, cmd: Bytes, args: seq<Bytes>)
    modifies client`written
    ensures client.written == old(client.written) + Emit(client.lib, Bulk(Parts(cmd, args)))
  {
    hide EmitValue, EmitLen;
    ghost var parts := Parts(cmd, args);
    client.WriteLen(STAR, |args| + 1);
    EmitValuesPrefix(client.lib, Blobs(parts), 0);
    client.WriteBytes(Upper(cmd));
    for i := 0 to |args|
      invariant client.written
                == old(client.written) + EmitLen(STAR, |parts|) + EmitValues(client.lib, Blobs(parts)[..i + 1])
    {
      EmitValuesPrefix(client.lib, Blobs(parts), i + 1);
      client.WriteBytes(args[i]);
    }
    assert Blobs(parts)[..|args| + 1] == Blobs(parts);
    AppendTwice(old(client.written), EmitLen(STAR, |parts|), EmitValues(client.lib, Blobs(parts)));
  }

  lemma {:induction false} PayloadsBack(lib: Lib, parts: seq<Bytes>, t: Bytes)
    requires Sized(parts)
    ensures ReadPayloads(|parts|, EmitValues(lib, Blobs(parts)) + t) == Ok(parts, t)
  {
    hide EmitBlob, Wire.ReadPayload, ReadPayloads;
    ReadPayloadsStep(|parts|, EmitValues(lib, Blobs(parts)) + t);
    if parts == [] {
      assert EmitValues(lib, Blobs(parts)) + t == t;
    } else {
      var first, others := parts[0], EmitValues(lib, Blobs(parts[1..])) + t;
      assert Blobs(parts)[1..] == Blobs(parts[1..]);
      assert EmitValues(lib, Blobs(parts)) + t == EmitBlob(first) + others;
      PayloadBack(first, others);
      PayloadsBack(lib, parts[1..], t);
      assert [first] + parts[1..] == parts;
    }
  }

  lemma PayloadBack(data: Bytes, t: Bytes)
    requires |data| <= MAX_INT64
    ensures Wire.ReadPayload(EmitBlob(data) + t) == Ok(data, t)
  {
    hide Wire.ReadLine, ReadBlock, ParseInt, EmitLen, FormatInt;
    LenBack(DOLLAR, |data|, data + CRLF + t);
    BlockBack(data, t);
    assert EmitBlob(data) + t == EmitLen(DOLLAR, |data|) + (data + CRLF + t);
  }

  // What the line that opens a payload, or a list of them, is refused for; a payload that is
  // null reads as an empty one.
  lemma OpeningLines(tag: char, body: Bytes, t: Bytes)
    requires tag as int < 128 && tag != '\n' && LineBody(body)
    ensures var r, n := Wire.ReadPayload(Ascii([tag]) + body + Ascii("\r\n") + t), ParseInt(body);
            && (tag != '$' ==> r == Fail(ReadRequest))
            && (tag == '$' && !n.Number? ==> r == Fail(BadInt))
            && (tag == '$' && n == Number(-1) ==> r == Ok([], t))
            && (tag == '$' && n.Number? && n.n < -1 ==> r == Fail(Crash))
    ensures var r, n := ReadBulk(Ascii([tag]) + body + Ascii("\r\n") + t), ParseInt(body);
            && (tag != '*' ==> r == Fail(ReadRequest))
            && (tag == '*' && !n.Number? ==> r == Fail(BadInt))
            && (tag == '*' && n.Number? && n.n < 0 ==> r == Fail(Crash))
  {
    hide Wire.ReadLine, ParseInt, ReadBlock, ReadPayloads;
    var b := AsciiByte(tag);
    assert Ascii([tag]) == [b] && Ascii("\r\n") == CRLF;
    assert Ascii([tag]) + body + Ascii("\r\n") + t == Line(b, body) + t;
    LineBack(b, body, t);
    assert ([b] + body)[1..] == body;
  }

  // A command survives the redis form whatever bytes its arguments hold.
  lemma RedisCommandBack(lib: Lib, cmd: Bytes, texts: seq<Bytes>, t: Bytes)
    requires Sized(Parts(cmd, texts))
    ensures ReadBulk(Emit(lib, Bulk(Parts(cmd, texts))) + t) == Ok(Parts(cmd, texts), t)
  {
    hide EmitValue, EmitValues, ReadPayloads;
    var parts := Parts(cmd, texts);
    var payloads := EmitValues(lib, Blobs(parts));
    LenBack(STAR, |parts|, payloads + t);
    PayloadsBack(lib, parts, t);
    assert Emit(lib, Bulk(parts)) + t == EmitLen(STAR, |parts|) + (payloads + t);
  }
}

module LineClient {
  import opened ByteStrings
  import opened Wire
  import opened BufferClients
  import opened RedisClient

  // bytes.Split(line, " ")
  function Split(s: Bytes): (r: seq<Bytes>)
    ensures r != []
  {
    var i := IndexOf(s, SPACE);
    if i == |s| then [s] else [s[..i]] + Split(s[i + 1..])
  }

  function Join(parts: seq<Bytes>): Bytes
    requires parts != []
  {
    if |parts| == 1 then parts[0] else parts[0] + [SPACE] + Join(parts[1..])
  }

  function LineCommand(cmd: Bytes, texts: seq<Bytes>): Bytes {
    Join(Parts(cmd, texts)) + CRLF
  }

  // readBulk
  function ReadWords(s: Bytes): Parse<seq<Bytes>> {
    match Wire.ReadLineInvariant(s)
    case Fail(e) => Fail(e)
    case Ok(line, rest) => if |line| < 2 then Fail(ReadRequest) else Ok(Split(line), rest)
  }

  method ReadBulkLine(client: BufferClient) returns (r: Outcome<seq<Bytes>>)
    requires client.Valid()
    modifies client`at
    ensures client.Valid() && Follows(r, client.Rest(), ReadWords(old(client.Rest())))
  {
    var line := client.ReadLineInvariant();
    if line.Broken? {
      return Broken(line.error);
    } else if |line.value| < 2 {
      return Broken(ReadRequest);
    }
    return Got(Split(line.value));
  }

  method WriteCommand(client: BufferClient, cmd: Bytes, args: seq<Bytes>)
    modifies client`written
    ensures client.written == old(client.written) + LineCommand(cmd, args)
  {
    var buffer := Upper(cmd);
    for i := 0 to |args|
      invariant client.written == old(client.written)
      invariant buffer == Join(Parts(cmd, args[..i]))
    {
      JoinSnoc(Parts(cmd, args[..i]), args[i]);
      assert Parts(cmd, args[..i + 1]) == Parts(cmd, args[..i]) + [args[i]];
      buffer := buffer + [SPACE];
      buffer := buffer + args[i];
    }
    assert args[..|args|] == args;
    client.written := client.written + buffer;
    client.written := client.written + CRLF;
    assert client.written == old(client.written) + (buffer + CRLF);
  }

  lemma {:induction false} JoinSnoc(parts: seq<Bytes>, last: Bytes)
    requires parts != []
    ensures Join(parts + [last]) == Join(parts) + [SPACE] + last
  {
    if |parts| > 1 {
      assert (parts + [last])[1..] == parts[1..] + [last];
      JoinSnoc(parts[1..], last);
    }
  }

  predicate Spaceless(parts: seq<Bytes>) {
    forall p <- parts :: SPACE !in p
  }

  // Joining undoes splitting, on every line.
  lemma {:induction false} JoinSplit(s: Bytes)
    ensures Join(Split(s)) == s && Spaceless(Split(s))
  {
    var i := IndexOf(s, SPACE);
    if i < |s| {
      JoinSplit(s[i + 1..]);
      assert Split(s)[1..] == Split(s[i + 1..]);
      assert s == s[..i] + [SPACE] + s[i + 1..];
    }
  }

  lemma SplitWord(word: Bytes, rest: Bytes)
    requires SPACE !in word
    ensures Split(word) == [word]
    ensures Split(word + [SPACE] + rest) == [word] + Split(rest)
  {
    var s := word + [SPACE] + rest;
    IndexOfIs(word, SPACE, |word|);
    IndexOfIs(s, SPACE, |word|);
    assert s[..|word|] == word && s[|word| + 1..] == rest;
  }

  lemma {:induction false} SpacelessBack(parts: seq<Bytes>)
    requires parts != [] && Spaceless(parts)
    ensures Split(Join(parts)) == parts
  {
    hide Split;
    var others := parts[1..];
    assert parts[0] in parts && parts == [parts[0]] + others;
    if |parts| > 1 {
      SplitWord(parts[0], Join(others));
      SpacelessBack(others);
    } else {
      SplitWord(parts[0], []);
    }
  }

  // Splitting undoes joining exactly when no word contains the separator.
  lemma SplitJoin(parts: seq<Bytes>)
    requires parts != []
    ensures Split(Join(parts)) == parts <==> Spaceless(parts)
  {
    hide Split, Join;
    JoinSplit(Join(parts));
    if Spaceless(parts) {
      SpacelessBack(parts);
    }
  }

  // The commands the line form carries faithfully.
  predicate LineSafe(parts: seq<Bytes>)
    requires parts != []
  {
    && Spaceless(parts)
    && LF !in Join(parts)
    && 2 <= |Join(parts)| <= LINE_BUFFER - 2
  }

  lemma InvariantLineBack(line: Bytes, t: Bytes)
    ensures LF !in line && |line| + 2 <= LINE_BUFFER ==> Wire.ReadLineInvariant(line + CRLF + t) == Ok(line, t)
    ensures LF !in line && |line| + 2 > LINE_BUFFER ==> Wire.ReadLineInvariant(line + CRLF + t).Fail?
    ensures var r := Wire.ReadLineInvariant(line + CRLF + t); LF in line && r.Ok? ==> r.value != line
  {
    var s := line + CRLF + t;
    if LF !in line {
      IndexOfIs(s, LF, |line| + 1);
      assert s[..|line| + 2][..|line|] == line && s[|line| + 2..] == t;
    } else {
      var i := IndexOf(line, LF);
      IndexOfIs(s, LF, i);
    }
  }

  // How a line may end: a line feed alone, or after one carriage return or one space.
  lemma LineEndings(line: Bytes, t: Bytes)
    requires LF !in line && |line| < LINE_BUFFER
    ensures var r := Wire.ReadLineInvariant(line + Ascii("\n") + t);
            if line == [] then r == Fail(LineFormat)
            else if [line[|line| - 1]] in {Ascii("\r"), Ascii(" ")} then r == Ok(line[..|line| - 1], t)
            else r == Ok(line, t)
  {
    var s := line + Ascii("\n") + t;
    assert Ascii("\n") == [LF] && Ascii("\r") == [CR] && Ascii(" ") == [SPACE];
    IndexOfIs(s, LF, |line|);
    assert s[..|line| + 1][..|line|] == line && s[|line| + 1..] == t;
    assert line != [] ==> s[..|line| + 1][..|line| - 1] == line[..|line| - 1];
  }

  lemma LineCommandBack(cmd: Bytes, texts: seq<Bytes>, t: Bytes)
    ensures ReadWords(LineCommand(cmd, texts) + t) == Ok(Parts(cmd, texts), t) <==> LineSafe(Parts(cmd, texts))
  {
    var parts := Parts(cmd, texts);
    var line := Join(parts);
    InvariantLineBack(line, t);
    SplitJoin(parts);
    JoinSplit(line);
    assert LineCommand(cmd, texts) + t == line + CRLF + t;
    var r := Wire.ReadLineInvariant(line + CRLF + t);
    if r.Ok? {
      JoinSplit(r.value);
    }
  }

  // A command the line form carries reaches the server as the same array either way.
  lemma ProtocolsAgree(lib: Lib, cmd: Bytes, texts: seq<Bytes>, t: Bytes)
    requires LineSafe(Parts(cmd, texts)) && Sized(Parts(cmd, texts))
    ensures ReadWords(LineCommand(cmd, texts) + t) == ReadBulk(Emit(lib, Bulk(Parts(cmd, texts))) + t)
  {
    LineCommandBack(cmd, texts, t);
    RedisCommandBack(lib, cmd, texts, t);
  }
}

module Context {
  import opened ByteStrings

  datatype Command = Command(name: Bytes, description: Bytes, usage: Bytes, fireForget: bool)

  // The table that results from a list of registrations, oldest first.
  function Table<H>(registrations: seq<(Bytes, H)>): map<Bytes, H> {
    if registrations == [] then map[]
    else
      var n := |registrations| - 1;
      Table(registrations[..n])[Upper(registrations[n].0) := registrations[n].1]
  }

  class BroadcastContext<H(==)> {
    var commands: map<Bytes, H>
    var commandHelp: map<Bytes, Command>
    ghost var registered: seq<(Bytes, H)>

    ghost predicate Valid()
      reads this
    {
      commands == Table(registered)
    }

    constructor ()
      ensures Valid() && registered == [] && commandHelp == map[]
    {
      commands, commandHelp := map[], map[];
      registered := [];
    }

    method RegisterCommand(cmd: Command, handler: H)
      requires Valid()
      modifies this
      ensures Valid() && registered == old(registered) + [(cmd.name, handler)]
      ensures commandHelp == old(commandHelp)[Upper(cmd.name) := cmd]
    {
      Register(cmd.name, handler);
      commandHelp := commandHelp[Upper(cmd.name) := cmd];
    }

    method Register(cmd: Bytes, handler: H)
      requires Valid()
      modifies this
      ensures Valid() && registered == old(registered) + [(cmd, handler)]
      ensures commandHelp == old(commandHelp)
    {
      commands := commands[Upper(cmd) := handler];
      registered := registered + [(cmd, handler)];
      assert registered[..|registered| - 1] == old(registered);
    }

    method RegisterHelp(cmd: Command)
      requires Valid()
      modifies this`commandHelp
      ensures commandHelp == old(commandHelp)[Upper(cmd.name) := cmd]
    {
      commandHelp := commandHelp[Upper(cmd.name) := cmd];
    }
  }

  lemma {:induction false} LastUpperWins<H>(registrations: seq<(Bytes, H)>, name: Bytes)
    ensures name in Table(registrations) <==> exists r <- registrations :: Upper(r.0) == name
    ensures forall i :: 0 <= i < |registrations| && Upper(registrations[i].0) == name
                        && (forall j :: i < j < |registrations| ==> Upper(registrations[j].0) != name)
              ==> Table(registrations)[name] == registrations[i].1
  {
    if registrations != [] {
      var n := |registrations| - 1;
      LastUpperWins(registrations[..n], name);
      assert registrations == registrations[..n] + [registrations[n]];
    }
  }

  // Looking up a name in any mixture of cases finds the handler registered last under
  // that name, ignoring case, and finds nothing when there is none.
  lemma LastRegistrationWins<H>(registrations: seq<(Bytes, H)>, name: Bytes)
    ensures Upper(name) in Table(registrations)
            <==> exists r <- registrations :: IgnoringCase(r.0, name)
    ensures forall i :: 0 <= i < |registrations| && IgnoringCase(registrations[i].0, name)
                        && (forall j :: i < j < |registrations| ==> !IgnoringCase(registrations[j].0, name))
              ==> Table(registrations)[Upper(name)] == registrations[i].1
  {
    hide Upper, IgnoringCase, Table;
    LastUpperWins(registrations, Upper(name));
    forall r | r in registrations
      ensures Upper(r.0) == Upper(name) <==> IgnoringCase(r.0, name)
    {
      UpperExactly(r.0, name);
    }
    forall i | 0 <= i < |registrations|
      ensures Upper(registrations[i].0) == Upper(name) <==> IgnoringCase(registrations[i].0, name)
    {
      UpperExactly(registrations[i].0, name);
    }
  }
}
