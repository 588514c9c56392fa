// End to end: a client that writes any list of commands ahead and then reads gets
// back exactly the replies of the sequential machine, in order.

module Pipeline {
  import opened ByteStrings
  import opened Wire
  import opened BufferClients
  import opened RoundTrip
  import opened StatsMachine
  import opened StatsBackends
  import opened StatsReplies
  import opened ProtocolServers
  import RedisClient
  import StatsCommands

  datatype Command = Command(name: Bytes, texts: seq<Bytes>)

  function Parts(c: Command): seq<Bytes> {
    RedisClient.Parts(c.name, c.texts)
  }

  function Encode(lib: Lib, p: Protocol, c: Command): Bytes {
    match p
    case Redis => Emit(lib, Bulk(Parts(c)))
    case LineText => LineClient.LineCommand(c.name, c.texts)
  }

  function Stream(lib: Lib, p: Protocol, cs: seq<Command>): Bytes {
    if cs == [] then [] else Encode(lib, p, cs[0]) + Stream(lib, p, cs[1..])
  }

  function Written(cs: seq<Command>): (r: seq<Request>)
    ensures |r| == |cs| && forall i :: 0 <= i < |cs| ==> r[i] == Parts(cs[i])
  {
    seq(|cs|, i requires 0 <= i < |cs| => Parts(cs[i]))
  }

  // Commands the protocol carries faithfully: in the redis form every one, in the line
  // form those without spaces or line feeds that fit the reader's buffer.
  predicate Carried(p: Protocol, c: Command) {
    && RedisClient.Sized(Parts(c))
    && (p == LineText ==> LineClient.LineSafe(Parts(c)))
  }

  lemma {:induction false} RequestsBack(lib: Lib, p: Protocol, cs: seq<Command>)
    requires forall c <- cs :: Carried(p, c)
    ensures Requests(p, Stream(lib, p, cs)) == (Written(cs), Eof)
  {
    hide Encode, NextRequest, Carried;
    if cs == [] {
      EndOfStream(p);
    } else {
      var rest := Stream(lib, p, cs[1..]);
      CommandBack(lib, p, cs[0], rest);
      RequestsBack(lib, p, cs[1..]);
      assert Written(cs) == [Parts(cs[0])] + Written(cs[1..]);
    }
  }

  lemma EndOfStream(p: Protocol)
    ensures NextRequest(p, []) == Fail(Eof)
  {
  }

  lemma CommandBack(lib: Lib, p: Protocol, c: Command, t: Bytes)
    requires Carried(p, c)
    ensures NextRequest(p, Encode(lib, p, c) + t) == Ok(Parts(c), t)
  {
    hide ReadBulk, LineClient.ReadWords, Emit, LineClient.LineCommand;
    match p
    case Redis => RedisClient.RedisCommandBack(lib, c.name, c.texts, t);
    case LineText => LineClient.LineCommandBack(c.name, c.texts, t);
  }

  // ---------- which requests are answered ----------

  // Decided by the request alone, whatever the store holds.
  predicate Bearing(table: map<Bytes, Handler>, request: Request)
    requires request != []
  {
    var cmd := Upper(request[0]);
    cmd in table ==> !FireAndForget(table[cmd], request[1..])
  }

  // How many replies a list of requests is owed.
  function Owed(p: Protocol, table: map<Bytes, Handler>, requests: seq<Request>): nat {
    if requests == [] then 0
    else if Ends(requests[0]) then |Farewell(p, requests[0])|
    else (if Bearing(table, requests[0]) then 1 else 0) + Owed(p, table, requests[1..])
  }

  lemma BearingSpeaks(lib: Lib, table: map<Bytes, Handler>, st: Store, request: Request)
    requires request != []
    ensures |Spoken(Respond(lib, table, st, request).1)| == if Bearing(table, request) then 1 else 0
  {
    hide Apply;
    var cmd := Upper(request[0]);
    if cmd in table {
      SilentExactly(lib, st, table[cmd], request[1..]);
    }
  }

  // Exactly one reply for each request that bears one, and none for the others.
  lemma {:induction false} OneReplyEach(
    lib: Lib, p: Protocol, table: map<Bytes, Handler>, st: Store, requests: seq<Request>)
    ensures |Serve(lib, p, table, st, requests).1| == Owed(p, table, requests)
    decreases |requests|
  {
    hide Respond, Bearing, Ends;
    if requests != [] && !Ends(requests[0]) {
      assert requests[0] != [] by {
        EmptyEnds(p);
      }
      BearingSpeaks(lib, table, st, requests[0]);
      OneReplyEach(lib, p, table, Respond(lib, table, st, requests[0]).0, requests[1..]);
    }
  }

  // None of the requests ends the connection.
  predicate Unending(requests: seq<Request>) {
    forall i :: 0 <= i < |requests| ==> !Ends(requests[i])
  }

  // The store just before the k-th request is handled.
  function Before(lib: Lib, table: map<Bytes, Handler>, st: Store, requests: seq<Request>, k: nat): Store
    requires k <= |requests| && Unending(requests)
    decreases k
  {
    if k == 0 then st
    else Before(lib, table, Respond(lib, table, st, requests[0]).0, requests[1..], k - 1)
  }

  // The reply found at the position a request is owed is the reply to that request, on
  // the store as the earlier requests left it.
  lemma {:induction false} ReplyInPlace(
    lib: Lib, p: Protocol, table: map<Bytes, Handler>, st: Store, requests: seq<Request>, k: nat)
    requires k < |requests| && Unending(requests)
    requires Bearing(table, requests[k])
    ensures Owed(p, table, requests[..k]) < |Serve(lib, p, table, st, requests).1|
    ensures Serve(lib, p, table, st, requests).1[Owed(p, table, requests[..k])]
            == Respond(lib, table, Before(lib, table, st, requests, k), requests[k]).1
    decreases k
  {
    hide Respond, Bearing;
    var next := Respond(lib, table, st, requests[0]);
    BearingSpeaks(lib, table, st, requests[0]);
    if k == 0 {
      assert requests[..0] == [];
    } else {
      ReplyInPlace(lib, p, table, next.0, requests[1..], k - 1);
      assert requests[1..][..k - 1] == requests[..k][1..];
      assert requests[..k][0] == requests[0];
    }
  }

  // ---------- what the client reads ----------

  // A value the client reads tells it a reply.
  ghost predicate Conveys(v: Value, reply: Reply) {
    match reply
    case Silent => false
    case Integer(n) => v == Int(n)
    case Integers(ns) => v == Arr(Ints(ns))
    case Nil => v == Null
    case Members(s) => exists order :: Enumerates(order, s) && v == Arr(Strs(order))
    case Failed(text) => v == Error(ERR_PREFIX + text)
    case Status(text) => v == Str(text)
  }

  lemma FlattenStrs(lib: Lib, order: seq<Bytes>)
    ensures FlattenAll(lib, Strs(order)) == Strs(order)
  {
  }

  lemma FlattenInts(lib: Lib, ns: seq<int>)
    ensures FlattenAll(lib, Ints(ns)) == Ints(ns)
  {
  }

  lemma DeliveredConveys(lib: Lib, m: Message, reply: Reply)
    requires Delivers(m, reply)
    ensures Conveys(Meaning(lib, m), reply)
  {
    match reply
    case Integers(ns) => FlattenInts(lib, ns);
    case Members(s) =>
      var order :| Enumerates(order, s) && m == Array(Strs(order));
      FlattenStrs(lib, order);
    case _ =>
  }

  lemma ReadableExactly(lib: Lib, v: Value, reply: Reply)
    requires Conveys(v, reply)
    ensures Readable(lib, v) <==> Carriable(reply)
  {
    hide LineBody, Enumerates, Ints, Strs;
    match reply
    case Integers(ns) => IntsReadable(lib, ns);
    case Members(s) =>
      var order :| Enumerates(order, s) && v == Arr(Strs(order));
      StrsReadable(lib, order, s);
    case _ =>
  }

  lemma IntsReadable(lib: Lib, ns: seq<int>)
    ensures |Ints(ns)| == |ns|
    ensures (forall e <- Ints(ns) :: Readable(lib, e)) <==> forall n <- ns :: IsInt64(n)
  {
    forall n | n in ns
      ensures Int(n) in Ints(ns)
    {
      var i :| 0 <= i < |ns| && ns[i] == n;
      assert Ints(ns)[i] == Int(n);
    }
  }

  lemma StrsReadable(lib: Lib, order: seq<Bytes>, s: set<Bytes>)
    requires Enumerates(order, s)
    ensures |Strs(order)| == |s|
    ensures (forall e <- Strs(order) :: Readable(lib, e)) <==> forall x <- s :: LineBody(x)
  {
    hide LineBody;
    EnumerationSize(order, s);
    forall x | x in s
      ensures Str(x) in Strs(order)
    {
      var i :| 0 <= i < |order| && order[i] == x;
      assert Strs(order)[i] == Str(x);
    }
    forall e | e in Strs(order)
      ensures e.Str? && e.s in s
    {
      var i :| 0 <= i < |order| && Strs(order)[i] == e;
      assert order[i] in order;
    }
  }

  // ---------- which requests can be answered ----------

  // What a request asks to be sent fits the wire; known before it is handled.
  predicate Speakable(lib: Lib, table: map<Bytes, Handler>, st: Store, request: Request)
    requires request != []
  {
    var cmd := Upper(request[0]);
    cmd in table ==> Sendable(lib, st, table[cmd], request[1..])
  }

  // Each request up to the end of the connection, on the store as it is by then.
  predicate SpeakableAll(lib: Lib, table: map<Bytes, Handler>, st: Store, requests: seq<Request>)
    decreases |requests|
  {
    requests == [] || Ends(requests[0]) ||
    (&& Speakable(lib, table, st, requests[0])
     && SpeakableAll(lib, table, Respond(lib, table, st, requests[0]).0, requests[1..]))
  }

  function Words(requests: seq<Request>): nat {
    if requests == [] then 0 else |requests[0]| + Words(requests[1..])
  }

  lemma FixedTextsFit()
    ensures Carriable(Failed(NotFound())) && Carriable(Status(OK_TEXT))
  {
    hide LineBody, Ascii;
    AsciiLine("invalid command format");
    OkFits();
  }

  lemma OkFits()
    ensures LineBody(OK_TEXT)
  {
  }

  lemma RespondCarriable(lib: Lib, table: map<Bytes, Handler>, st: Store, request: Request, n: int)
    requires request != [] && Sound(st, n) && n + |request| <= MAX_INT64
    ensures var r := Respond(lib, table, st, request);
            && Sound(r.0, n + |request|)
            && (Carriable(r.1) <==> r.1 != Silent && Speakable(lib, table, st, request))
  {
    hide Apply, Sendable, Carriable, Fits, AllMembers;
    var cmd := Upper(request[0]);
    if cmd in table {
      CarriableExactly(lib, st, table[cmd], request[1..], n);
      ApplySound(lib, st, table[cmd], request[1..], n);
    } else {
      FixedTextsFit();
    }
  }

  // A silent request is speakable.
  lemma SilentSpeakable(lib: Lib, table: map<Bytes, Handler>, st: Store, request: Request)
    requires request != [] && Respond(lib, table, st, request).1 == Silent
    ensures Speakable(lib, table, st, request)
  {
    hide Apply;
    var cmd := Upper(request[0]);
    SilentExactly(lib, st, table[cmd], request[1..]);
  }

  // On a sound store, all replies can be carried exactly when all requests are speakable;
  // and the store stays sound.
  lemma {:induction false} ServeCarriable(
    lib: Lib, p: Protocol, table: map<Bytes, Handler>, st: Store, requests: seq<Request>, n: int)
    requires Sound(st, n) && n + Words(requests) <= MAX_INT64
    ensures var r := Serve(lib, p, table, st, requests);
            && Sound(r.0, n + Words(requests))
            && ((forall reply <- r.1 :: Carriable(reply)) <==> SpeakableAll(lib, table, st, requests))
    decreases |requests|
  {
    hide Respond, Speakable, Fits, AllMembers, Carriable, Ends;
    if requests != [] {
      if Ends(requests[0]) {
        FixedTextsFit();
      } else {
        assert requests[0] != [] by {
          EmptyEnds(p);
        }
        var step := Respond(lib, table, st, requests[0]);
        RespondCarriable(lib, table, st, requests[0], n);
        ServeCarriable(lib, p, table, step.0, requests[1..], n + |requests[0]|);
        if step.1 == Silent {
          SilentSpeakable(lib, table, st, requests[0]);
        }
        AllOf(Spoken(step.1), Serve(lib, p, table, step.0, requests[1..]).1);
      }
    }
  }

  lemma AllOf(a: seq<Reply>, b: seq<Reply>)
    ensures (forall r <- a + b :: Carriable(r)) <==> (forall r <- a :: Carriable(r)) && (forall r <- b :: Carriable(r))
  {
    hide Carriable;
    assert forall r :: r in a + b <==> r in a || r in b;
  }

  // A condition on the commands alone, whatever the store.
  predicate TidyRequest(lib: Lib, table: map<Bytes, Handler>, request: Request) {
    request != [] && Upper(request[0]) in table ==> TidyCommand(lib, table[Upper(request[0])], request[1..])
  }

  lemma {:induction false} TidySpeaks(
    lib: Lib, table: map<Bytes, Handler>, st: Store, requests: seq<Request>)
    requires Tidy(st) && forall i :: 0 <= i < |requests| ==> TidyRequest(lib, table, requests[i])
    ensures SpeakableAll(lib, table, st, requests)
    decreases |requests|
  {
    hide Tidy, TidyCommand, Sendable, Apply;
    if requests != [] && !Ends(requests[0]) {
      var cmd := Upper(requests[0][0]);
      assert TidyRequest(lib, table, requests[0]);
      if cmd in table {
        TidyStep(lib, st, table[cmd], requests[0][1..]);
      }
      TidySpeaks(lib, table, Respond(lib, table, st, requests[0]).0, requests[1..]);
    }
  }

  // ---------- end to end ----------

  // Reading the frames that deliver some replies yields those replies, in order and to the
  // last byte, if and only if each of them can be carried.
  lemma FramesReadBack(lib: Lib, ms: seq<Message>, replies: seq<Reply>)
    requires DeliversAll(ms, replies)
    ensures |ms| == |replies|
    ensures ReadMany(lib, |ms|, EmitAll(lib, ms)) == Ok(Meanings(lib, ms), []) <==> forall r <- replies :: Carriable(r)
    ensures forall i :: 0 <= i < |ms| ==> Conveys(Meanings(lib, ms)[i], replies[i])
  {
    hide ReadMany, EmitAll, Emit, Meaning, Delivers, Conveys, Readable, Carriable;
    StreamRoundTrip(lib, ms, []);
    assert EmitAll(lib, ms) + [] == EmitAll(lib, ms);
    forall i | 0 <= i < |ms|
      ensures Conveys(Meanings(lib, ms)[i], replies[i])
      ensures Readable(lib, Meaning(lib, ms[i])) <==> Carriable(replies[i])
    {
      DeliveredConveys(lib, ms[i], replies[i]);
      ReadableExactly(lib, Meaning(lib, ms[i]), replies[i]);
    }
    assert forall m <- ms :: exists i :: 0 <= i < |ms| && ms[i] == m && replies[i] in replies;
    assert forall r <- replies :: exists i :: 0 <= i < |ms| && replies[i] == r && ms[i] in ms;
  }

  // The commands written ahead arrive as the requests they are; and reading the bytes
  // the server writes for them yields the replies of the sequential machine, in order
  // and to the last byte, if and only if every request is speakable.
  lemma PipelineEndToEnd(
    lib: Lib, p: Protocol, table: map<Bytes, Handler>, st: Store, cs: seq<Command>, ms: seq<Message>, n: int)
    requires forall c <- cs :: Carried(p, c)
    requires Sound(st, n) && n + Words(Written(cs)) <= MAX_INT64
    requires DeliversAll(ms, Serve(lib, p, table, st, Requests(p, Stream(lib, p, cs)).0).1)
    ensures Requests(p, Stream(lib, p, cs)) == (Written(cs), Eof)
    ensures var replies := Serve(lib, p, table, st, Written(cs)).1;
            && |ms| == |replies| == Owed(p, table, Written(cs))
            && (ReadMany(lib, |ms|, EmitAll(lib, ms)) == Ok(Meanings(lib, ms), [])
                <==> SpeakableAll(lib, table, st, Written(cs)))
            && (forall i :: 0 <= i < |ms| ==> Conveys(Meanings(lib, ms)[i], replies[i]))
  {
    hide Serve, Requests, Stream, Carried, ReadMany, EmitAll, DeliversAll, Conveys, Carriable;
    hide SpeakableAll, Sound, Words;
    RequestsBack(lib, p, cs);
    OneReplyEach(lib, p, table, st, Written(cs));
    ServeCarriable(lib, p, table, st, Written(cs), n);
    FramesReadBack(lib, ms, Serve(lib, p, table, st, Written(cs)).1);
  }

  // From an empty store, for any commands that store only members fitting a line and
  // whose bad numbers are short enough to be reported: the client reads every reply.
  lemma PipelineFromEmpty(
    lib: Lib, p: Protocol, table: map<Bytes, Handler>, cs: seq<Command>, ms: seq<Message>)
    requires forall c <- cs :: Carried(p, c)
    requires Words(Written(cs)) <= MAX_INT64 && forall c <- cs :: TidyRequest(lib, table, Parts(c))
    requires DeliversAll(ms, Serve(lib, p, table, EMPTY, Requests(p, Stream(lib, p, cs)).0).1)
    ensures ReadMany(lib, |ms|, EmitAll(lib, ms)) == Ok(Meanings(lib, ms), [])
    ensures var replies := Serve(lib, p, table, EMPTY, Written(cs)).1;
            |ms| == |replies| && forall i :: 0 <= i < |ms| ==> Conveys(Meanings(lib, ms)[i], replies[i])
  {
    hide Serve, Requests, Stream, Carried, ReadMany, EmitAll, Conveys, DeliversAll, TidyRequest, Sound, Tidy, Words;
    EmptySound();
    PipelineEndToEnd(lib, p, table, EMPTY, cs, ms, 0);
    TidySpeaks(lib, table, EMPTY, Written(cs));
  }

  // A name typed in any case, upper-cased by the client and once more by the server,
  // makes the command of that name run.
  lemma NamedCommandRuns(lib: Lib, base: seq<(Bytes, Handler)>, st: Store, c: Command, h: Handler)
    requires IgnoringCase(c.name, StatsCommands.Key(h))
    ensures Respond(lib, Context.Table(base + StatsCommands.Registrations()), st, Parts(c))
            == Apply(lib, st, h, c.texts)
  {
    hide Upper, Apply, Context.Table, StatsCommands.Key, IgnoringCase;
    UpperIdempotent(c.name);
    StatsCommands.EveryNameFindsItsHandler(base, h, c.name);
    assert Parts(c)[1..] == c.texts;
  }

  // ---------- the same over live connections ----------

  lemma {:induction false} StreamSnoc(lib: Lib, p: Protocol, cs: seq<Command>, c: Command)
    ensures Stream(lib, p, cs + [c]) == Stream(lib, p, cs) + Encode(lib, p, c)
  {
    hide Encode;
    if cs == [] {
      assert cs + [c] == [c];
    } else {
      assert (cs + [c])[1..] == cs[1..] + [c];
      StreamSnoc(lib, p, cs[1..], c);
    }
  }

  // A client writes commands one after the other.
  method WriteAll(client: BufferClient, p: Protocol, cs: seq<Command>)
    modifies client`written
    ensures client.written == old(client.written) + Stream(client.lib, p, cs)
  {
    hide Emit, LineClient.LineCommand;
    for i := 0 to |cs|
      invariant client.written == old(client.written) + Stream(client.lib, p, cs[..i])
    {
      StreamSnoc(client.lib, p, cs[..i], cs[i]);
      assert cs[..i + 1] == cs[..i] + [cs[i]];
      if p == Redis {
        RedisClient.WriteCommand(client, cs[i].name, cs[i].texts);
      } else {
        LineClient.WriteCommand(client, cs[i].name, cs[i].texts);
      }
    }
    assert cs[..|cs|] == cs;
  }

  // The client has the replies, one value each, in order.
  ghost predicate Answered(answers: Outcome<seq<Value>>, replies: seq<Reply>) {
    && answers.Got? && |answers.value| == |replies|
    && forall i :: 0 <= i < |replies| ==> Conveys(answers.value[i], replies[i])
  }

  // What was read conveys the replies only if they could be carried.
  lemma AnsweredCarriable(lib: Lib, answers: seq<Value>, replies: seq<Reply>)
    requires Answered(Got(answers), replies) && forall v <- answers :: Readable(lib, v)
    ensures forall r <- replies :: Carriable(r)
  {
    hide Conveys, Readable, Carriable;
    forall r | r in replies
      ensures Carriable(r)
    {
      var i :| 0 <= i < |replies| && replies[i] == r;
      assert answers[i] in answers;
      ReadableExactly(lib, answers[i], r);
    }
  }

  // Reading as many replies as are owed gives the replies of the sequential machine, if
  // and only if every request is speakable.
  lemma AnswersFollow(
    lib: Lib, p: Protocol, table: map<Bytes, Handler>, st: Store, cs: seq<Command>, ms: seq<Message>, n: int,
    answers: Outcome<seq<Value>>)
    requires forall c <- cs :: Carried(p, c)
    requires Sound(st, n) && n + Words(Written(cs)) <= MAX_INT64
    requires DeliversAll(ms, Serve(lib, p, table, st, Written(cs)).1)
    requires exists rest :: Follows(answers, rest, ReadMany(lib, Owed(p, table, Written(cs)), EmitAll(lib, ms)))
    ensures Sound(Serve(lib, p, table, st, Written(cs)).0, n + Words(Written(cs)))
    ensures Answered(answers, Serve(lib, p, table, st, Written(cs)).1)
            <==> SpeakableAll(lib, table, st, Written(cs))
  {
    hide Serve, Requests, Stream, Carried, ReadMany, EmitAll, Conveys, Carriable, DeliversAll, Owed, Readable;
    hide SpeakableAll, Sound, Words;
    RequestsBack(lib, p, cs);
    PipelineEndToEnd(lib, p, table, st, cs, ms, n);
    ServeCarriable(lib, p, table, st, Written(cs), n);
    var replies := Serve(lib, p, table, st, Written(cs)).1;
    if Answered(answers, replies) {
      ReadManyYieldsReadable(lib, |ms|, EmitAll(lib, ms));
      AnsweredCarriable(lib, answers.value, replies);
    }
  }

  method WriteRequests(lib: Lib, p: Protocol, cs: seq<Command>) returns (sent: Bytes)
    ensures sent == Stream(lib, p, cs)
  {
    var requester := new BufferClient(lib, []);
    WriteAll(requester, p, cs);
    sent := requester.written;
  }

  method ReadAnswers(lib: Lib, stream: Bytes, n: nat) returns (answers: Outcome<seq<Value>>)
    ensures exists rest :: Follows(answers, rest, ReadMany(lib, n, stream))
  {
    hide ReadMany;
    var reader := new BufferClient(lib, stream);
    answers := reader.ReadItems(n);
    assert Follows(answers, reader.Rest(), ReadMany(lib, n, stream));
  }

  // The server runs a connection on which these commands were written.
  method RunAll(server: ProtocolServer, lib: Lib, cs: seq<Command>) returns (sent: Bytes, ghost ms: seq<Message>)
    requires server.stats.mem.Valid() && forall c <- cs :: Carried(server.protocol, c)
    modifies server.stats.mem, server.stats.mem.counters.Values, server.stats.mem.sets.Values
    ensures server.stats.mem.Valid()
    ensures var r := Serve(lib, server.protocol, server.ctx.commands, old(server.stats.mem.Contents()), Written(cs));
            server.stats.mem.Contents() == r.0 && DeliversAll(ms, r.1) && sent == EmitAll(lib, ms)
  {
    hide Serve, Requests, Stream, Carried, EmitAll, DeliversAll;
    hide MemoryBackends.MemoryBackend.Contents, MemoryBackends.MemoryBackend.Valid;
    var requests := WriteRequests(lib, server.protocol, cs);
    RequestsBack(lib, server.protocol, cs);
    var connection := new BufferClient(lib, requests);
    ms := server.RunClient(connection);
    sent := connection.written;
    assert [] + EmitAll(lib, ms) == EmitAll(lib, ms);
  }

  // A client pipelines commands to a server over one connection, the server runs it to
  // its end, and the client reads the replies it is owed: it gets those of the
  // sequential machine, in order, if and only if every request is speakable.
  method Converse(server: ProtocolServer, lib: Lib, cs: seq<Command>, ghost n: int)
    returns (answers: Outcome<seq<Value>>)
    requires server.stats.mem.Valid() && forall c <- cs :: Carried(server.protocol, c)
    requires Sound(server.stats.mem.Contents(), n) && n + Words(Written(cs)) <= MAX_INT64
    modifies server.stats.mem, server.stats.mem.counters.Values, server.stats.mem.sets.Values
    ensures server.stats.mem.Valid() && Sound(server.stats.mem.Contents(), n + Words(Written(cs)))
    ensures var st, table := old(server.stats.mem.Contents()), server.ctx.commands;
            var r := Serve(lib, server.protocol, table, st, Written(cs));
            && server.stats.mem.Contents() == r.0
            && (Answered(answers, r.1) <==> SpeakableAll(lib, table, st, Written(cs)))
  {
    hide Serve, Carried, ReadMany, EmitAll, DeliversAll, Answered, Owed, Follows, Sound, Words, SpeakableAll;
    hide MemoryBackends.MemoryBackend.Contents, MemoryBackends.MemoryBackend.Valid;
    ghost var st, table := server.stats.mem.Contents(), server.ctx.commands;
    var sent, ms := RunAll(server, lib, cs);
    answers := ReadAnswers(lib, sent, Owed(server.protocol, server.ctx.commands, Written(cs)));
    AnswersFollow(lib, server.protocol, table, st, cs, ms, n, answers);
  }

  // From the very start: a fresh server with the stats backend registered answers every
  // tidy command.
  method FirstConversation(lib: Lib, p: Protocol, cs: seq<Command>) returns (answers: Outcome<seq<Value>>)
    requires forall c <- cs :: Carried(p, c)
    requires Words(Written(cs)) <= MAX_INT64
    requires forall c <- cs :: TidyRequest(lib, Context.Table(StatsCommands.Registrations()), Parts(c))
    ensures Answered(answers, Serve(lib, p, Context.Table(StatsCommands.Registrations()), EMPTY, Written(cs)).1)
  {
    hide Serve, Carried, Answered, Sound, Words, SpeakableAll, TidyRequest, Tidy, Context.Table;
    hide MemoryBackends.MemoryBackend.Contents, MemoryBackends.MemoryBackend.Valid;
    var ctx := new Context.BroadcastContext<Handler>();
    StatsCommands.RegisterBackend(ctx);
    assert [] + StatsCommands.Registrations() == StatsCommands.Registrations();
    var stats := new StatsBackend();
    var server := new ProtocolServer(p, ctx, stats);
    EmptySound();
    TidySpeaks(lib, ctx.commands, EMPTY, Written(cs));
    answers := Converse(server, lib, cs, 0);
  }
}
