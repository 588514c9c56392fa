// The request loops of the redis and line protocols over the stats backend, and the
// guarantee a pipelining client gets from them.

module ProtocolServers {
  import opened ByteStrings
  import opened Wire
  import opened BufferClients
  import opened StatsMachine
  import opened MemoryBackends
  import opened StatsBackends
  import opened Context
  import LineClient

  datatype Protocol = Redis | LineText

  type Request = seq<Bytes>

  const QUIT_NAME: Bytes := [81, 85, 73, 84]
  const OK_TEXT: Bytes := [79, 75]

  function NotFound(): Bytes {
    Ascii("invalid command format")
  }

  // ---------- the specification of one connection ----------

  function NextRequest(p: Protocol, s: Bytes): (r: Parse<Request>)
    ensures r.Ok? ==> |r.rest| < |s|
  {
    match p
    case Redis => ReadBulk(s)
    case LineText => LineClient.ReadWords(s)
  }

  // Every request on the stream, and why reading stopped.
  function Requests(p: Protocol, s: Bytes): (seq<Request>, ReadError)
    decreases |s|
  {
    match NextRequest(p, s)
    case Fail(e) => ([], e)
    case Ok(request, rest) =>
      var (others, e) := Requests(p, rest);
      ([request] + others, e)
  }

  // A request of no words at all panics; the connection ends, as it does on QUIT.
  predicate Ends(request: Request) {
    request == [] || Upper(request[0]) == QUIT_NAME
  }

  // The connection ends on QUIT in any case, which redis acknowledges and the line protocol
  // does not.
  lemma EndsExactly(request: Request)
    ensures Ends(request) <==> request == [] || IgnoringCase(request[0], Ascii("QUIT"))
    ensures request != [] ==> Farewell(Redis, request) == [Status(Ascii("OK"))]
    ensures Farewell(LineText, request) == []
  {
    hide Upper, IgnoringCase;
    QuitSpelled();
    if request != [] {
      UpperExactly(request[0], Ascii("QUIT"));
    }
  }

  lemma QuitSpelled()
    ensures QUIT_NAME == Ascii("QUIT") == Upper(Ascii("QUIT")) && OK_TEXT == Ascii("OK")
  {
  }

  // A command nobody registered, ignoring case, is answered with an error and does nothing.
  lemma UnknownIsRefused(lib: Lib, registrations: seq<(Bytes, Handler)>, st: Store, request: Request)
    requires request != []
    ensures (forall r <- registrations :: !IgnoringCase(r.0, request[0])) ==>
              Respond(lib, Table(registrations), st, request) == (st, Failed(Ascii("invalid command format")))
  {
    hide Upper, IgnoringCase, Table, Apply;
    LastRegistrationWins(registrations, request[0]);
  }

  // What one request does and earns, unless it ends the connection.
  function Respond(lib: Lib, table: map<Bytes, Handler>, st: Store, request: Request): (Store, Reply)
    requires request != []
  {
    var cmd := Upper(request[0]);
    if cmd in table then Apply(lib, st, table[cmd], request[1..]) else (st, Failed(NotFound()))
  }

  function Spoken(reply: Reply): seq<Reply> {
    if reply == Silent then [] else [reply]
  }

  function Farewell(p: Protocol, request: Request): seq<Reply> {
    if p == Redis && request != [] then [Status(OK_TEXT)] else []
  }

  // The sequential machine: the final store, and the replies in request order.
  function Serve(lib: Lib, p: Protocol, table: map<Bytes, Handler>, st: Store, requests: seq<Request>)
    : (r: (Store, seq<Reply>))
    decreases |requests|
  {
    if requests == [] then (st, [])
    else if Ends(requests[0]) then (st, Farewell(p, requests[0]))
    else
      var (st1, reply) := Respond(lib, table, st, requests[0]);
      var (st2, replies) := Serve(lib, p, table, st1, requests[1..]);
      (st2, Spoken(reply) + replies)
  }

  // The frames on the wire deliver the replies, one frame each, in order.
  ghost predicate DeliversAll(ms: seq<Message>, replies: seq<Reply>) {
    |ms| == |replies| && forall i :: 0 <= i < |ms| ==> Delivers(ms[i], replies[i])
  }

  lemma {:induction false} EmitAllConcat(lib: Lib, a: seq<Message>, b: seq<Message>)
    ensures EmitAll(lib, a + b) == EmitAll(lib, a) + EmitAll(lib, b)
  {
    hide Emit;
    if a == [] {
      assert a + b == b;
    } else {
      assert (a + b)[1..] == a[1..] + b;
      EmitAllConcat(lib, a[1..], b);
    }
  }

  lemma DeliversConcat(a: seq<Message>, b: seq<Message>, x: seq<Reply>, y: seq<Reply>)
    requires DeliversAll(a, x) && DeliversAll(b, y)
    ensures DeliversAll(a + b, x + y)
  {
    hide Delivers;
  }

  // The frames of one turn, none or one.
  lemma SentMessages(lib: Lib, reply: Reply, before: Bytes, after: Bytes) returns (ms: seq<Message>)
    requires Sent(lib, reply, before, after, None)
    ensures DeliversAll(ms, Spoken(reply)) && after == before + EmitAll(lib, ms)
  {
    hide Emit, Delivers;
    if reply == Silent {
      ms := [];
    } else {
      var m :| Delivers(m, reply) && after == before + Emit(lib, m);
      ms := [m];
      assert EmitAll(lib, [m]) == Emit(lib, m) + EmitAll(lib, []);
    }
  }

  // Replies already given, then the rest of the run.
  function Continue(given: seq<Reply>, r: (Store, seq<Reply>)): (Store, seq<Reply>) {
    (r.0, given + r.1)
  }

  lemma ContinueTwice(a: seq<Reply>, b: seq<Reply>, r: (Store, seq<Reply>))
    ensures Continue(a, Continue(b, r)) == Continue(a + b, r)
    ensures Continue([], r) == r
  {
    assert a + (b + r.1) == a + b + r.1;
    assert [] + r.1 == r.1;
  }

  // One turn of the request loop: the store, what is said, and what is left to read if
  // the connection goes on.
  datatype Turn = Turn(store: Store, said: seq<Reply>, rest: Option<Bytes>)

  function TakeTurn(lib: Lib, p: Protocol, table: map<Bytes, Handler>, st: Store, s: Bytes): Turn {
    match NextRequest(p, s)
    case Fail(_) => Turn(st, [], None)
    case Ok(request, rest) =>
      if Ends(request) then Turn(st, Farewell(p, request), None)
      else
        var (st', reply) := Respond(lib, table, st, request);
        Turn(st', Spoken(reply), Some(rest))
  }

  // The machine on the requests of a stream, one turn at a time.
  lemma ServeStep(lib: Lib, p: Protocol, table: map<Bytes, Handler>, st: Store, s: Bytes)
    ensures var t := TakeTurn(lib, p, table, st, s);
            Serve(lib, p, table, st, Requests(p, s).0)
            == Continue(t.said, if t.rest.None? then (t.store, [])
                                else Serve(lib, p, table, t.store, Requests(p, t.rest.value).0))
  {
    hide NextRequest, Respond, Farewell;
    if NextRequest(p, s).Ok? {
      var requests := Requests(p, s).0;
      assert requests[1..] == Requests(p, NextRequest(p, s).rest).0;
    }
    var t := TakeTurn(lib, p, table, st, s);
    assert t.said + [] == t.said;
  }

  datatype Verdict = Done | Quit | Problem(text: Bytes)

  class ProtocolServer {
    const protocol: Protocol
    const ctx: BroadcastContext<Handler>
    const stats: StatsBackend

    constructor (protocol: Protocol, ctx: BroadcastContext<Handler>, stats: StatsBackend)
      ensures this.protocol == protocol && this.ctx == ctx && this.stats == stats
    {
      this.protocol, this.ctx, this.stats := protocol, ctx, stats;
    }

    // The function registered for a command.
    method Call(h: Handler, d: seq<Bytes>, client: BufferClient) returns (err: Option<Bytes>)
      requires stats.mem.Valid()
      modifies stats.mem, stats.mem.counters.Values, stats.mem.sets.Values, client`written
      ensures stats.mem.Valid()
      ensures fresh(stats.mem.counters.Values - old(stats.mem.counters.Values))
      ensures fresh(stats.mem.sets.Values - old(stats.mem.sets.Values))
      ensures Handled(client.lib, h, d, old(stats.mem.Contents()), stats.mem.Contents(),
                      old(client.written), client.written, err)
    {
      hide Handled, MemoryBackend.Contents;
      match h
      case SET => err := stats.Set(d, client);
      case SETNX => err := stats.SetNx(d, client);
      case GET => err := stats.Get(d, client);
      case EXISTS => err := stats.Exists(d, client);
      case DEL => err := stats.Del(d, client);
      case INCR => err := stats.Incr(d, client);
      case DECR => err := stats.Decr(d, client);
      case COUNT => err := stats.Count(d, client);
      case SADD => err := stats.SAdd(d, client);
      case SREM => err := stats.SRem(d, client);
      case SCARD => err := stats.SCard(d, client);
      case SMEMBERS => err := stats.SMembers(d, client);
      case SDIFF => err := stats.SDiff(d, client);
      case SISMEMBER => err := stats.SIsMember(d, client);
      case SINTER => err := stats.SInter(d, client);
      case SUNION => err := stats.SUnion(d, client);
    }

    method HandleData(data: Request, client: BufferClient) returns (verdict: Verdict)
      requires stats.mem.Valid() && data != []
      modifies stats.mem, stats.mem.counters.Values, stats.mem.sets.Values, client`written
      ensures stats.mem.Valid()
      ensures fresh(stats.mem.counters.Values - old(stats.mem.counters.Values))
      ensures fresh(stats.mem.sets.Values - old(stats.mem.sets.Values))
      ensures verdict == Quit <==> Ends(data)
      ensures verdict == Quit ==>
                stats.mem.Contents() == old(stats.mem.Contents()) && client.written == old(client.written)
      ensures verdict != Quit ==>
                var (st, reply) := Respond(client.lib, ctx.commands, old(stats.mem.Contents()), data);
                && stats.mem.Contents() == st
                && Sent(client.lib, reply, old(client.written), client.written,
                        if verdict == Done then None else Some(verdict.text))
    {
      hide MemoryBackend.Contents, Sent, Apply;
      var cmd := Upper(data[0]);
      if cmd == QUIT_NAME {
        return Quit;
      }
      if cmd !in ctx.commands {
        SentError(client.lib, NotFound(), client.written);
        return Problem(NotFound());
      }
      var err := Call(ctx.commands[cmd], data[1..], client);
      return if err == None then Done else Problem(err.value);
    }

    method ReadData(client: BufferClient) returns (r: Outcome<Request>)
      requires client.Valid()
      modifies client`at
      ensures client.Valid() && Follows(r, client.Rest(), NextRequest(protocol, old(client.Rest())))
    {
      match protocol
      case Redis => r := client.ReadBulkPayload();
      case LineText => r := LineClient.ReadBulkLine(client);
    }

    // One turn of the loop of RunClient: read, handle, and write what is to be said.
    method RunTurn(client: BufferClient) returns (going: bool, ghost said: seq<Message>)
      requires client.Valid() && stats.mem.Valid()
      modifies client, stats.mem, stats.mem.counters.Values, stats.mem.sets.Values
      ensures stats.mem.Valid()
      ensures fresh(stats.mem.counters.Values - old(stats.mem.counters.Values))
      ensures fresh(stats.mem.sets.Values - old(stats.mem.sets.Values))
      ensures var t := TakeTurn(client.lib, protocol, ctx.commands, old(stats.mem.Contents()), old(client.Rest()));
              && stats.mem.Contents() == t.store
              && DeliversAll(said, t.said)
              && client.written == old(client.written) + EmitAll(client.lib, said)
              && going == t.rest.Some?
              && (going ==> client.Valid() && client.Rest() == t.rest.value)
    {
      hide MemoryBackend.Contents, Sent, Respond, NextRequest, Emit, EmitAll, Ends, Spoken, DeliversAll;
      ghost var before := client.written;
      NothingSent(client.lib, before);
      var data := ReadData(client);
      if data.Broken? {
        return false, [];
      }
      if data.value == [] {
        EmptyEnds(protocol);
        return false, [];
      }
      ghost var reply := Respond(client.lib, ctx.commands, stats.mem.Contents(), data.value).1;
      var verdict := HandleData(data.value, client);
      if verdict == Quit {
        said := [];
        if protocol == Redis {
          client.WriteString(OK_TEXT);
          GoodbyeSent(client.lib, before);
          said := SentMessages(client.lib, Status(OK_TEXT), before, client.written);
        }
        return false, said;
      } else if verdict != Done {
        ErrorSent(client.lib, reply, verdict.text, before, client.written);
        client.WriteError(Some(verdict.text));
      }
      said := SentMessages(client.lib, reply, before, client.written);
      return true, said;
    }

    // The loop of RunClient. The frames it writes deliver, in order, exactly the replies
    // of the sequential machine to the requests on the stream.
    method RunClient(client: BufferClient) returns (ghost ms: seq<Message>)
      requires client.Valid() && stats.mem.Valid()
      modifies client, stats.mem, stats.mem.counters.Values, stats.mem.sets.Values
      ensures stats.mem.Valid()
      ensures var requests := Requests(protocol, old(client.Rest())).0;
              var (st, replies) := Serve(client.lib, protocol, ctx.commands, old(stats.mem.Contents()), requests);
              && stats.mem.Contents() == st
              && DeliversAll(ms, replies)
              && client.written == old(client.written) + EmitAll(client.lib, ms)
    {
      hide MemoryBackend.Contents, TakeTurn, EmitAll, Serve, Requests, DeliversAll;
      ghost var lib, table, st0 := client.lib, ctx.commands, stats.mem.Contents();
      ghost var all := Requests(protocol, client.Rest()).0;
      ghost var base, replies: seq<Reply> := client.written, [];
      ms := [];
      NothingSent(lib, base);
      ContinueTwice([], [], Serve(lib, protocol, table, st0, all));
      while true
        invariant client.Valid() && stats.mem.Valid()
        invariant fresh(stats.mem.counters.Values - old(stats.mem.counters.Values))
        invariant fresh(stats.mem.sets.Values - old(stats.mem.sets.Values))
        invariant DeliversAll(ms, replies)
        invariant client.written == base + EmitAll(lib, ms)
        invariant Serve(lib, protocol, table, st0, all)
                  == Continue(replies, Serve(lib, protocol, table, stats.mem.Contents(),
                                             Requests(protocol, client.Rest()).0))
        decreases |client.Rest()|
      {
        ghost var t := TakeTurn(lib, protocol, table, stats.mem.Contents(), client.Rest());
        ServeStep(lib, protocol, table, stats.mem.Contents(), client.Rest());
        TurnConsumes(lib, protocol, table, stats.mem.Contents(), client.Rest());
        var going, said := RunTurn(client);
        Accumulate(lib, base, ms, said, replies, t.said);
        ContinueTwice(replies, t.said,
                      if t.rest.None? then (t.store, [])
                      else Serve(lib, protocol, table, t.store, Requests(protocol, t.rest.value).0));
        ms, replies := ms + said, replies + t.said;
        if !going {
          assert replies + [] == replies;
          return;
        }
      }
    }
  }

  lemma TurnConsumes(lib: Lib, p: Protocol, table: map<Bytes, Handler>, st: Store, s: Bytes)
    ensures var t := TakeTurn(lib, p, table, st, s); t.rest.Some? ==> |t.rest.value| < |s|
  {
    hide NextRequest, Respond;
  }

  // Frames written so far, and those of one turn more.
  lemma Accumulate(
      lib: Lib, base: Bytes, ms: seq<Message>, said: seq<Message>, replies: seq<Reply>, more: seq<Reply>)
    requires DeliversAll(ms, replies) && DeliversAll(said, more)
    ensures DeliversAll(ms + said, replies + more)
    ensures base + EmitAll(lib, ms) + EmitAll(lib, said) == base + EmitAll(lib, ms + said)
  {
    hide EmitAll;
    DeliversConcat(ms, said, replies, more);
    EmitAllConcat(lib, ms, said);
  }

  lemma NothingSent(lib: Lib, base: Bytes)
    ensures base == base + EmitAll(lib, []) && DeliversAll([], [])
  {
  }

  lemma GoodbyeSent(lib: Lib, before: Bytes)
    ensures Sent(lib, Status(OK_TEXT), before, before + Emit(lib, Plain(Str(OK_TEXT))), None)
    ensures Spoken(Status(OK_TEXT)) == [Status(OK_TEXT)]
  {
    SentFrame(lib, Plain(Str(OK_TEXT)), Status(OK_TEXT), before);
  }

  lemma EmptyEnds(p: Protocol)
    ensures Ends([]) && Farewell(p, []) == []
  {
  }

  // An error returned by a handler becomes one error frame.
  lemma ErrorSent(lib: Lib, reply: Reply, text: Bytes, before: Bytes, after: Bytes)
    requires Sent(lib, reply, before, after, Some(text))
    ensures Sent(lib, reply, before, after + Emit(lib, Failure(Some(text))), None)
  {
    SentFrame(lib, Failure(Some(text)), reply, before);
  }
}
