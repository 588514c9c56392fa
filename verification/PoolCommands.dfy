// What the commands of a pooled client make the server do, in either protocol, and which of
// them a pool may carry.

module PoolCommands {
  import opened ByteStrings
  import opened Wire
  import opened WireProofs
  import opened StatsMachine
  import opened ProtocolServers
  import opened Pipeline
  import LineClient
  import PM = PoolMachine
  import PubSub = PubSubMachine

  // The handlers a server can have registered: those of the stats backend, which answer,
  // and those of the pub/sub backend, which never do.
  datatype Target = Stats(h: Handler) | PUBLISH | SUBSCRIBE | UNSUBSCRIBE

  type Table = map<Bytes, Target>

  // ---------- the effect of requests ----------

  function RequestEffect(table: Table, request: Request): PM.Command
    requires request != []
  {
    var cmd, d := Upper(request[0]), request[1..];
    if cmd !in table then PM.Command(1, {}, {}, false)
    else match table[cmd]
      case Stats(h) => PM.Command(if FireAndForget(h, d) then 0 else 1, {}, {}, false)
      case PUBLISH => PM.Command(0, {}, {}, false)
      case SUBSCRIBE => PM.Command(0, Arguments(d), {}, false)
      case UNSUBSCRIBE => PM.Command(0, {}, Arguments(d), false)
  }

  // One effect after another; nothing follows one that ends the connection.
  function Then(a: PM.Command, b: PM.Command): PM.Command {
    if a.ends then a
    else PM.Command(a.earns + b.earns, a.joins - b.leaves + b.joins, a.leaves + b.leaves, b.ends)
  }

  // The requests on a stretch of the stream, which ends in an error or at its end.
  function Effect(p: Protocol, table: Table, requests: seq<Request>, e: ReadError): PM.Command {
    if requests == [] then PM.Command(0, {}, {}, e != Eof)
    else if Ends(requests[0]) then PM.Command(|Farewell(p, requests[0])|, {}, {}, true)
    else Then(RequestEffect(table, requests[0]), Effect(p, table, requests[1..], e))
  }

  function StreamEffect(p: Protocol, table: Table, s: Bytes): PM.Command {
    Effect(p, table, Requests(p, s).0, Requests(p, s).1)
  }

  // What a command of the client makes the server do.
  function ClientCommand(lib: Lib, p: Protocol, table: Table, c: Command): PM.Command {
    StreamEffect(p, table, Encode(lib, p, c))
  }

  // ---------- earning is what the server owes ----------

  function StatsOf(table: Table): map<Bytes, Handler> {
    map k | k in table && table[k].Stats? :: table[k].h
  }

  // None of the requests names a pub/sub command.
  predicate StatsOnly(table: Table, requests: seq<Request>) {
    forall i :: 0 <= i < |requests| && requests[i] != [] && Upper(requests[i][0]) in table ==>
      table[Upper(requests[i][0])].Stats?
  }

  // On the stats backend a command earns as many replies as its requests are owed.
  lemma {:induction false} EarnsWhatIsOwed(p: Protocol, table: Table, requests: seq<Request>, e: ReadError)
    requires StatsOnly(table, requests)
    ensures var m := Effect(p, table, requests, e);
            m.earns == Owed(p, StatsOf(table), requests) && m.joins == {} && m.leaves == {}
  {
    hide Farewell;
    if requests != [] && !Ends(requests[0]) {
      EarnsWhatIsOwed(p, table, requests[1..], e);
      assert requests[0] != [];
    }
  }

  // The topics an address is subscribed to.
  function TopicsOf(topics: PubSub.Channels, a: PubSub.Address): (r: set<Bytes>)
    ensures forall key :: key in r <==> a in PubSub.Subscribers(topics, key)
  {
    set key | key in topics && a in topics[key].clients
  }

  // Joining and leaving are what the pub/sub backend does to the address's topics.
  lemma TopicsFollow(topics: PubSub.Channels, d: seq<Bytes>, a: PubSub.Address)
    ensures TopicsOf(PubSub.JoinAll(topics, d, a), a) == TopicsOf(topics, a) + Arguments(d)
    ensures TopicsOf(PubSub.LeaveAll(topics, d, a), a) == TopicsOf(topics, a) - Arguments(d)
  {
    hide TopicsOf, PubSub.JoinAll, PubSub.LeaveAll, PubSub.Subscribers;
    forall key
      ensures a in PubSub.Subscribers(PubSub.JoinAll(topics, d, a), key)
              <==> a in PubSub.Subscribers(topics, key) || key in d
      ensures a in PubSub.Subscribers(PubSub.LeaveAll(topics, d, a), key)
              <==> a in PubSub.Subscribers(topics, key) && key !in d
    {
      PubSub.JoinAllIs(topics, d, a, key);
      PubSub.LeaveAllIs(topics, d, a, key);
    }
  }

  // ---------- commands one after another on one connection ----------

  lemma {:induction false} EffectAppend(p: Protocol, table: Table, a: seq<Request>, b: seq<Request>, e: ReadError)
    ensures Effect(p, table, a + b, e) == Then(Effect(p, table, a, Eof), Effect(p, table, b, e))
  {
    hide Ends, RequestEffect, Farewell;
    if a == [] {
      assert a + b == b;
      var m := Effect(p, table, b, e);
      assert {} - m.leaves + m.joins == m.joins && {} + m.leaves == m.leaves;
    } else if !Ends(a[0]) {
      assert a[0] != [] by {
        EmptyEnds(p);
      }
      assert (a + b)[1..] == a[1..] + b;
      EffectAppend(p, table, a[1..], b, e);
      ThenTwice(RequestEffect(table, a[0]), Effect(p, table, a[1..], Eof), Effect(p, table, b, e));
    }
  }

  lemma ThenTwice(a: PM.Command, b: PM.Command, c: PM.Command)
    ensures Then(a, Then(b, c)) == Then(Then(a, b), c)
  {
    if !a.ends && !b.ends {
      assert a.joins - (b.leaves + c.leaves) + (b.joins - c.leaves + c.joins)
             == a.joins - b.leaves + b.joins - c.leaves + c.joins;
      assert a.leaves + (b.leaves + c.leaves) == a.leaves + b.leaves + c.leaves;
    }
  }

  // A stretch of whole lines.
  predicate WholeLines(s: Bytes) {
    s == [] || s[|s| - 1] == LF
  }

  lemma NextLine(s: Bytes, t: Bytes)
    requires s != [] && WholeLines(s)
    ensures LineClient.ReadWords(s) != Fail(Eof)
    ensures LineClient.ReadWords(s + t) == Extend(LineClient.ReadWords(s), t)
    ensures LineClient.ReadWords(s).Ok? ==>
              WholeLines(LineClient.ReadWords(s).rest) && |LineClient.ReadWords(s).rest| < |s|
  {
    var i := IndexOf(s, LF);
    assert i < |s|;
    SliceStable(s, t);
  }

  lemma {:induction false} LinesAppend(s: Bytes, t: Bytes)
    requires WholeLines(s)
    ensures var (rs, e) := Requests(LineText, s);
            Requests(LineText, s + t)
            == if e == Eof then (rs + Requests(LineText, t).0, Requests(LineText, t).1) else (rs, e)
    decreases |s|
  {
    hide LineClient.ReadWords;
    if s == [] {
      assert s + t == t;
      EndOfStream(LineText);
      assert Requests(LineText, []) == ([], Eof);
      assert [] + Requests(LineText, t).0 == Requests(LineText, t).0;
    } else {
      NextLine(s, t);
      var next := LineClient.ReadWords(s);
      if next.Ok? {
        LinesAppend(next.rest, t);
        var rs := Requests(LineText, next.rest).0;
        assert [next.value] + (rs + Requests(LineText, t).0) == [next.value] + rs + Requests(LineText, t).0;
      }
    }
  }

  // What is on the stream after a command is read as it would be alone, unless the command
  // broke the connection.
  lemma CommandThenRest(lib: Lib, p: Protocol, c: Command, t: Bytes)
    requires p == Redis ==> Carried(Redis, c)
    ensures var (rs, e) := Requests(p, Encode(lib, p, c));
            Requests(p, Encode(lib, p, c) + t)
            == if e == Eof then (rs + Requests(p, t).0, Requests(p, t).1) else (rs, e)
  {
    hide Requests, Carried;
    match p
    case Redis => RedisThenRest(lib, c, t);
    case LineText =>
      assert WholeLines(Encode(lib, LineText, c));
      LinesAppend(Encode(lib, LineText, c), t);
  }

  lemma RedisThenRest(lib: Lib, c: Command, t: Bytes)
    requires Carried(Redis, c)
    ensures Requests(Redis, Encode(lib, Redis, c)) == ([Parts(c)], Eof)
    ensures Requests(Redis, Encode(lib, Redis, c) + t) == ([Parts(c)] + Requests(Redis, t).0, Requests(Redis, t).1)
  {
    hide Encode, Carried, NextRequest;
    CommandBack(lib, Redis, c, t);
    CommandBack(lib, Redis, c, []);
    assert Encode(lib, Redis, c) + [] == Encode(lib, Redis, c);
    EndOfStream(Redis);
    assert Requests(Redis, []) == ([], Eof);
    assert [Parts(c)] + [] == [Parts(c)];
  }

  // Commands sent one after another on a connection take effect one after another.
  lemma CommandsFollow(lib: Lib, p: Protocol, table: Table, c: Command, t: Bytes)
    requires p == Redis ==> Carried(Redis, c)
    ensures StreamEffect(p, table, Encode(lib, p, c) + t)
            == Then(ClientCommand(lib, p, table, c), StreamEffect(p, table, t))
  {
    hide Requests, Encode, Effect, Carried;
    CommandThenRest(lib, p, c, t);
    var (rs, e) := Requests(p, Encode(lib, p, c));
    if e == Eof {
      EffectAppend(p, table, rs, Requests(p, t).0, Requests(p, t).1);
    } else {
      BrokenEnds(p, table, rs, e);
    }
  }

  lemma {:induction false} BrokenEnds(p: Protocol, table: Table, rs: seq<Request>, e: ReadError)
    requires e != Eof
    ensures Effect(p, table, rs, e).ends
  {
    hide Ends, RequestEffect;
    if rs != [] && !Ends(rs[0]) {
      assert rs[0] != [] by {
        EmptyEnds(p);
      }
      BrokenEnds(p, table, rs[1..], e);
    }
  }

  // ---------- the redis form ----------

  // This request subscribes to something.
  predicate Subscribing(table: Table, request: Request) {
    && !Ends(request) && Upper(request[0]) in table && table[Upper(request[0])] == SUBSCRIBE
    && |request| > 1
  }

  lemma OneRequest(p: Protocol, table: Table, request: Request, maxIdle: int)
    ensures var m := Effect(p, table, [request], Eof);
            m.earns <= 1 && (PM.Fit(m, maxIdle) <==> !Subscribing(table, request))
  {
    hide FireAndForget;
    assert [request][1..] == [];
    if !Ends(request) {
      var m := RequestEffect(table, request);
      assert m.joins - {} + {} == m.joins;
      assert |request| > 1 ==> request[1] in Arguments(request[1..]) by {
        assert |request| > 1 ==> request[1..][0] == request[1];
      }
    }
  }

  // In the redis form every command is one request and earns at most one reply, and a pool
  // may carry exactly those that do not subscribe.
  lemma RedisFitExactly(lib: Lib, table: Table, c: Command, maxIdle: int)
    requires Carried(Redis, c)
    ensures Requests(Redis, Encode(lib, Redis, c)) == ([Parts(c)], Eof)
    ensures ClientCommand(lib, Redis, table, c).earns <= 1
    ensures PM.Fit(ClientCommand(lib, Redis, table, c), maxIdle) <==> !Subscribing(table, Parts(c))
  {
    hide Encode, Carried, Requests, Effect, Subscribing, PM.Fit;
    RedisThenRest(lib, c, []);
    OneRequest(Redis, table, Parts(c), maxIdle);
  }

  // ---------- the line form ----------

  function Joined(c: Command): Bytes {
    LineClient.Join(Parts(c))
  }

  // The text reads as one line, and the connection goes on.
  predicate OneLine(j: Bytes) {
    LF !in j && 2 <= |j| <= LINE_BUFFER - 2
  }

  lemma PlainLine(j: Bytes)
    requires LF !in j
    ensures LineClient.ReadWords(j + CRLF)
            == if |j| + 2 > LINE_BUFFER then LineClient.ReadWords(j + CRLF)
               else if |j| < 2 then Fail(ReadRequest) else Ok(LineClient.Split(j), [])
    ensures |j| + 2 > LINE_BUFFER ==> LineClient.ReadWords(j + CRLF).Fail?
    ensures LineClient.ReadWords(j + CRLF) != Fail(Eof)
  {
    LineClient.InvariantLineBack(j, []);
    assert j + CRLF + [] == j + CRLF;
    NextLine(j + CRLF, []);
  }

  lemma PlainRequests(j: Bytes)
    requires LF !in j
    ensures OneLine(j) ==> Requests(LineText, j + CRLF) == ([LineClient.Split(j)], Eof)
    ensures !OneLine(j) ==> Requests(LineText, j + CRLF).0 == [] && Requests(LineText, j + CRLF).1 != Eof
  {
    hide LineClient.ReadWords, LineClient.Split;
    PlainLine(j);
    EndOfStream(LineText);
    assert Requests(LineText, []) == ([], Eof);
    assert [LineClient.Split(j)] + [] == [LineClient.Split(j)];
  }

  // A text with a line feed splits into a first line and the others.
  lemma FirstOfSeveral(j: Bytes)
    requires LF in j
    ensures LineClient.ReadWords(j + CRLF) != Fail(Eof)
    ensures var next := LineClient.ReadWords(j + CRLF);
            next.Ok? ==> next.rest != [] && WholeLines(next.rest)
  {
    var i := IndexOf(j, LF);
    IndexOfIs(j + CRLF, LF, i);
    NextLine(j + CRLF, []);
  }

  // In the line form a command is exactly one request, after which the connection goes on,
  // if and only if its joined line holds no line feed, has two bytes and fits the buffer.
  lemma LineIsOneRequest(lib: Lib, c: Command)
    ensures var (rs, e) := Requests(LineText, Encode(lib, LineText, c));
            |rs| == 1 && e == Eof <==> OneLine(Joined(c))
  {
    hide LineClient.ReadWords, LineClient.Split;
    var j := Joined(c);
    assert Encode(lib, LineText, c) == j + CRLF;
    if LF !in j {
      PlainRequests(j);
    } else {
      FirstOfSeveral(j);
      var next := LineClient.ReadWords(j + CRLF);
      if next.Ok? {
        NextLine(next.rest, []);
      }
    }
  }

  // The first two lines are both requests, neither of which ends the connection.
  predicate SpeaksTwice(j: Bytes) {
    var first := LineClient.ReadWords(j + CRLF);
    && first.Ok? && !Ends(first.value)
    && var second := LineClient.ReadWords(first.rest);
       second.Ok? && !Ends(second.value)
  }

  // Without a line feed nothing speaks twice.
  lemma OneLineSpeaksOnce(j: Bytes)
    requires LF !in j
    ensures !SpeaksTwice(j)
  {
    hide Ends;
    PlainLine(j);
    EndOfStream(LineText);
  }

  // Which commands earn at most one reply in the line form, whatever is registered: exactly
  // those whose joined text does not speak twice, and so all those without a line feed.
  lemma LineEarnsAtMostOne(lib: Lib, c: Command)
    ensures (forall table: Table :: ClientCommand(lib, LineText, table, c).earns <= 1) <==> !SpeaksTwice(Joined(c))
    ensures LF !in Joined(c) ==> forall table: Table :: ClientCommand(lib, LineText, table, c).earns <= 1
  {
    hide Ends, RequestEffect, Requests, Effect, SpeaksTwice;
    var s := Joined(c) + CRLF;
    assert Encode(lib, LineText, c) == s;
    if !SpeaksTwice(Joined(c)) {
      forall table: Table
        ensures StreamEffect(LineText, table, s).earns <= 1
      {
        SpeaksOnceEarnsOnce(table, Joined(c));
      }
    } else {
      SpeaksTwiceEarnsTwice(Joined(c));
      assert ClientCommand(lib, LineText, map[], c).earns >= 2;
    }
    if LF !in Joined(c) {
      OneLineSpeaksOnce(Joined(c));
    }
  }

  lemma RequestsStep(s: Bytes)
    ensures var next := LineClient.ReadWords(s);
            Requests(LineText, s)
            == if next.Fail? then ([], next.error)
               else ([next.value] + Requests(LineText, next.rest).0, Requests(LineText, next.rest).1)
  {
    hide LineClient.ReadWords;
  }

  lemma EffectStep(table: Table, s: Bytes)
    ensures var next := LineClient.ReadWords(s);
            StreamEffect(LineText, table, s)
            == if next.Fail? then PM.Command(0, {}, {}, next.error != Eof)
               else if Ends(next.value) then PM.Command(0, {}, {}, true)
               else Then(RequestEffect(table, next.value), StreamEffect(LineText, table, next.rest))
  {
    hide LineClient.ReadWords, RequestEffect, Requests, Ends;
    RequestsStep(s);
    EmptyEnds(LineText);
    var next := LineClient.ReadWords(s);
    if next.Ok? {
      var rs := Requests(LineText, next.rest).0;
      assert ([next.value] + rs)[1..] == rs;
    }
  }

  lemma SpeaksOnceEarnsOnce(table: Table, j: Bytes)
    requires !SpeaksTwice(j)
    ensures StreamEffect(LineText, table, j + CRLF).earns <= 1
  {
    hide Ends, FireAndForget, StreamEffect, LineClient.ReadWords;
    EmptyEnds(LineText);
    EffectStep(table, j + CRLF);
    var first := LineClient.ReadWords(j + CRLF);
    if first.Ok? {
      EffectStep(table, first.rest);
    }
  }

  lemma SpeaksTwiceEarnsTwice(j: Bytes)
    requires SpeaksTwice(j)
    ensures StreamEffect(LineText, map[], j + CRLF).earns >= 2
  {
    hide Ends, StreamEffect, LineClient.ReadWords;
    EmptyEnds(LineText);
    EffectStep(map[], j + CRLF);
    var first := LineClient.ReadWords(j + CRLF);
    EffectStep(map[], first.rest);
  }

  // Without a line feed in its joined line, a pool may carry exactly the commands that do
  // not read as a subscription.
  lemma LineFitExactly(lib: Lib, table: Table, c: Command, maxIdle: int)
    requires LF !in Joined(c)
    ensures PM.Fit(ClientCommand(lib, LineText, table, c), maxIdle)
            <==> !(OneLine(Joined(c)) && Subscribing(table, LineClient.Split(Joined(c))))
  {
    hide Requests, Subscribing, LineClient.Split;
    var j := Joined(c);
    assert Encode(lib, LineText, c) == j + CRLF;
    PlainRequests(j);
    if OneLine(j) {
      hide Effect, PM.Fit;
      OneRequest(LineText, table, LineClient.Split(j), maxIdle);
    }
  }

  // ---------- the pool of such clients ----------

  // A class of client commands, as the pool sees them.
  ghost function Class(lib: Lib, p: Protocol, table: Table, allowed: Command -> bool): PM.Command -> bool {
    m => exists c :: allowed(c) && m == ClientCommand(lib, p, table, c)
  }

  // Every call of every run gets its own reply, if and only if every command a client may
  // give to Do is fit.
  lemma ClientsSafeExactly(maxIdle: int, lib: Lib, p: Protocol, table: Table, allowed: Command -> bool)
    ensures PM.Safe(maxIdle, Class(lib, p, table, allowed))
            <==> forall c :: allowed(c) ==> PM.Fit(ClientCommand(lib, p, table, c), maxIdle)
  {
    hide PM.Safe, PM.Fit, ClientCommand;
    var seen := Class(lib, p, table, allowed);
    PM.SafeExactly(maxIdle, seen);
    if forall m :: seen(m) ==> PM.Fit(m, maxIdle) {
      forall c | allowed(c)
        ensures PM.Fit(ClientCommand(lib, p, table, c), maxIdle)
      {
        assert seen(ClientCommand(lib, p, table, c));
      }
    }
  }

  // ---------- the failing inputs ----------

  const GET_NAME: Bytes := [71, 69, 84]
  const A_GET_B: Bytes := [97, 10, 71, 69, 84, 32, 98]  // a, line feed, GET b

  // GET with a line feed in its key, in the line form: two requests, both answered, so that
  // a pool that keeps connections must not carry it.
  lemma LineFeedEarnsTwo(lib: Lib, table: Table, maxIdle: int)
    requires GET_NAME in table && table[GET_NAME] == Stats(GET) && maxIdle >= 1
    ensures var c := Command(GET_NAME, [A_GET_B]);
            && Requests(LineText, Encode(lib, LineText, c)) == ([[GET_NAME, [97]], [GET_NAME, [98]]], Eof)
            && ClientCommand(lib, LineText, table, c) == PM.Command(2, {}, {}, false)
            && !PM.Fit(ClientCommand(lib, LineText, table, c), maxIdle)
  {
    hide Requests, Effect, Encode, GET_NAME, A_GET_B;
    TwoGetsEncoded(lib);
    TwoGetsRead();
    TwoGets(table);
  }

  const GET_A: Bytes := [71, 69, 84, 32, 97]
  const GET_B: Bytes := [71, 69, 84, 32, 98]

  lemma TwoGetsEncoded(lib: Lib)
    ensures Encode(lib, LineText, Command(GET_NAME, [A_GET_B])) == GET_A + [LF] + (GET_B + CRLF)
  {
    var c := Command(GET_NAME, [A_GET_B]);
    assert Upper(GET_NAME) == GET_NAME;
    assert Parts(c) == [GET_NAME, A_GET_B];
    JoinTwo(GET_NAME, A_GET_B);
    assert GET_NAME + [SPACE] + A_GET_B == GET_A + [LF] + GET_B;
  }

  lemma TwoGetsRead()
    ensures Requests(LineText, GET_A + [LF] + (GET_B + CRLF)) == ([[GET_NAME, [97]], [GET_NAME, [98]]], Eof)
  {
    hide Requests, LineClient.ReadWords, LineClient.Split;
    GetLine(GET_A, GET_B + CRLF);
    RequestsStep(GET_A + [LF] + (GET_B + CRLF));
    PlainRequests(GET_B);
    SplitGet(GET_A, 97);
    SplitGet(GET_B, 98);
    assert [[GET_NAME, [97]]] + [[GET_NAME, [98]]] == [[GET_NAME, [97]], [GET_NAME, [98]]];
  }

  lemma SplitGet(line: Bytes, b: byte)
    requires line == GET_NAME + [SPACE] + [b] && b != SPACE
    ensures LineClient.Split(line) == [GET_NAME, [b]]
  {
    hide LineClient.Split;
    LineClient.SplitWord(GET_NAME, [b]);
    LineClient.SplitWord([b], []);
  }

  lemma JoinTwo(a: Bytes, b: Bytes)
    ensures LineClient.Join([a, b]) == a + [SPACE] + b
  {
    assert [a, b][1..] == [b];
    assert LineClient.Join([b]) == b;
  }

  lemma GetLine(line: Bytes, rest: Bytes)
    requires LF !in line && 2 <= |line| < LINE_BUFFER && line[|line| - 1] != CR && line[|line| - 1] != SPACE
    ensures LineClient.ReadWords(line + [LF] + rest) == Ok(LineClient.Split(line), rest)
  {
    var s := line + [LF] + rest;
    IndexOfIs(s, LF, |line|);
    assert s[..|line| + 1][..|line|] == line && s[|line| + 1..] == rest;
  }

  lemma GetEffect(table: Table, key: Bytes)
    requires GET_NAME in table && table[GET_NAME] == Stats(GET)
    ensures !Ends([GET_NAME, key]) && RequestEffect(table, [GET_NAME, key]) == PM.Command(1, {}, {}, false)
  {
    assert Upper(GET_NAME) == GET_NAME && |GET_NAME| != |QUIT_NAME|;
  }

  lemma TwoGets(table: Table)
    requires GET_NAME in table && table[GET_NAME] == Stats(GET)
    ensures Effect(LineText, table, [[GET_NAME, [97]], [GET_NAME, [98]]], Eof) == PM.Command(2, {}, {}, false)
  {
    hide Ends, RequestEffect;
    GetEffect(table, [97]);
    GetEffect(table, [98]);
    var rs: seq<Request> := [[GET_NAME, [97]], [GET_NAME, [98]]];
    assert rs[1..] == [[GET_NAME, [98]]] && rs[1..][1..] == [];
    assert Effect(LineText, table, rs[1..], Eof) == PM.Command(1, {}, {}, false);
  }

  // A subscription, in the redis form: no pool may carry it, whatever its size.
  lemma SubscriptionIsUnfit(lib: Lib, table: Table, c: Command, maxIdle: int)
    requires Carried(Redis, c) && c.texts != [] && Upper(c.name) in table
    requires table[Upper(c.name)] == SUBSCRIBE && Upper(c.name) != QUIT_NAME
    ensures !PM.Fit(ClientCommand(lib, Redis, table, c), maxIdle)
  {
    hide Carried, ClientCommand, PM.Fit, Upper;
    UpperIdempotent(c.name);
    RedisFitExactly(lib, table, c, maxIdle);
  }

  // What then goes wrong: a run on which a call returns another call's reply, or a
  // publication.
  lemma UnfitGoesWrong(lib: Lib, p: Protocol, table: Table, c: Command, maxIdle: int)
    returns (steps: seq<PM.Step>, q: PM.Pool)
    requires !PM.Fit(ClientCommand(lib, p, table, c), maxIdle)
    ensures PM.Reaches(PM.EMPTY, maxIdle, steps, q) && PM.Uses(steps, ClientCommand(lib, p, table, c))
    ensures !PM.OwnResults(q)
  {
    hide PM.Fit, PM.Reaches, PM.Uses, PM.OwnResults;
    steps, q := PM.WrongRun(maxIdle, ClientCommand(lib, p, table, c));
  }
}
