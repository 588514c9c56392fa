// Several connections served at once: their request loops take turns on one store, in any
// order, and each client still gets the replies to its own requests and nothing else.

module Connections {
  import opened ByteStrings
  import opened Wire
  import opened BufferClients
  import opened RoundTrip
  import opened StatsMachine
  import opened StatsReplies
  import opened ProtocolServers
  import opened Pipeline
  import Laws = StatsLaws

  // One thing handled: a request of a connection, or a flush of the counters.
  datatype Entry = Asked(conn: nat, request: Request) | Flushed(interval: real)

  // Whose turn it is: a connection's request loop, or the flush timer's.
  datatype Slot = Loop(conn: nat) | Timer(interval: real)

  // What is left of each connection's stream while it is open, and what was handled so far.
  datatype Merge = Merge(streams: seq<Option<Bytes>>, log: seq<Entry>)

  function Advance(p: Protocol, m: Merge, slot: Slot): (r: Merge)
    requires slot.Loop? ==> slot.conn < |m.streams|
    ensures |r.streams| == |m.streams|
  {
    match slot
    case Timer(interval) => Merge(m.streams, m.log + [Flushed(interval)])
    case Loop(i) =>
      if m.streams[i].None? then m
      else match NextRequest(p, m.streams[i].value)
        case Fail(_) => Merge(m.streams[i := None], m.log)
        case Ok(request, rest) =>
          Merge(m.streams[i := if Ends(request) then None else Some(rest)], m.log + [Asked(i, request)])
  }

  function Opened(streams: seq<Bytes>): (r: seq<Option<Bytes>>)
    ensures |r| == |streams| && forall i :: 0 <= i < |streams| ==> r[i] == Some(streams[i])
  {
    seq(|streams|, i requires 0 <= i < |streams| => Some(streams[i]))
  }

  predicate Proper(slot: Slot, n: nat) {
    match slot
    case Loop(i) => i < n
    case Timer(interval) => interval > 0.0
  }

  predicate Schedules(schedule: seq<Slot>, n: nat) {
    forall k :: 0 <= k < |schedule| ==> Proper(schedule[k], n)
  }

  predicate Timed(log: seq<Entry>) {
    forall k :: 0 <= k < |log| && log[k].Flushed? ==> log[k].interval > 0.0
  }

  function Merged(p: Protocol, streams: seq<Bytes>, schedule: seq<Slot>): (r: Merge)
    requires Schedules(schedule, |streams|)
    ensures |r.streams| == |streams| && Timed(r.log)
  {
    if schedule == [] then Merge(Opened(streams), [])
    else
      assert Proper(schedule[|schedule| - 1], |streams|);
      Advance(p, Merged(p, streams, schedule[..|schedule| - 1]), schedule[|schedule| - 1])
  }

  // What handling one entry does to the store and earns the connection that asked.
  function Handle(lib: Lib, p: Protocol, table: map<Bytes, Handler>, st: Store, entry: Entry): (Store, seq<Reply>)
    requires entry.Flushed? ==> entry.interval > 0.0
  {
    match entry
    case Flushed(interval) => (Flush(st, interval), [])
    case Asked(_, request) =>
      if Ends(request) then (st, Farewell(p, request))
      else
        var (st', reply) := Respond(lib, table, st, request);
        (st', Spoken(reply))
  }

  // The merged run on the sequential machine: the store, and what each entry earned.
  function ServeLog(lib: Lib, p: Protocol, table: map<Bytes, Handler>, st: Store, log: seq<Entry>)
    : (r: (Store, seq<seq<Reply>>))
    requires Timed(log)
    ensures |r.1| == |log|
  {
    if log == [] then (st, [])
    else
      var (st1, earned) := ServeLog(lib, p, table, st, log[..|log| - 1]);
      var (st2, said) := Handle(lib, p, table, st1, log[|log| - 1]);
      (st2, earned + [said])
  }

  predicate Asks(entry: Entry, i: nat) {
    entry.Asked? && entry.conn == i
  }

  // What the requests of connection i earned, in order.
  function Share(log: seq<Entry>, earned: seq<seq<Reply>>, i: nat): seq<Reply>
    requires |earned| == |log|
  {
    if log == [] then []
    else
      var n := |log| - 1;
      Share(log[..n], earned[..n], i) + if Asks(log[n], i) then earned[n] else []
  }

  // The requests of connection i, in order.
  function Own(log: seq<Entry>, i: nat): seq<Request> {
    if log == [] then []
    else
      var n := |log| - 1;
      Own(log[..n], i) + if Asks(log[n], i) then [log[n].request] else []
  }

  // ---------- the merged log ----------

  lemma OwnSnoc(log: seq<Entry>, entry: Entry, i: nat)
    ensures Own(log + [entry], i) == Own(log, i) + if Asks(entry, i) then [entry.request] else []
  {
    assert (log + [entry])[..|log|] == log;
  }

  // While a connection is open, its requests handled so far are the beginning of the
  // requests on its stream, none of them ending it, and the rest is still to come. When it
  // is closed, its last one ended it, or they were all there are.
  ghost predicate InOrder(p: Protocol, stream: Bytes, left: Option<Bytes>, own: seq<Request>) {
    if left.Some? then
      && Requests(p, stream).0 == own + Requests(p, left.value).0
      && Unending(own)
    else
      && own <= Requests(p, stream).0
      && (own == [] || Unending(own[..|own| - 1]))
      && (own == Requests(p, stream).0 || (own != [] && Ends(own[|own| - 1])))
  }

  lemma OrderKept(p: Protocol, stream: Bytes, left: Bytes, own: seq<Request>)
    requires InOrder(p, stream, Some(left), own)
    ensures match NextRequest(p, left)
      case Fail(_) => InOrder(p, stream, None, own)
      case Ok(request, rest) =>
        InOrder(p, stream, if Ends(request) then None else Some(rest), own + [request])
  {
    hide NextRequest, Ends;
    match NextRequest(p, left)
    case Fail(_) =>
      assert Requests(p, left).0 == [];
      assert own + [] == own;
    case Ok(request, rest) =>
      assert Requests(p, left).0 == [request] + Requests(p, rest).0;
      assert own + [request] + Requests(p, rest).0 == own + ([request] + Requests(p, rest).0);
      assert (own + [request])[..|own|] == own;
  }

  // Whatever the schedule, each connection's requests are handled in the order of its own
  // stream, none is skipped or invented, and it closes only at its end or where it asks to.
  lemma {:induction false} EachStreamInOrder(p: Protocol, streams: seq<Bytes>, schedule: seq<Slot>, i: nat)
    requires Schedules(schedule, |streams|) && i < |streams|
    ensures var m := Merged(p, streams, schedule);
            InOrder(p, streams[i], m.streams[i], Own(m.log, i))
  {
    hide InOrder, Requests, NextRequest, Ends, Own;
    if schedule == [] {
      NothingHandled(p, streams[i], i);
    } else {
      var front, slot := schedule[..|schedule| - 1], schedule[|schedule| - 1];
      assert Proper(slot, |streams|);
      var m := Merged(p, streams, front);
      EachStreamInOrder(p, streams, front, i);
      assert Own(m.log, i) + [] == Own(m.log, i);
      match slot
      case Timer(interval) => OwnSnoc(m.log, Flushed(interval), i);
      case Loop(j) =>
        if m.streams[j].Some? && NextRequest(p, m.streams[j].value).Ok? {
          OwnSnoc(m.log, Asked(j, NextRequest(p, m.streams[j].value).value), i);
        }
        if j == i && m.streams[i].Some? {
          OrderKept(p, streams[i], m.streams[i].value, Own(m.log, i));
        }
    }
  }

  lemma NothingHandled(p: Protocol, stream: Bytes, i: nat)
    ensures Own([], i) == [] && InOrder(p, stream, Some(stream), [])
  {
  }

  // ---------- replies at their places ----------

  lemma ServeLogSnoc(
    lib: Lib, p: Protocol, table: map<Bytes, Handler>, st: Store, log: seq<Entry>, entry: Entry)
    requires Timed(log) && (entry.Flushed? ==> entry.interval > 0.0)
    ensures Timed(log + [entry])
    ensures var (st1, earned) := ServeLog(lib, p, table, st, log);
            var (st2, said) := Handle(lib, p, table, st1, entry);
            ServeLog(lib, p, table, st, log + [entry]) == (st2, earned + [said])
  {
    hide Handle;
    var longer := log + [entry];
    assert longer[..|longer| - 1] == log;
  }

  lemma ShareSnoc(log: seq<Entry>, earned: seq<seq<Reply>>, entry: Entry, said: seq<Reply>, i: nat)
    requires |earned| == |log|
    ensures Share(log + [entry], earned + [said], i) == Share(log, earned, i) + if Asks(entry, i) then said else []
  {
    var longer, more := log + [entry], earned + [said];
    assert longer[..|log|] == log && more[..|log|] == earned;
  }

  // Each entry does and earns what the machine says on the store as everything handled
  // before it, of whatever connection, left it.
  lemma {:induction false} EarnedInPlace(
    lib: Lib, p: Protocol, table: map<Bytes, Handler>, st: Store, log: seq<Entry>, k: nat)
    requires Timed(log) && k < |log|
    ensures ServeLog(lib, p, table, st, log).1[k]
            == Handle(lib, p, table, ServeLog(lib, p, table, st, log[..k]).0, log[k]).1
  {
    hide Handle;
    var n := |log| - 1;
    if k < n {
      EarnedInPlace(lib, p, table, st, log[..n], k);
      assert log[..n][..k] == log[..k];
    }
  }

  lemma OneMoreOwed(
    lib: Lib, p: Protocol, table: map<Bytes, Handler>, st: Store, log: seq<Entry>, request: Request, i: nat)
    requires Timed(log) && Unending(Own(log, i))
    requires |Share(log, ServeLog(lib, p, table, st, log).1, i)| == Owed(p, table, Own(log, i))
    ensures var longer := log + [Asked(i, request)];
            |Share(longer, ServeLog(lib, p, table, st, longer).1, i)| == Owed(p, table, Own(log, i) + [request])
  {
    hide Ends, Respond, Farewell, Spoken, Unending, Bearing, Share, ServeLog, Own, Owed;
    var r := ServeLog(lib, p, table, st, log);
    ServeLogSnoc(lib, p, table, st, log, Asked(i, request));
    OwedSnoc(p, table, Own(log, i), request);
    ShareSnoc(log, r.1, Asked(i, request), Handle(lib, p, table, r.0, Asked(i, request)).1, i);
    if !Ends(request) {
      assert request != [] by {
        EmptyEnds(p);
      }
      BearingSpeaks(lib, table, r.0, request);
    }
  }

  lemma OthersOwedNothing(
    lib: Lib, p: Protocol, table: map<Bytes, Handler>, st: Store, log: seq<Entry>, entry: Entry, i: nat)
    requires Timed(log) && (entry.Flushed? ==> entry.interval > 0.0) && !Asks(entry, i)
    ensures var longer := log + [entry];
            Share(longer, ServeLog(lib, p, table, st, longer).1, i) == Share(log, ServeLog(lib, p, table, st, log).1, i)
  {
    hide Handle, Share, ServeLog;
    var r := ServeLog(lib, p, table, st, log);
    ServeLogSnoc(lib, p, table, st, log, entry);
    ShareSnoc(log, r.1, entry, Handle(lib, p, table, r.0, entry).1, i);
    assert Share(log, r.1, i) + [] == Share(log, r.1, i);
  }

  // How many replies a connection gets depends on its own requests alone, whatever the
  // other connections do to the store.
  lemma {:induction false} ShareIsOwed(
    lib: Lib, p: Protocol, table: map<Bytes, Handler>, st: Store, log: seq<Entry>, i: nat)
    requires Timed(log) && (Own(log, i) == [] || Unending(Own(log, i)[..|Own(log, i)| - 1]))
    ensures |Share(log, ServeLog(lib, p, table, st, log).1, i)| == Owed(p, table, Own(log, i))
  {
    hide Unending, ServeLog;
    if log != [] {
      var n := |log| - 1;
      var front, entry := log[..n], log[n];
      assert log == front + [entry];
      OwnSnoc(front, entry, i);
      if Asks(entry, i) {
        assert Own(log, i)[..|Own(log, i)| - 1] == Own(front, i);
        StillUnending(Own(front, i));
        ShareIsOwed(lib, p, table, st, front, i);
        OneMoreOwed(lib, p, table, st, front, entry.request, i);
      } else {
        assert Own(front, i) + [] == Own(front, i);
        ShareIsOwed(lib, p, table, st, front, i);
        OthersOwedNothing(lib, p, table, st, front, entry, i);
      }
    }
  }

  lemma StillUnending(own: seq<Request>)
    ensures Unending(own) ==> own == [] || Unending(own[..|own| - 1])
  {
  }

  lemma {:induction false} OwedSnoc(p: Protocol, table: map<Bytes, Handler>, own: seq<Request>, request: Request)
    requires Unending(own)
    ensures Owed(p, table, own + [request])
            == Owed(p, table, own)
               + if Ends(request) then |Farewell(p, request)|
                 else if Bearing(table, request) then 1 else 0
  {
    hide Ends, Bearing, Farewell;
    var longer := own + [request];
    if own == [] {
      assert longer == [request] && longer[1..] == [];
    } else {
      assert longer[1..] == own[1..] + [request] && longer[0] == own[0];
      OwedSnoc(p, table, own[1..], request);
    }
  }

  // In a merged run, each connection gets the number of replies its own requests are owed.
  lemma EachConnectionGetsItsOwn(
    lib: Lib, p: Protocol, table: map<Bytes, Handler>, st: Store, streams: seq<Bytes>, schedule: seq<Slot>, i: nat)
    requires Schedules(schedule, |streams|) && i < |streams|
    ensures var log := Merged(p, streams, schedule).log;
            |Share(log, ServeLog(lib, p, table, st, log).1, i)| == Owed(p, table, Own(log, i))
  {
    hide Merged, Unending, Requests, Share, ServeLog, Owed;
    var m := Merged(p, streams, schedule);
    EachStreamInOrder(p, streams, schedule, i);
    StillUnending(Own(m.log, i));
    ShareIsOwed(lib, p, table, st, m.log, i);
  }

  // ---------- what each client reads ----------

  // Every request of connection i asks for what can be sent, on the store where it is
  // handled.
  predicate SpeakableIn(
    lib: Lib, p: Protocol, table: map<Bytes, Handler>, st: Store, log: seq<Entry>, i: nat)
    requires Timed(log)
  {
    log == [] ||
    var n := |log| - 1;
    && SpeakableIn(lib, p, table, st, log[..n], i)
    && (Asks(log[n], i) && !Ends(log[n].request) ==>
          Speakable(lib, table, ServeLog(lib, p, table, st, log[..n]).0, log[n].request))
  }

  function LogWords(log: seq<Entry>): nat {
    if log == [] then 0
    else
      var n := |log| - 1;
      LogWords(log[..n]) + if log[n].Asked? then |log[n].request| else 0
  }

  lemma FlushSound(st: Store, interval: real, n: int)
    requires Sound(st, n) && interval > 0.0
    ensures Sound(Flush(st, interval), n)
  {
    hide FlushTally;
    var st' := Flush(st, interval);
    assert st'.counters.Keys == st.counters.Keys;
    forall k | k in st'.counters
      ensures IsInt64(st'.counters[k].value)
    {
      FlushedValue(st.counters[k], interval);
    }
    assert AllMembers(st') == AllMembers(st);
  }

  lemma FlushedValue(t: Tally, interval: real)
    requires interval > 0.0
    ensures FlushTally(t, interval).value == 0
  {
  }

  // One entry keeps the store sound, and earns what can be carried exactly when it asks for
  // what can be sent.
  lemma HandleCarriable(
    lib: Lib, p: Protocol, table: map<Bytes, Handler>, st: Store, entry: Entry, n: int)
    requires Sound(st, n) && (entry.Flushed? ==> entry.interval > 0.0)
    requires entry.Asked? ==> n + |entry.request| <= MAX_INT64
    ensures var r := Handle(lib, p, table, st, entry);
            && Sound(r.0, n + if entry.Asked? then |entry.request| else 0)
            && ((forall reply <- r.1 :: Carriable(reply))
                <==> (entry.Asked? && !Ends(entry.request) ==> Speakable(lib, table, st, entry.request)))
  {
    hide Sound, Carriable, Speakable, Respond, Ends;
    match entry
    case Flushed(interval) => FlushSound(st, interval, n);
    case Asked(_, request) =>
      if Ends(request) {
        FixedTextsFit();
        SoundGrows(st, n, n + |request|);
      } else {
        assert request != [] by {
          EmptyEnds(p);
        }
        RespondCarriable(lib, table, st, request, n);
        if Respond(lib, table, st, request).1 == Silent {
          SilentSpeakable(lib, table, st, request);
        }
      }
  }

  lemma SoundGrows(st: Store, n: int, m: int)
    requires Sound(st, n) && n <= m
    ensures Sound(st, m)
  {
  }

  // A client can be told its share exactly when each of its requests is speakable.
  lemma {:induction false} ShareCarriable(
    lib: Lib, p: Protocol, table: map<Bytes, Handler>, st: Store, log: seq<Entry>, i: nat, n: int)
    requires Timed(log) && Sound(st, n) && n + LogWords(log) <= MAX_INT64
    ensures Sound(ServeLog(lib, p, table, st, log).0, n + LogWords(log))
    ensures (forall reply <- Share(log, ServeLog(lib, p, table, st, log).1, i) :: Carriable(reply))
            <==> SpeakableIn(lib, p, table, st, log, i)
  {
    hide Sound, Carriable, Speakable, Handle, Ends;
    if log != [] {
      var front, entry := log[..|log| - 1], log[|log| - 1];
      ShareCarriable(lib, p, table, st, front, i, n);
      var r := ServeLog(lib, p, table, st, front);
      var said := Handle(lib, p, table, r.0, entry).1;
      HandleCarriable(lib, p, table, r.0, entry, n + LogWords(front));
      assert log == front + [entry];
      ServeLogSnoc(lib, p, table, st, front, entry);
      ShareSnoc(front, r.1, entry, said, i);
      AllOf(Share(front, r.1, i), if Asks(entry, i) then said else []);
    }
  }

  // Each client reads back exactly its share, to the last byte, if and only if each of its
  // requests is speakable on the store where it is handled.
  lemma EachClientReadsItsShare(
    lib: Lib, p: Protocol, table: map<Bytes, Handler>, st: Store, log: seq<Entry>, i: nat, ms: seq<Message>, n: int)
    requires Timed(log) && Sound(st, n) && n + LogWords(log) <= MAX_INT64
    requires DeliversAll(ms, Share(log, ServeLog(lib, p, table, st, log).1, i))
    ensures ReadMany(lib, |ms|, EmitAll(lib, ms)) == Ok(Meanings(lib, ms), [])
            <==> SpeakableIn(lib, p, table, st, log, i)
    ensures var share := Share(log, ServeLog(lib, p, table, st, log).1, i);
            |ms| == |share| && forall k :: 0 <= k < |ms| ==> Conveys(Meanings(lib, ms)[k], share[k])
  {
    hide Share, ServeLog, SpeakableIn, Sound, ReadMany, EmitAll, Conveys, Carriable, DeliversAll;
    ShareCarriable(lib, p, table, st, log, i, n);
    FramesReadBack(lib, ms, Share(log, ServeLog(lib, p, table, st, log).1, i));
  }

  // ---------- the laws hold of live connections ----------

  // The log as a run of commands and flushes.
  function Events(table: map<Bytes, Handler>, log: seq<Entry>): seq<Laws.Event> {
    if log == [] then []
    else
      var n := |log| - 1;
      Events(table, log[..n]) + EventOf(table, log[n])
  }

  function EventOf(table: map<Bytes, Handler>, entry: Entry): seq<Laws.Event> {
    match entry
    case Flushed(interval) => [Laws.Tick(interval)]
    case Asked(_, request) =>
      if Ends(request) || Upper(request[0]) !in table then []
      else [Laws.Request(table[Upper(request[0])], request[1..])]
  }

  lemma HandleIsRun(lib: Lib, p: Protocol, table: map<Bytes, Handler>, st: Store, entry: Entry)
    requires entry.Flushed? ==> entry.interval > 0.0
    ensures Laws.Timed(EventOf(table, entry))
    ensures Laws.Run(lib, st, EventOf(table, entry)) == Handle(lib, p, table, st, entry).0
  {
    hide Ends, Apply;
    EmptyEnds(p);
    var evs := EventOf(table, entry);
    if evs != [] {
      assert evs[1..] == [];
    }
  }

  // The store of a merged run is that of the run of its commands and flushes.
  lemma {:induction false} LogIsRun(lib: Lib, p: Protocol, table: map<Bytes, Handler>, st: Store, log: seq<Entry>)
    requires Timed(log)
    ensures Laws.Timed(Events(table, log))
    ensures ServeLog(lib, p, table, st, log).0 == Laws.Run(lib, st, Events(table, log))
  {
    hide Handle, Laws.Run, EventOf;
    if log == [] {
      Laws.RunNothing(lib, st);
    } else {
      var front, entry := log[..|log| - 1], log[|log| - 1];
      LogIsRun(lib, p, table, st, front);
      HandleIsRun(lib, p, table, ServeLog(lib, p, table, st, front).0, entry);
      Laws.RunAppend(lib, st, Events(table, front), EventOf(table, entry));
    }
  }

  // So over any schedule of connections and flushes: the size of a set is what its replies
  // say, and a counter is what was counted minus what was taken.
  lemma LiveConservation(
    lib: Lib, p: Protocol, table: map<Bytes, Handler>, st: Store, streams: seq<Bytes>, schedule: seq<Slot>, key: Bytes)
    requires Schedules(schedule, |streams|) && Fits(st)
    ensures var log := Merged(p, streams, schedule).log;
            var evs := Events(table, log);
            var after := ServeLog(lib, p, table, st, log).0;
            && Laws.Timed(evs)
            && |SetAt(after, key)| == |SetAt(st, key)| + Laws.Ledger(lib, st, evs, key)
            && Laws.CountAt(after, key)
               == Wrap(Laws.CountAt(st, key) + Laws.TotalAdded(evs, key) - Laws.TotalTaken(lib, st, evs, key))
  {
    hide ServeLog, Merged, Events, Fits, SetAt, Wrap;
    hide Laws.Run, Laws.Ledger, Laws.TotalAdded, Laws.TotalTaken, Laws.CountAt;
    var log := Merged(p, streams, schedule).log;
    LogIsRun(lib, p, table, st, log);
    Laws.SetConservation(lib, st, Events(table, log), key);
    Laws.CounterConservation(lib, st, Events(table, log), key);
  }

  // ---------- the live connections ----------

  // One turn of a request loop is one step of the merged run.
  lemma TurnIsAdvance(
    lib: Lib, p: Protocol, table: map<Bytes, Handler>, st: Store, m: Merge, i: nat)
    requires i < |m.streams| && m.streams[i].Some? && Timed(m.log)
    ensures var r := ServeLog(lib, p, table, st, m.log);
            var t := TakeTurn(lib, p, table, r.0, m.streams[i].value);
            var m' := Advance(p, m, Loop(i));
            && Timed(m'.log)
            && var r' := ServeLog(lib, p, table, st, m'.log);
            && m'.streams == m.streams[i := t.rest]
            && r'.0 == t.store
            && forall j: nat :: Share(m'.log, r'.1, j) == Share(m.log, r.1, j) + if j == i then t.said else []
  {
    hide Ends, Respond, Farewell, Spoken, NextRequest, Share, ServeLog;
    var r := ServeLog(lib, p, table, st, m.log);
    var t := TakeTurn(lib, p, table, r.0, m.streams[i].value);
    match NextRequest(p, m.streams[i].value)
    case Fail(_) =>
      forall j: nat
        ensures Share(m.log, r.1, j) + (if j == i then t.said else []) == Share(m.log, r.1, j)
      {
      }
    case Ok(request, rest) =>
      ServeLogSnoc(lib, p, table, st, m.log, Asked(i, request));
      forall j: nat
        ensures Share(m.log + [Asked(i, request)], r.1 + [t.said], j)
                == Share(m.log, r.1, j) + if j == i then t.said else []
      {
        ShareSnoc(m.log, r.1, Asked(i, request), t.said, j);
      }
  }

  ghost predicate Distinct(clients: seq<BufferClient>) {
    forall i, j :: 0 <= i < j < |clients| ==> clients[i] != clients[j]
  }

  ghost predicate AllReady(clients: seq<BufferClient>, lib: Lib)
    reads clients
  {
    forall i :: 0 <= i < |clients| ==> clients[i].Valid() && clients[i].lib == lib
  }

  ghost function Rests(clients: seq<BufferClient>): (r: seq<Bytes>)
    requires forall i :: 0 <= i < |clients| ==> clients[i].Valid()
    reads clients
    ensures |r| == |clients| && forall i :: 0 <= i < |clients| ==> r[i] == clients[i].Rest()
  {
    seq(|clients|, i requires 0 <= i < |clients| reads clients requires clients[i].Valid() => clients[i].Rest())
  }

  // Where the merged run stands, told on the live connections: who is still open and
  // what it has left to read, and what each has been sent since the start.
  ghost predicate Stands(
    lib: Lib, clients: seq<BufferClient>, going: seq<bool>, sent: seq<Bytes>, ms: seq<seq<Message>>,
    m: Merge, earned: seq<seq<Reply>>)
    requires |earned| == |m.log|
    reads clients
  {
    && |going| == |sent| == |ms| == |m.streams| == |clients|
    && (forall i :: 0 <= i < |clients| ==> Open(clients[i], going[i], m.streams[i]))
    && (forall i :: 0 <= i < |clients| ==> clients[i].written == sent[i] + EmitAll(lib, ms[i]))
    && (forall i :: 0 <= i < |clients| ==> DeliversAll(ms[i], Share(m.log, earned, i)))
  }

  ghost predicate Open(client: BufferClient, going: bool, left: Option<Bytes>)
    reads client
  {
    going == left.Some? && (going ==> client.Valid() && client.Rest() == left.value)
  }

  lemma OpenMeans(client: BufferClient, going: bool, left: Option<Bytes>)
    ensures Open(client, going, left)
            <==> going == left.Some? && (going ==> client.Valid() && client.Rest() == left.value)
  {
  }

  lemma AtTheStart(lib: Lib, clients: seq<BufferClient>)
    requires AllReady(clients, lib)
    ensures Stands(lib, clients, seq(|clients|, _ => true), Output(clients), seq(|clients|, _ => []),
                   Merge(Opened(Rests(clients)), []), [])
  {
    forall i | 0 <= i < |clients|
      ensures clients[i].written == Output(clients)[i] + EmitAll(lib, [])
      ensures DeliversAll([], Share([], [], i))
    {
    }
  }

  ghost function Output(clients: seq<BufferClient>): (r: seq<Bytes>)
    reads clients
    ensures |r| == |clients| && forall i :: 0 <= i < |clients| ==> r[i] == clients[i].written
  {
    seq(|clients|, i requires 0 <= i < |clients| reads clients => clients[i].written)
  }

  // The turn of one connection among several.
  method OneTurn(
    server: ProtocolServer, clients: seq<BufferClient>, going: seq<bool>, i: nat, ghost lib: Lib, ghost st: Store,
    ghost sent: seq<Bytes>, ghost ms: seq<seq<Message>>, ghost m: Merge)
    returns (going': seq<bool>, ghost ms': seq<seq<Message>>)
    requires server.stats.mem.Valid() && Distinct(clients) && i < |clients|
    requires (forall j :: 0 <= j < |clients| ==> clients[j].lib == lib) && Timed(m.log)
    requires var r := ServeLog(lib, server.protocol, server.ctx.commands, st, m.log);
             && server.stats.mem.Contents() == r.0
             && Stands(lib, clients, going, sent, ms, m, r.1)
    modifies clients, server.stats.mem, server.stats.mem.counters.Values, server.stats.mem.sets.Values
    ensures server.stats.mem.Valid()
    ensures fresh(server.stats.mem.counters.Values - old(server.stats.mem.counters.Values))
    ensures fresh(server.stats.mem.sets.Values - old(server.stats.mem.sets.Values))
    ensures var m' := Advance(server.protocol, m, Loop(i));
            && Timed(m'.log)
            && var r := ServeLog(lib, server.protocol, server.ctx.commands, st, m'.log);
            && server.stats.mem.Contents() == r.0
            && Stands(lib, clients, going', sent, ms', m', r.1)
  {
    hide MemoryBackends.MemoryBackend.Contents, MemoryBackends.MemoryBackend.Valid;
    hide ServeLog, TakeTurn, EmitAll, DeliversAll, Share, Advance, Open, BufferClient.Valid, BufferClient.Rest;
    going', ms' := going, ms;
    OpenMeans(clients[i], going[i], m.streams[i]);
    if going[i] {
      ghost var protocol, table := server.protocol, server.ctx.commands;
      ghost var r := ServeLog(lib, protocol, table, st, m.log);
      ghost var t := TakeTurn(lib, protocol, table, r.0, m.streams[i].value);
      TurnIsAdvance(lib, protocol, table, st, m, i);
      var goes, said := server.RunTurn(clients[i]);
      OpenMeans(clients[i], goes, t.rest);
      Accumulate(lib, sent[i], ms[i], said, Share(m.log, r.1, i), t.said);
      going', ms' := going[i := goes], ms[i := ms[i] + said];
      ghost var m' := Advance(protocol, m, Loop(i));
      ghost var earned := ServeLog(lib, protocol, table, st, m'.log).1;
      forall j | 0 <= j < |clients|
        ensures DeliversAll(ms'[j], Share(m'.log, earned, j))
      {
        assert Share(m.log, r.1, j) + [] == Share(m.log, r.1, j);
      }
    } else {
      ClosedStays(server.protocol, m, i);
    }
  }

  lemma ClosedStays(p: Protocol, m: Merge, i: nat)
    requires i < |m.streams| && m.streams[i].None?
    ensures Advance(p, m, Loop(i)) == m
  {
  }

  // The turn of the flush timer: no client notices.
  method FlushTurn(
    server: ProtocolServer, ghost clients: seq<BufferClient>, ghost going: seq<bool>, interval: real, ghost lib: Lib,
    ghost st: Store, ghost sent: seq<Bytes>, ghost ms: seq<seq<Message>>, ghost m: Merge)
    requires server.stats.mem.Valid() && interval > 0.0 && Timed(m.log)
    requires var r := ServeLog(lib, server.protocol, server.ctx.commands, st, m.log);
             && server.stats.mem.Contents() == r.0
             && Stands(lib, clients, going, sent, ms, m, r.1)
    modifies server.stats.mem.counters.Values
    ensures server.stats.mem.Valid()
    ensures var m' := Advance(server.protocol, m, Timer(interval));
            && Timed(m'.log)
            && var r := ServeLog(lib, server.protocol, server.ctx.commands, st, m'.log);
            && server.stats.mem.Contents() == r.0
            && Stands(lib, clients, going, sent, ms, m', r.1)
  {
    hide MemoryBackends.MemoryBackend.Contents, MemoryBackends.MemoryBackend.Valid;
    hide ServeLog, EmitAll, DeliversAll, Share, Open;
    ghost var r := ServeLog(lib, server.protocol, server.ctx.commands, st, m.log);
    ServeLogSnoc(lib, server.protocol, server.ctx.commands, st, m.log, Flushed(interval));
    forall j: nat
      ensures Share(m.log + [Flushed(interval)], r.1 + [[]], j) == Share(m.log, r.1, j)
    {
      ShareSnoc(m.log, r.1, Flushed(interval), [], j);
      assert Share(m.log, r.1, j) + [] == Share(m.log, r.1, j);
    }
    server.stats.mem.FlushCounters(interval);
  }

  // Several clients served in turns, with flushes in between, in the order of any schedule:
  // the store ends where the merged run of the sequential machine ends, and every client's frames deliver, in
  // order, exactly what its own requests earned there.
  method ServeTogether(server: ProtocolServer, clients: seq<BufferClient>, schedule: seq<Slot>, ghost lib: Lib)
    returns (ghost ms: seq<seq<Message>>)
    requires server.stats.mem.Valid() && Distinct(clients) && AllReady(clients, lib)
    requires Schedules(schedule, |clients|)
    modifies clients, server.stats.mem, server.stats.mem.counters.Values, server.stats.mem.sets.Values
    ensures server.stats.mem.Valid() && |ms| == |clients|
    ensures var log := Merged(server.protocol, old(Rests(clients)), schedule).log;
            var r := ServeLog(lib, server.protocol, server.ctx.commands, old(server.stats.mem.Contents()), log);
            && server.stats.mem.Contents() == r.0
            && forall i :: 0 <= i < |clients| ==>
                 && DeliversAll(ms[i], Share(log, r.1, i))
                 && clients[i].written == old(clients[i].written) + EmitAll(lib, ms[i])
  {
    hide MemoryBackends.MemoryBackend.Contents, MemoryBackends.MemoryBackend.Valid;
    hide EmitAll, DeliversAll, Share, Advance, Open;
    ghost var st, table := server.stats.mem.Contents(), server.ctx.commands;
    ghost var streams, sent := Rests(clients), Output(clients);
    AtTheStart(lib, clients);
    var going := seq(|clients|, _ => true);
    ms := seq(|clients|, _ => []);
    assert schedule[..0] == [];
    for k := 0 to |schedule|
      invariant server.stats.mem.Valid()
      invariant fresh(server.stats.mem.counters.Values - old(server.stats.mem.counters.Values))
      invariant fresh(server.stats.mem.sets.Values - old(server.stats.mem.sets.Values))
      invariant var m := Merged(server.protocol, streams, schedule[..k]);
                var r := ServeLog(lib, server.protocol, table, st, m.log);
                && server.stats.mem.Contents() == r.0
                && Stands(lib, clients, going, sent, ms, m, r.1)
    {
      assert schedule[..k + 1][..k] == schedule[..k];
      assert Proper(schedule[k], |clients|);
      ghost var m := Merged(server.protocol, streams, schedule[..k]);
      match schedule[k]
      case Loop(i) => going, ms := OneTurn(server, clients, going, i, lib, st, sent, ms, m);
      case Timer(interval) => FlushTurn(server, clients, going, interval, lib, st, sent, ms, m);
    }
    assert schedule[..|schedule|] == schedule;
  }
}
