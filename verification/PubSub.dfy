// Topic channels and the registry of connected clients.

// The channels as plain values, and what whole runs of them guarantee.
module PubSubMachine {
  import opened ByteStrings

  type Address = Bytes

  datatype Channel = Channel(size: int, clients: set<Address>)

  type Channels = map<Bytes, Channel>

  datatype Event =
    | Connect(a: Address)
    | Disconnect(a: Address)
    | Subscribe(a: Address, keys: seq<Bytes>)
    | Unsubscribe(a: Address, keys: seq<Bytes>)
    | Publish(d: seq<Bytes>)

  function Subscribers(topics: Channels, key: Bytes): set<Address> {
    if key in topics then topics[key].clients else {}
  }

  function Join(topics: Channels, key: Bytes, a: Address): Channels {
    if key !in topics then topics[key := Channel(1, {a})]
    else if a in topics[key].clients then topics
    else topics[key := Channel(topics[key].size + 1, topics[key].clients + {a})]
  }

  function Leave(topics: Channels, key: Bytes, a: Address): Channels {
    if key in topics && a in topics[key].clients
    then topics[key := Channel(topics[key].size - 1, topics[key].clients - {a})]
    else topics
  }

  function JoinAll(topics: Channels, keys: seq<Bytes>, a: Address): Channels {
    if keys == [] then topics
    else Join(JoinAll(topics, keys[..|keys| - 1], a), keys[|keys| - 1], a)
  }

  function LeaveAll(topics: Channels, keys: seq<Bytes>, a: Address): Channels {
    if keys == [] then topics
    else Leave(LeaveAll(topics, keys[..|keys| - 1], a), keys[|keys| - 1], a)
  }

  // A publication is looked at only when it has a message and its channel is not empty
  // by its own count.
  predicate Open(topics: Channels, d: seq<Bytes>) {
    |d| >= 2 && d[0] in topics && topics[d[0]].size > 0
  }

  // Whom a publication reaches.
  function Reached(topics: Channels, live: set<Address>, d: seq<Bytes>): set<Address> {
    if Open(topics, d) then topics[d[0]].clients * live else {}
  }

  // A publication drops the subscribers that are gone, but not from the count.
  function Prune(topics: Channels, live: set<Address>, d: seq<Bytes>): Channels {
    if Open(topics, d)
    then topics[d[0] := Channel(topics[d[0]].size, topics[d[0]].clients * live)]
    else topics
  }

  function Step(topics: Channels, live: set<Address>, e: Event): Channels {
    match e
    case Connect(_) => topics
    case Disconnect(_) => topics
    case Subscribe(a, keys) => JoinAll(topics, keys, a)
    case Unsubscribe(a, keys) => LeaveAll(topics, keys, a)
    case Publish(d) => Prune(topics, live, d)
  }

  // ---------- runs ----------

  function Connected(live: set<Address>, e: Event): set<Address> {
    match e
    case Connect(a) => live + {a}
    case Disconnect(a) => live - {a}
    case _ => live
  }

  function Live(trace: seq<Event>): set<Address> {
    if trace == [] then {} else Connected(Live(trace[..|trace| - 1]), trace[|trace| - 1])
  }

  function After(trace: seq<Event>): Channels {
    if trace == [] then map[]
    else
      var front := trace[..|trace| - 1];
      Step(After(front), Live(front), trace[|trace| - 1])
  }

  predicate Subscribes(e: Event, key: Bytes, a: Address) {
    e.Subscribe? && e.a == a && key in e.keys
  }

  predicate Unsubscribes(e: Event, key: Bytes, a: Address) {
    e.Unsubscribe? && e.a == a && key in e.keys
  }

  predicate Publishes(e: Event, key: Bytes) {
    e.Publish? && |e.d| >= 2 && e.d[0] == key
  }

  // Since the i-th event of a run, nothing has cost an address its subscription: it has
  // not unsubscribed, and it was connected at every publication on the channel.
  predicate KeptSince(trace: seq<Event>, i: nat, key: Bytes, a: Address) {
    forall j :: i < j < |trace| ==>
      && !Unsubscribes(trace[j], key, a)
      && (Publishes(trace[j], key) ==> a in Live(trace[..j]))
  }

  ghost predicate Due(trace: seq<Event>, key: Bytes, a: Address) {
    exists i :: 0 <= i < |trace| && Subscribes(trace[i], key, a) && KeptSince(trace, i, key, a)
  }

  // What one event does to the claim of an address.
  lemma DueStep(trace: seq<Event>, e: Event, key: Bytes, a: Address)
    ensures Due(trace + [e], key, a) <==>
            || Subscribes(e, key, a)
            || (Due(trace, key, a) && !Unsubscribes(e, key, a) && (Publishes(e, key) ==> a in Live(trace)))
  {
    var longer, n := trace + [e], |trace|;
    assert forall j :: 0 <= j < n ==> longer[..j] == trace[..j] && longer[j] == trace[j];
    assert longer[..n] == trace;
    if Subscribes(e, key, a) {
      assert Subscribes(longer[n], key, a) && KeptSince(longer, n, key, a);
    }
    if Due(trace, key, a) && !Unsubscribes(e, key, a) && (Publishes(e, key) ==> a in Live(trace)) {
      var i :| 0 <= i < n && Subscribes(trace[i], key, a) && KeptSince(trace, i, key, a);
      assert Subscribes(longer[i], key, a) && KeptSince(longer, i, key, a);
    }
    if Due(longer, key, a) && !Subscribes(e, key, a) {
      var i :| 0 <= i <= n && Subscribes(longer[i], key, a) && KeptSince(longer, i, key, a);
      assert i < n && Subscribes(trace[i], key, a) && KeptSince(trace, i, key, a);
      assert !Unsubscribes(longer[n], key, a);
    }
  }

  // The count of a channel never falls below the number of its subscribers; the
  // difference is how many were dropped as gone.
  function Excess(topics: Channels, key: Bytes): int {
    if key in topics then topics[key].size - |topics[key].clients| else 0
  }

  // How many subscribers of a channel an event drops as gone.
  function Dropped(topics: Channels, live: set<Address>, e: Event, key: Bytes): nat {
    if e.Publish? && Open(topics, e.d) && e.d[0] == key then |Subscribers(topics, key) - live| else 0
  }

  function TotalDropped(trace: seq<Event>, key: Bytes): nat {
    if trace == [] then 0
    else
      var front := trace[..|trace| - 1];
      TotalDropped(front, key) + Dropped(After(front), Live(front), trace[|trace| - 1], key)
  }

  lemma JoinIs(topics: Channels, k: Bytes, a: Address, key: Bytes)
    ensures Subscribers(Join(topics, k, a), key) == Subscribers(topics, key) + if k == key then {a} else {}
    ensures Excess(Join(topics, k, a), key) == Excess(topics, key)
  {
  }

  lemma LeaveIs(topics: Channels, k: Bytes, a: Address, key: Bytes)
    ensures Subscribers(Leave(topics, k, a), key) == Subscribers(topics, key) - if k == key then {a} else {}
    ensures Excess(Leave(topics, k, a), key) == Excess(topics, key)
  {
  }

  lemma {:induction false} JoinAllIs(topics: Channels, keys: seq<Bytes>, a: Address, key: Bytes)
    ensures Subscribers(JoinAll(topics, keys, a), key)
            == Subscribers(topics, key) + if key in keys then {a} else {}
    ensures Excess(JoinAll(topics, keys, a), key) == Excess(topics, key)
  {
    hide Join, Excess, Subscribers;
    if keys != [] {
      var front, last := keys[..|keys| - 1], keys[|keys| - 1];
      JoinAllIs(topics, front, a, key);
      JoinIs(JoinAll(topics, front, a), last, a, key);
      assert key in keys <==> key in front || last == key by {
        assert keys == front + [last];
      }
    }
  }

  lemma {:induction false} LeaveAllIs(topics: Channels, keys: seq<Bytes>, a: Address, key: Bytes)
    ensures Subscribers(LeaveAll(topics, keys, a), key)
            == Subscribers(topics, key) - if key in keys then {a} else {}
    ensures Excess(LeaveAll(topics, keys, a), key) == Excess(topics, key)
  {
    hide Leave, Excess, Subscribers;
    if keys != [] {
      var front, last := keys[..|keys| - 1], keys[|keys| - 1];
      LeaveAllIs(topics, front, a, key);
      LeaveIs(LeaveAll(topics, front, a), last, a, key);
      assert key in keys <==> key in front || last == key by {
        assert keys == front + [last];
      }
    }
  }

  lemma PruneIs(topics: Channels, live: set<Address>, d: seq<Bytes>, key: Bytes)
    requires Excess(topics, key) >= 0
    ensures Subscribers(Prune(topics, live, d), key)
            == if |d| >= 2 && d[0] == key then Subscribers(topics, key) * live else Subscribers(topics, key)
    ensures Excess(Prune(topics, live, d), key)
            == Excess(topics, key) + Dropped(topics, live, Publish(d), key)
  {
    if key in topics {
      var s := topics[key].clients;
      assert s == s * live + (s - live);
      assert (s * live) !! (s - live);
    }
  }

  // In every reachable state the count exceeds the subscribers by exactly the number
  // dropped so far.
  lemma {:induction false} ExcessCounts(trace: seq<Event>, key: Bytes)
    ensures Excess(After(trace), key) == TotalDropped(trace, key)
  {
    if trace != [] {
      var front, e := trace[..|trace| - 1], trace[|trace| - 1];
      ExcessCounts(front, key);
      StepExcess(After(front), Live(front), e, key);
    }
  }

  lemma StepExcess(topics: Channels, live: set<Address>, e: Event, key: Bytes)
    requires Excess(topics, key) >= 0
    ensures Excess(Step(topics, live, e), key) == Excess(topics, key) + Dropped(topics, live, e, key)
  {
    hide JoinAll, LeaveAll, Prune;
    match e
    case Subscribe(a, keys) => JoinAllIs(topics, keys, a, key);
    case Unsubscribe(a, keys) => LeaveAllIs(topics, keys, a, key);
    case Publish(d) => PruneIs(topics, live, d, key);
    case _ =>
  }

  // An address is subscribed exactly when a subscription of its has been kept.
  lemma {:induction false} SubscribedExactly(trace: seq<Event>, key: Bytes, a: Address)
    ensures a in Subscribers(After(trace), key) <==> Due(trace, key, a)
  {
    hide Excess, Subscribers, JoinAll, LeaveAll, Prune, Due;
    if trace == [] {
      NobodyDue(key, a);
    } else {
      var front, e := trace[..|trace| - 1], trace[|trace| - 1];
      assert trace == front + [e];
      SubscribedExactly(front, key, a);
      DueStep(front, e, key, a);
      ExcessCounts(front, key);
      match e
      case Subscribe(b, keys) => JoinAllIs(After(front), keys, b, key);
      case Unsubscribe(b, keys) => LeaveAllIs(After(front), keys, b, key);
      case Publish(d) => PruneIs(After(front), Live(front), d, key);
      case _ =>
    }
  }

  lemma NobodyDue(key: Bytes, a: Address)
    ensures !Due([], key, a) && a !in Subscribers(After([]), key)
  {
  }

  // Over whole runs: a publication reaches an address exactly when it is connected,
  // subscribed after its last unsubscription, and was connected at every publication
  // on that channel since. The gate on the count never suppresses a delivery.
  lemma Delivery(trace: seq<Event>, d: seq<Bytes>, a: Address)
    ensures a in Reached(After(trace), Live(trace), d)
            <==> |d| >= 2 && a in Live(trace) && Due(trace, d[0], a)
  {
    hide Due, After;
    if |d| >= 2 {
      SubscribedExactly(trace, d[0], a);
      ExcessCounts(trace, d[0]);
      if d[0] in After(trace) && a in After(trace)[d[0]].clients {
        NonEmpty(After(trace)[d[0]].clients, a);
      }
    }
  }

  lemma NonEmpty(s: set<Address>, a: Address)
    requires a in s
    ensures |s| > 0
  {
  }

  // Equality of count and subscribers is not kept: dropping one gone subscriber breaks it.
  lemma CountCanExceed(key: Bytes, message: Bytes, a: Address)
    ensures var trace := [Connect(a), Subscribe(a, [key]), Disconnect(a), Publish([key, message])];
            After(trace) == map[key := Channel(1, {})]
  {
    var t1 := [Connect(a)];
    var t2 := t1 + [Subscribe(a, [key])];
    var t3 := t2 + [Disconnect(a)];
    var t4 := t3 + [Publish([key, message])];
    assert t1[..0] == [] && t2[..1] == t1 && t3[..2] == t2 && t4[..3] == t3;
    assert [key][..0] == [];
    assert JoinAll(map[], [key], a) == map[key := Channel(1, {a})];
    assert After(t1) == map[] && Live(t1) == {a};
    assert After(t2) == map[key := Channel(1, {a})] && Live(t2) == {a};
    assert After(t3) == After(t2) && Live(t3) == {};
    assert {a} * {} == {};
    assert t4 == [Connect(a), Subscribe(a, [key]), Disconnect(a), Publish([key, message])];
  }
}

// The live channels and the server's client registry.
module PubSubBackends {
  import opened ByteStrings
  import opened Wire
  import opened BufferClients
  import opened PubSubMachine

  class BroadcastServer {
    var clients: map<Address, BufferClient>
    var clientSize: int
    ghost var trace: seq<Event>  // everything that happened to connections and topics

    // Connections are distinct, and those registered are the live ones of the trace.
    ghost predicate Valid()
      reads this
    {
      && clients.Keys == Live(trace)
      && (forall a, b :: a in clients && b in clients && a != b ==> clients[a] != clients[b])
    }

    ghost predicate Counted()
      reads this
    {
      clientSize == |clients|
    }

    constructor ()
      ensures Valid() && Counted() && clients == map[] && trace == []
    {
      clients, clientSize := map[], 0;
      trace := [];
    }

    // One turn of the accept loop. A new connection under an address still registered
    // replaces the old one, and then the count is one too high.
    method Accept(address: Address, client: BufferClient)
      requires Valid() && client !in clients.Values
      modifies this
      ensures Valid() && clients == old(clients)[address := client]
      ensures trace == old(trace) + [Connect(address)] && After(trace) == After(old(trace))
      ensures old(Counted()) ==> (Counted() <==> address !in old(clients))
    {
      NextEvent(trace, Connect(address));
      SizeAfterInsert(clients, address, client);
      clients := clients[address := client];
      clientSize := clientSize + 1;
      trace := trace + [Connect(address)];
    }

    // What happens when a client exits: it is counted down even if it is gone already.
    method Exit(address: Address)
      requires Valid()
      modifies this
      ensures Valid() && clients == old(clients) - {address}
      ensures trace == old(trace) + [Disconnect(address)] && After(trace) == After(old(trace))
      ensures old(Counted()) ==> (Counted() <==> address in old(clients))
    {
      NextEvent(trace, Disconnect(address));
      SizeAfterRemove(clients, address);
      clients := clients - {address};
      clientSize := clientSize - 1;
      trace := trace + [Disconnect(address)];
    }

    method GetClient(id: Address) returns (r: Option<BufferClient>)
      ensures r == if id in clients then Some(clients[id]) else None
    {
      if id in clients {
        return Some(clients[id]);
      } else {
        return None;
      }
    }
  }

  lemma NextEvent(trace: seq<Event>, e: Event)
    ensures After(trace + [e]) == Step(After(trace), Live(trace), e)
    ensures Live(trace + [e]) == Connected(Live(trace), e)
  {
    hide Step, Connected;
    assert (trace + [e])[..|trace|] == trace;
  }

  lemma SizeAfterInsert(m: map<Address, BufferClient>, a: Address, c: BufferClient)
    ensures |m[a := c]| == |m| + if a in m then 0 else 1
  {
    assert m[a := c].Keys == m.Keys + {a};
  }

  lemma SizeAfterRemove(m: map<Address, BufferClient>, a: Address)
    ensures |m - {a}| == |m| - if a in m then 1 else 0
  {
    assert (m - {a}).Keys == m.Keys - {a};
  }

  class TopicChannel {
    var size: int
    var clients: set<Address>

    constructor (first: Address)
      ensures size == 1 && clients == {first}
    {
      size, clients := 1, {first};
    }

    ghost function Snapshot(): Channel
      reads this
    {
      Channel(size, clients)
    }
  }

  class PubSubBackend {
    const app: BroadcastServer
    var topics: map<Bytes, TopicChannel>

    ghost predicate Apart()
      reads this`topics
    {
      forall a, b :: a in topics && b in topics && a != b ==> topics[a] != topics[b]
    }

    // The live channels are what the trace makes of them.
    ghost predicate Valid()
      reads this, topics.Values, app
    {
      Apart() && app.Valid() && Contents() == After(app.trace)
    }

    ghost function Contents(): Channels
      reads this`topics, topics.Values
    {
      map k | k in topics :: topics[k].Snapshot()
    }

    constructor (app: BroadcastServer)
      requires app.Valid() && After(app.trace) == map[]
      ensures Valid() && topics == map[] && this.app == app
    {
      this.app, topics := app, map[];
    }

    method Subscribe(d: seq<Bytes>, id: Address)
      requires Valid()
      modifies this`topics, topics.Values, app`trace
      ensures Valid() && fresh(topics.Values - old(topics.Values))
      ensures Contents() == JoinAll(old(Contents()), d, id)
      ensures app.trace == old(app.trace) + [Event.Subscribe(id, d)]
    {
      hide Contents, Join, After, Live;
      NextEvent(app.trace, Event.Subscribe(id, d));
      for i := 0 to |d|
        invariant Apart() && fresh(topics.Values - old(topics.Values))
        invariant app.trace == old(app.trace) && app.Valid()
        invariant Contents() == JoinAll(old(Contents()), d[..i], id)
      {
        assert d[..i + 1][..i] == d[..i];
        SubscribeTo(d[i], id);
      }
      assert d[..|d|] == d;
      app.trace := app.trace + [Event.Subscribe(id, d)];
    }

    // One key of Subscribe.
    method SubscribeTo(key: Bytes, id: Address)
      requires Apart()
      modifies this`topics, topics.Values
      ensures Apart() && fresh(topics.Values - old(topics.Values))
      ensures Contents() == Join(old(Contents()), key, id)
    {
      if key in topics {
        var topic := topics[key];
        if id !in topic.clients {
          topic.clients := topic.clients + {id};
          topic.size := topic.size + 1;
        }
      } else {
        var topic := new TopicChannel(id);
        topics := topics[key := topic];
      }
    }

    method Unsubscribe(d: seq<Bytes>, id: Address)
      requires Valid()
      modifies topics.Values, app`trace
      ensures Valid() && Contents() == LeaveAll(old(Contents()), d, id)
      ensures app.trace == old(app.trace) + [Event.Unsubscribe(id, d)]
    {
      hide Contents, Leave, After, Live;
      NextEvent(app.trace, Event.Unsubscribe(id, d));
      for i := 0 to |d|
        invariant app.trace == old(app.trace) && app.Valid()
        invariant Apart() && Contents() == LeaveAll(old(Contents()), d[..i], id)
      {
        assert d[..i + 1][..i] == d[..i];
        UnsubscribeFrom(d[i], id);
      }
      assert d[..|d|] == d;
      app.trace := app.trace + [Event.Unsubscribe(id, d)];
    }

    // One key of Unsubscribe.
    method UnsubscribeFrom(key: Bytes, id: Address)
      requires Apart()
      modifies topics.Values
      ensures Apart() && Contents() == Leave(old(Contents()), key, id)
    {
      if key in topics {
        var topic := topics[key];
        if id in topic.clients {
          topic.clients := topic.clients - {id};
          topic.size := topic.size - 1;
        }
      }
    }

    // Exactly the clients to which the publication is due are sent it, each once and
    // whole; nobody else is sent anything; subscribers that are gone are dropped, but not
    // from the count.
    method Publish(d: seq<Bytes>)
      requires Valid()
      modifies topics.Values, app`trace, app.clients.Values`written
      ensures Valid() && Contents() == Prune(old(Contents()), app.clients.Keys, d)
      ensures app.trace == old(app.trace) + [Event.Publish(d)]
      ensures forall a :: a in app.clients ==>
                app.clients[a].written == old(app.clients[a].written)
                  + if |d| >= 2 && Due(old(app.trace), d[0], a) then Emit(app.clients[a].lib, Bulk(d)) else []
    {
      hide Emit, Due, After, Live;
      NextEvent(app.trace, Event.Publish(d));
      forall a | a in app.clients
        ensures a in Reached(Contents(), app.clients.Keys, d) <==> |d| >= 2 && Due(app.trace, d[0], a)
      {
        Delivery(app.trace, d, a);
      }
      Spread(d);
      app.trace := app.trace + [Event.Publish(d)];
    }

    // The body of Publish.
    method Spread(d: seq<Bytes>)
      requires Apart() && app.Valid()
      modifies topics.Values, app.clients.Values`written
      ensures Contents() == Prune(old(Contents()), app.clients.Keys, d)
      ensures forall a :: a in app.clients ==>
                app.clients[a].written == old(app.clients[a].written)
                  + if a in Reached(old(Contents()), app.clients.Keys, d)
                    then Emit(app.clients[a].lib, Bulk(d)) else []
    {
      hide Emit, Live;
      if |d| < 2 || d[0] !in topics {
        return;
      }
      var topic := topics[d[0]];
      if topic.size > 0 {
        var deletions := SendAll(topic.clients, d);
        topic.clients := topic.clients - (set a | a in deletions);
        assert topic.clients == old(topic.clients) * app.clients.Keys;
      }
    }

    // The loop of Publish over the subscribers; it lists those that are gone.
    method SendAll(subscribers: set<Address>, d: seq<Bytes>) returns (deletions: seq<Address>)
      requires app.Valid()
      modifies app.clients.Values`written
      ensures forall a :: a in deletions <==> a in subscribers && a !in app.clients
      ensures forall a :: a in app.clients ==>
                app.clients[a].written == old(app.clients[a].written)
                  + if a in subscribers then Emit(app.clients[a].lib, Bulk(d)) else []
    {
      hide Emit, Live;
      deletions := [];
      var todo := subscribers;
      while todo != {}
        invariant todo <= subscribers
        invariant forall a :: a in deletions <==> a in subscribers - todo && a !in app.clients
        invariant forall a :: a in app.clients ==>
            app.clients[a].written == old(app.clients[a].written)
              + if a in subscribers - todo then Emit(app.clients[a].lib, Bulk(d)) else []
        decreases |todo|
      {
        var c :| c in todo;
        var found := SendTo(c, d);
        if !found {
          deletions := deletions + [c];
        }
        todo := todo - {c};
      }
    }

    // One subscriber of a publication.
    method SendTo(c: Address, d: seq<Bytes>) returns (found: bool)
      requires app.Valid()
      modifies app.clients.Values`written
      ensures found <==> c in app.clients
      ensures forall a :: a in app.clients ==>
                app.clients[a].written == old(app.clients[a].written)
                  + if a == c then Emit(app.clients[a].lib, Bulk(d)) else []
    {
      hide Emit, Live;
      var sClient := app.GetClient(c);
      if sClient.Some? {
        sClient.value.WriteBulk(d);
      }
      return sClient.Some?;
    }
  }
}
