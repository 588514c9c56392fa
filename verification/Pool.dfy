// The client library's pool of connections: which commands may be sent through it so that,
// whichever way calls fail and interleave, every call gets the reply to its own command.

module PoolMachine {
  import opened ByteStrings

  // The number of a call; the replies to its command carry it.
  type Ticket = nat

  type Topic = Bytes

  // What the server sends on a connection.
  datatype Frame = Answer(ticket: Ticket) | Publication(n: nat)

  // What a command makes the server do with the connection it arrives on: how many replies
  // it earns, which topics it joins and leaves, and whether the server then closes.
  datatype Command = Command(earns: nat, joins: set<Topic>, leaves: set<Topic>, ends: bool)

  // A pooled connection: not connected, or connected with the frames nobody has read, the
  // topics it is subscribed to, and whether the server has closed its side.
  datatype Conn = Unconnected | Connected(unread: seq<Frame>, topics: set<Topic>, ended: bool)

  // How the network treats one call.
  datatype Weather = Weather(dial: bool, write: bool, flush: bool, read: bool)

  datatype Result = Failed | Got(frame: Frame)

  function Answers(t: Ticket, n: nat): (r: seq<Frame>)
    ensures |r| == n && forall i :: 0 <= i < n ==> r[i] == Answer(t)
  {
    seq(n, _ => Answer(t))
  }

  // The server handles a command.
  function Handled(c: Conn, t: Ticket, m: Command): (r: Conn)
    requires c.Connected?
    ensures r.Connected?
  {
    if c.ended then c
    else Connected(c.unread + Answers(t, m.earns), if m.ends then {} else c.topics - m.leaves + m.joins, m.ends)
  }

  function Dialled(c: Conn): (r: Conn)
    ensures r.Connected?
  {
    if c.Unconnected? then Connected([], {}, false) else c
  }

  // ClientConnection.DoAsync: connect if need be, write, flush; an error on the wire
  // closes the connection, a failed dial leaves it unconnected.
  function Sent(c: Conn, t: Ticket, m: Command, w: Weather): (Conn, bool) {
    if c.Unconnected? && !w.dial then (Unconnected, false)
    else if !w.write || !w.flush then (Unconnected, false)
    else (Handled(Dialled(c), t, m), true)
  }

  // A read comes back: there is a frame, or the server has closed, or the network fails.
  // Otherwise it blocks.
  predicate Returns(c: Conn, w: Weather) {
    c.Connected? && (!w.read || c.unread != [] || c.ended)
  }

  // ClientConnection.Read: the first unread frame, or an error that closes.
  function Received(c: Conn, w: Weather): (Conn, Result)
    requires Returns(c, w)
  {
    if !w.read || c.unread == [] then (Unconnected, Failed)
    else (c.(unread := c.unread[1..]), Got(c.unread[0]))
  }

  // A publication on a topic the connection is subscribed to.
  function Pushed(c: Conn, n: nat): (r: Conn)
    requires c.Connected?
    ensures r.Connected?
  {
    c.(unread := c.unread + [Publication(n)])
  }

  // Nothing is waiting to be mistaken for a reply, and nothing will be sent unasked.
  predicate Quiet(c: Conn) {
    c.Connected? ==> c.unread == [] && c.topics == {}
  }

  // ---------- which commands a pool may carry ----------

  // Through a pool that keeps connections: commands that earn at most one reply and leave
  // no subscription behind. If none is ever kept, only those that would wait for a reply
  // they do not earn on a subscribed connection are not fit.
  predicate Fit(m: Command, maxIdle: int) {
    if maxIdle >= 1 then m.earns <= 1 && (m.ends || m.joins == {})
    else m.earns >= 1 || m.ends || m.joins == {}
  }

  // ---------- whole runs, with calls interleaving ----------

  type Id = nat      // position in the sequence of all connections ever made
  type Caller = nat

  datatype Phase = Holding | Waiting | Finished(result: Result)

  datatype Call = Call(id: Id, ticket: Ticket, command: Command, async: bool, phase: Phase)

  datatype Pool = Pool(idle: seq<Id>, conns: seq<Conn>, calls: map<Caller, Call>, next: Ticket)

  datatype Step =
    | Get(caller: Caller, command: Command, async: bool)  // DoAsync or Do takes a connection
    | Send(caller: Caller, weather: Weather)              // and sends its command
    | Read(caller: Caller, weather: Weather)              // Do reads
    | Put(caller: Caller)                                 // Do gives the connection back
    | Leave(caller: Caller)                               // DoAsync forgets it
    | Push(id: Id, n: nat)                                // the server publishes
    | Close                                               // Client.Close

  const EMPTY: Pool := Pool([], [], map[], 0)

  // Ids held by calls or idle refer to connections.
  predicate WellFormed(p: Pool) {
    && (forall i :: 0 <= i < |p.idle| ==> p.idle[i] < |p.conns|)
    && (forall c :: c in p.calls ==> p.calls[c].id < |p.conns|)
  }

  predicate Enabled(p: Pool, s: Step)
    requires WellFormed(p)
  {
    match s
    case Get(caller, _, _) => caller !in p.calls
    case Send(caller, _) => caller in p.calls && p.calls[caller].phase.Holding?
    case Read(caller, w) =>
      && caller in p.calls && p.calls[caller].phase.Waiting? && !p.calls[caller].async
      && Returns(p.conns[p.calls[caller].id], w)
    case Put(caller) => caller in p.calls && p.calls[caller].phase.Finished? && !p.calls[caller].async
    case Leave(caller) => caller in p.calls && !p.calls[caller].phase.Holding? && p.calls[caller].async
    case Push(id, _) => id < |p.conns| && p.conns[id].Connected? && p.conns[id].topics != {}
    case Close => true
  }

  function Take(p: Pool, caller: Caller, m: Command, async: bool): Pool {
    if p.idle == [] then
      Pool([], p.conns + [Unconnected], p.calls[caller := Call(|p.conns|, p.next, m, async, Holding)], p.next + 1)
    else
      Pool(p.idle[1..], p.conns, p.calls[caller := Call(p.idle[0], p.next, m, async, Holding)], p.next + 1)
  }

  function GiveBack(p: Pool, maxIdle: int, caller: Caller): Pool
    requires WellFormed(p) && caller in p.calls
  {
    var id := p.calls[caller].id;
    if |p.idle| >= maxIdle then Pool(p.idle, p.conns[id := Unconnected], p.calls - {caller}, p.next)
    else Pool([id] + p.idle, p.conns, p.calls - {caller}, p.next)
  }

  // A call goes on with its connection.
  function Proceed(p: Pool, caller: Caller, c: Conn, phase: Phase): Pool
    requires WellFormed(p) && caller in p.calls
  {
    var call := p.calls[caller];
    Pool(p.idle, p.conns[call.id := c], p.calls[caller := call.(phase := phase)], p.next)
  }

  function Next(p: Pool, maxIdle: int, s: Step): Pool
    requires WellFormed(p) && Enabled(p, s)
  {
    match s
    case Get(caller, m, async) => Take(p, caller, m, async)
    case Send(caller, w) =>
      var call := p.calls[caller];
      var (c, ok) := Sent(p.conns[call.id], call.ticket, call.command, w);
      Proceed(p, caller, c, if ok then Waiting else Finished(Failed))
    case Read(caller, w) =>
      var (c, r) := Received(p.conns[p.calls[caller].id], w);
      Proceed(p, caller, c, Finished(r))
    case Put(caller) => GiveBack(p, maxIdle, caller)
    case Leave(caller) => p.(calls := p.calls - {caller})
    case Push(id, n) => p.(conns := p.conns[id := Pushed(p.conns[id], n)])
    case Close =>
      Pool([], seq(|p.conns|, i requires 0 <= i < |p.conns| => if i in p.idle then Unconnected else p.conns[i]),
           p.calls, p.next)
  }

  // ---------- what every run keeps ----------

  // The result of a call is its own.
  predicate Own(call: Call, r: Result) {
    r == Failed || r == Got(Answer(call.ticket))
  }

  predicate OwnResults(p: Pool) {
    forall c :: c in p.calls && !p.calls[c].async && p.calls[c].phase.Finished? ==>
      Own(p.calls[c], p.calls[c].phase.result)
  }

  // The connection in the hands of a call that will give it back: quiet at first; then with
  // the call's own reply first, or nothing that could come before it; quiet again at the end
  // if the pool is going to keep it.
  predicate InHand(call: Call, c: Conn, maxIdle: int) {
    match call.phase
    case Holding => Quiet(c)
    case Waiting =>
      && c.Connected?
      && (if c.unread == [] then c.topics == {} else c.unread[0] == Answer(call.ticket))
      && (maxIdle >= 1 ==> |c.unread| <= 1 && c.topics == {})
    case Finished(r) => Own(call, r) && (maxIdle >= 1 ==> Quiet(c))
  }

  predicate Aligned(p: Pool, maxIdle: int) {
    WellFormed(p) && IdleApart(p, maxIdle) && CallsApart(p) && AllInPlace(p, maxIdle)
  }

  predicate IdleApart(p: Pool, maxIdle: int) {
    && (forall i, j :: 0 <= i < j < |p.idle| ==> p.idle[i] != p.idle[j])
    && (|p.idle| == 0 || |p.idle| <= maxIdle)
    && (forall c :: c in p.calls ==> p.calls[c].id !in p.idle)
  }

  predicate CallsApart(p: Pool) {
    forall c, d :: c in p.calls && d in p.calls && c != d ==> p.calls[c].id != p.calls[d].id
  }

  predicate AllInPlace(p: Pool, maxIdle: int)
    requires WellFormed(p)
  {
    && (forall i :: 0 <= i < |p.idle| ==> Quiet(p.conns[p.idle[i]]))
    && (forall c :: c in p.calls ==> CallInPlace(p.calls[c], p.conns[p.calls[c].id], maxIdle))
  }

  predicate CallInPlace(call: Call, c: Conn, maxIdle: int) {
    && (call.phase.Holding? ==> Quiet(c))
    && (!call.async ==> Fit(call.command, maxIdle) && InHand(call, c, maxIdle))
  }

  lemma SentInHand(call: Call, c: Conn, maxIdle: int, w: Weather)
    requires CallInPlace(call, c, maxIdle) && call.phase == Holding
    ensures var (c', ok) := Sent(c, call.ticket, call.command, w);
            CallInPlace(call.(phase := if ok then Waiting else Finished(Failed)), c', maxIdle)
  {
    var (c', ok) := Sent(c, call.ticket, call.command, w);
    if ok {
      assert Dialled(c).unread == [];
      assert !c'.ended ==> c'.unread == Answers(call.ticket, call.command.earns);
    }
  }

  lemma ReceivedInHand(call: Call, c: Conn, maxIdle: int, w: Weather)
    requires CallInPlace(call, c, maxIdle) && call.phase == Waiting && !call.async && Returns(c, w)
    ensures var (c', r) := Received(c, w);
            CallInPlace(call.(phase := Finished(r)), c', maxIdle)
  {
  }

  lemma PushedInHand(call: Call, c: Conn, maxIdle: int, n: nat)
    requires CallInPlace(call, c, maxIdle) && c.Connected? && c.topics != {}
    ensures CallInPlace(call, Pushed(c, n), maxIdle)
  {
  }

  lemma TakeKeeps(p: Pool, maxIdle: int, caller: Caller, m: Command, async: bool)
    requires Aligned(p, maxIdle) && caller !in p.calls && (!async ==> Fit(m, maxIdle))
    ensures Aligned(Take(p, caller, m, async), maxIdle)
  {
    hide Aligned;
    if p.idle == [] {
      TakeNew(p, maxIdle, caller, m, async);
    } else {
      TakeFront(p, maxIdle, caller, m, async);
    }
  }

  lemma TakeNew(p: Pool, maxIdle: int, caller: Caller, m: Command, async: bool)
    requires Aligned(p, maxIdle) && caller !in p.calls && p.idle == [] && (!async ==> Fit(m, maxIdle))
    ensures Aligned(Take(p, caller, m, async), maxIdle)
  {
    hide Fit, Own;
    var q := Take(p, caller, m, async);
    assert IdleApart(q, maxIdle) && CallsApart(q);
  }

  lemma TakeFront(p: Pool, maxIdle: int, caller: Caller, m: Command, async: bool)
    requires Aligned(p, maxIdle) && caller !in p.calls && p.idle != [] && (!async ==> Fit(m, maxIdle))
    ensures Aligned(Take(p, caller, m, async), maxIdle)
  {
    hide Quiet, Fit, Own;
    var q := Take(p, caller, m, async);
    assert p.idle == [p.idle[0]] + q.idle;
    assert IdleApart(q, maxIdle) && CallsApart(q);
    assert Quiet(p.conns[p.idle[0]]);
  }

  lemma ProceedKeeps(p: Pool, maxIdle: int, caller: Caller, c: Conn, phase: Phase)
    requires Aligned(p, maxIdle) && caller in p.calls
    requires CallInPlace(p.calls[caller].(phase := phase), c, maxIdle)
    ensures Aligned(Proceed(p, caller, c, phase), maxIdle)
  {
    hide Quiet, CallInPlace;
    var q := Proceed(p, caller, c, phase);
    assert IdleApart(q, maxIdle) && CallsApart(q);
  }

  lemma PushKeeps(p: Pool, maxIdle: int, id: Id, n: nat)
    requires Aligned(p, maxIdle) && id < |p.conns| && p.conns[id].Connected? && p.conns[id].topics != {}
    ensures Aligned(p.(conns := p.conns[id := Pushed(p.conns[id], n)]), maxIdle)
  {
    hide CallInPlace, Pushed;
    forall c | c in p.calls && p.calls[c].id == id
      ensures CallInPlace(p.calls[c], Pushed(p.conns[id], n), maxIdle)
    {
      PushedInHand(p.calls[c], p.conns[id], maxIdle, n);
    }
  }

  lemma GiveBackKeeps(p: Pool, maxIdle: int, caller: Caller)
    requires Aligned(p, maxIdle) && Enabled(p, Put(caller))
    ensures Aligned(GiveBack(p, maxIdle, caller), maxIdle)
  {
    hide Fit, Own;
    var q := GiveBack(p, maxIdle, caller);
    assert q.idle == p.idle || q.idle == [p.calls[caller].id] + p.idle;
    assert IdleApart(q, maxIdle) && CallsApart(q) && WellFormed(q);
  }

  lemma LeaveKeeps(p: Pool, maxIdle: int, caller: Caller)
    requires Aligned(p, maxIdle) && Enabled(p, Leave(caller))
    ensures Aligned(Next(p, maxIdle, Leave(caller)), maxIdle)
  {
    hide Quiet, CallInPlace, Take, GiveBack, Proceed;
  }

  lemma CloseKeeps(p: Pool, maxIdle: int)
    requires Aligned(p, maxIdle)
    ensures Aligned(Next(p, maxIdle, Close), maxIdle)
  {
    hide CallInPlace, Take, GiveBack, Proceed;
  }

  // A command given to Do, which will give the connection back, is fit.
  predicate FitStep(s: Step, maxIdle: int) {
    s.Get? && !s.async ==> Fit(s.command, maxIdle)
  }

  lemma StepKeepsAlignment(p: Pool, maxIdle: int, s: Step)
    requires Aligned(p, maxIdle) && WellFormed(p) && Enabled(p, s) && FitStep(s, maxIdle)
    ensures Aligned(Next(p, maxIdle, s), maxIdle)
  {
    hide Aligned, Take, GiveBack, Proceed, Sent, Received, Fit, CallInPlace;
    match s
    case Get(caller, m, async) => TakeKeeps(p, maxIdle, caller, m, async);
    case Send(caller, w) =>
      var call := p.calls[caller];
      AlignedCall(p, maxIdle, caller);
      SentInHand(call, p.conns[call.id], maxIdle, w);
      var (c, ok) := Sent(p.conns[call.id], call.ticket, call.command, w);
      ProceedKeeps(p, maxIdle, caller, c, if ok then Waiting else Finished(Failed));
    case Read(caller, w) =>
      var call := p.calls[caller];
      AlignedCall(p, maxIdle, caller);
      ReceivedInHand(call, p.conns[call.id], maxIdle, w);
      var (c, r) := Received(p.conns[call.id], w);
      ProceedKeeps(p, maxIdle, caller, c, Finished(r));
    case Put(caller) => GiveBackKeeps(p, maxIdle, caller);
    case Leave(caller) => LeaveKeeps(p, maxIdle, caller);
    case Push(id, n) => PushKeeps(p, maxIdle, id, n);
    case Close => CloseKeeps(p, maxIdle);
  }

  lemma AlignedCall(p: Pool, maxIdle: int, caller: Caller)
    requires Aligned(p, maxIdle) && caller in p.calls
    ensures CallInPlace(p.calls[caller], p.conns[p.calls[caller].id], maxIdle)
  {
    hide CallInPlace;
  }

  ghost predicate Reaches(p: Pool, maxIdle: int, steps: seq<Step>, q: Pool)
    decreases |steps|
  {
    if steps == [] then p == q
    else WellFormed(p) && Enabled(p, steps[0]) && Reaches(Next(p, maxIdle, steps[0]), maxIdle, steps[1..], q)
  }

  predicate AllFit(steps: seq<Step>, maxIdle: int) {
    forall i :: 0 <= i < |steps| ==> FitStep(steps[i], maxIdle)
  }

  // Whatever the callers, the failures, the publications and the interleaving.
  lemma {:induction false} AlwaysAligned(maxIdle: int, p: Pool, steps: seq<Step>, q: Pool)
    requires Aligned(p, maxIdle) && Reaches(p, maxIdle, steps, q) && AllFit(steps, maxIdle)
    ensures Aligned(q, maxIdle)
    decreases |steps|
  {
    hide Aligned, Next, FitStep;
    if steps != [] {
      StepKeepsAlignment(p, maxIdle, steps[0]);
      AlwaysAligned(maxIdle, Next(p, maxIdle, steps[0]), steps[1..], q);
    }
  }

  lemma AlignedOwn(p: Pool, maxIdle: int)
    requires Aligned(p, maxIdle)
    ensures OwnResults(p)
  {
    hide Quiet, Fit, Own;
    forall c | c in p.calls && !p.calls[c].async && p.calls[c].phase.Finished?
      ensures Own(p.calls[c], p.calls[c].phase.result)
    {
      AlignedCall(p, maxIdle, c);
    }
  }

  // From an empty pool on, over every run whose commands are fit.
  lemma EveryCallGetsItsOwnReply(maxIdle: int, steps: seq<Step>, q: Pool, caller: Caller)
    requires Reaches(EMPTY, maxIdle, steps, q) && AllFit(steps, maxIdle)
    requires caller in q.calls && !q.calls[caller].async && q.calls[caller].phase.Finished?
    ensures Own(q.calls[caller], q.calls[caller].phase.result)
  {
    AlwaysAligned(maxIdle, EMPTY, steps, q);
    AlignedOwn(q, maxIdle);
  }

  // The idle list is a stack: the connection given back last is taken first, as it was. One
  // given back when the list is full is closed, and so is every idle one when the client is.
  lemma LastInFirstOut(p: Pool, maxIdle: int, caller: Caller, next: Caller, m: Command, async: bool)
    requires WellFormed(p) && caller in p.calls
    ensures var id, q := p.calls[caller].id, GiveBack(p, maxIdle, caller);
            if |p.idle| >= maxIdle then q.idle == p.idle && q.conns[id] == Unconnected
            else
              var r := Take(q, next, m, async);
              r.idle == p.idle && r.conns == p.conns && r.calls[next].id == id
    ensures var q := Next(p, maxIdle, Close);
            q.idle == [] && forall i :: 0 <= i < |p.idle| ==> q.conns[p.idle[i]] == Unconnected
  {
  }

  // ---------- which connections are closed, and which are lost ----------

  // No connection is in two hands.
  predicate Apart(p: Pool, maxIdle: int) {
    WellFormed(p) && IdleApart(p, maxIdle) && CallsApart(p)
  }

  // A call that failed has closed its connection.
  predicate FailedClosed(p: Pool)
    requires WellFormed(p)
  {
    forall c <- p.calls :: p.calls[c].phase == Finished(Failed) ==> p.conns[p.calls[c].id] == Unconnected
  }

  // Open, but neither idle nor in the hands of a call.
  predicate Lost(p: Pool, id: Id) {
    id < |p.conns| && p.conns[id].Connected? && id !in p.idle && forall c <- p.calls :: p.calls[c].id != id
  }

  // A call of DoAsync ends without having failed, and its connection is still open.
  predicate Forgets(p: Pool, s: Step, id: Id)
    requires WellFormed(p)
  {
    && s.Leave? && s.caller in p.calls && p.calls[s.caller].id == id
    && p.calls[s.caller].phase != Finished(Failed) && p.conns[id].Connected?
  }

  lemma ProceedApart(p: Pool, maxIdle: int, caller: Caller, c: Conn, phase: Phase)
    requires Apart(p, maxIdle) && FailedClosed(p) && caller in p.calls
    requires phase == Finished(Failed) ==> c == Unconnected
    ensures var q := Proceed(p, caller, c, phase);
            && Apart(q, maxIdle) && FailedClosed(q)
            && forall id :: Lost(q, id) <==> Lost(p, id)
  {
    var q := Proceed(p, caller, c, phase);
    assert q.calls.Keys == p.calls.Keys && forall d <- p.calls :: q.calls[d].id == p.calls[d].id;
  }

  lemma TakeApart(p: Pool, maxIdle: int, caller: Caller, m: Command, async: bool)
    requires Apart(p, maxIdle) && FailedClosed(p) && caller !in p.calls
    ensures Apart(Take(p, caller, m, async), maxIdle) && FailedClosed(Take(p, caller, m, async))
  {
    var q := Take(p, caller, m, async);
    assert p.idle != [] ==> p.idle == [p.idle[0]] + q.idle;
    assert IdleApart(q, maxIdle) && CallsApart(q);
  }

  lemma TakeLoses(p: Pool, maxIdle: int, caller: Caller, m: Command, async: bool, id: Id)
    requires Apart(p, maxIdle) && caller !in p.calls
    ensures Lost(Take(p, caller, m, async), id) <==> Lost(p, id)
  {
    hide CallsApart;
    var q := Take(p, caller, m, async);
    assert p.idle != [] ==> p.idle == [p.idle[0]] + q.idle;
    assert forall c <- p.calls :: c in q.calls && q.calls[c] == p.calls[c];
    assert q.calls.Keys == p.calls.Keys + {caller};
  }

  lemma GiveBackApart(p: Pool, maxIdle: int, caller: Caller)
    requires Apart(p, maxIdle) && FailedClosed(p) && caller in p.calls
    ensures var q := GiveBack(p, maxIdle, caller);
            && Apart(q, maxIdle) && FailedClosed(q)
            && forall id :: Lost(q, id) <==> Lost(p, id)
  {
    var q, given := GiveBack(p, maxIdle, caller), p.calls[caller].id;
    assert q.idle == p.idle || q.idle == [given] + p.idle;
    assert IdleApart(q, maxIdle) && CallsApart(q) && WellFormed(q);
    forall id
      ensures Lost(q, id) <==> Lost(p, id)
    {
      assert given in q.idle || q.conns[given] == Unconnected;
      assert forall c <- p.calls :: c == caller || (c in q.calls && q.calls[c] == p.calls[c]);
    }
  }

  // What each step keeps, and the connections it loses.
  lemma StepLoses(p: Pool, maxIdle: int, s: Step, id: Id)
    requires Apart(p, maxIdle) && FailedClosed(p) && Enabled(p, s)
    ensures Apart(Next(p, maxIdle, s), maxIdle) && FailedClosed(Next(p, maxIdle, s))
    ensures Lost(Next(p, maxIdle, s), id) <==> Lost(p, id) || Forgets(p, s, id)
  {
    hide Take, GiveBack, Proceed, Handled, Pushed, Dialled;
    match s
    case Get(caller, m, async) =>
      TakeApart(p, maxIdle, caller, m, async);
      TakeLoses(p, maxIdle, caller, m, async, id);
    case Send(caller, w) =>
      var call := p.calls[caller];
      var (c, ok) := Sent(p.conns[call.id], call.ticket, call.command, w);
      ProceedApart(p, maxIdle, caller, c, if ok then Waiting else Finished(Failed));
    case Read(caller, w) =>
      var (c, r) := Received(p.conns[p.calls[caller].id], w);
      ProceedApart(p, maxIdle, caller, c, Finished(r));
    case Put(caller) => GiveBackApart(p, maxIdle, caller);
    case Leave(caller) => LeaveApart(p, maxIdle, caller, id);
    case _ =>
  }

  lemma LeaveApart(p: Pool, maxIdle: int, caller: Caller, id: Id)
    requires Apart(p, maxIdle) && FailedClosed(p) && caller in p.calls
    ensures var q := p.(calls := p.calls - {caller});
            && Apart(q, maxIdle) && FailedClosed(q)
            && (Lost(q, id) <==> Lost(p, id) || Forgets(p, Leave(caller), id))
  {
    var q := p.(calls := p.calls - {caller});
    assert forall c <- p.calls :: c == caller || c in q.calls;
    if p.calls[caller].id == id {
      assert forall c <- q.calls :: q.calls[c].id != id;
    }
  }

  // Somewhere in a run, a call of DoAsync leaves the connection open.
  ghost predicate Forgotten(p: Pool, maxIdle: int, steps: seq<Step>, id: Id)
    decreases |steps|
  {
    && steps != [] && WellFormed(p) && Enabled(p, steps[0])
    && (Forgets(p, steps[0], id) || Forgotten(Next(p, maxIdle, steps[0]), maxIdle, steps[1..], id))
  }

  lemma {:induction false} RunLoses(p: Pool, maxIdle: int, steps: seq<Step>, q: Pool, id: Id)
    requires Apart(p, maxIdle) && FailedClosed(p) && Reaches(p, maxIdle, steps, q)
    ensures Apart(q, maxIdle) && FailedClosed(q)
    ensures Lost(q, id) <==> Lost(p, id) || Forgotten(p, maxIdle, steps, id)
    decreases |steps|
  {
    hide Next, IdleApart, CallsApart, FailedClosed, Lost, Forgets, Enabled;
    if steps != [] {
      StepLoses(p, maxIdle, steps[0], id);
      RunLoses(Next(p, maxIdle, steps[0]), maxIdle, steps[1..], q, id);
    }
  }

  // From an empty pool on, whatever the commands, the failures and the interleaving: a call
  // that has failed has closed its connection, and an open connection is idle or in the hands
  // of one call, unless a call of DoAsync that did not fail has left it behind.
  lemma LostExactly(maxIdle: int, steps: seq<Step>, q: Pool, id: Id)
    requires Reaches(EMPTY, maxIdle, steps, q)
    ensures Lost(q, id) <==> Forgotten(EMPTY, maxIdle, steps, id)
    ensures forall c <- q.calls :: q.calls[c].phase == Finished(Failed) ==>
              q.calls[c].id < |q.conns| && q.conns[q.calls[c].id] == Unconnected
    ensures |q.idle| == 0 || |q.idle| <= maxIdle
  {
    hide Reaches, Forgotten;
    RunLoses(EMPTY, maxIdle, steps, q, id);
  }

  // ---------- no wider class of commands will do ----------

  lemma {:induction false} ReachesMore(p: Pool, maxIdle: int, steps: seq<Step>, q: Pool, last: Step)
    requires Reaches(p, maxIdle, steps, q) && WellFormed(q) && Enabled(q, last)
    ensures Reaches(p, maxIdle, steps + [last], Next(q, maxIdle, last))
    decreases |steps|
  {
    hide Next, Enabled, WellFormed;
    if steps == [] {
      assert steps + [last] == [last] && [last][1..] == [];
      assert Reaches(Next(q, maxIdle, last), maxIdle, [], Next(q, maxIdle, last));
    } else {
      ReachesMore(Next(p, maxIdle, steps[0]), maxIdle, steps[1..], q, last);
      assert (steps + [last])[1..] == steps[1..] + [last];
    }
  }

  const GOOD: Weather := Weather(true, true, true, true)

  // A pool with one connection, idle or held by one call.
  function Idle(c: Conn, next: Ticket): Pool {
    Pool([0], [c], map[], next)
  }

  function Held(c: Conn, t: Ticket, m: Command, phase: Phase): Pool {
    Pool([], [c], map[0 := Call(0, t, m, false, phase)], t + 1)
  }

  lemma HeldSteps(c: Conn, t: Ticket, m: Command, maxIdle: int)
    ensures Next(Held(c, t, m, Holding), maxIdle, Send(0, GOOD)) == Held(Handled(Dialled(c), t, m), t, m, Waiting)
    ensures c.Connected? && c.unread != [] ==>
              Next(Held(c, t, m, Waiting), maxIdle, Read(0, GOOD))
              == Held(c.(unread := c.unread[1..]), t, m, Finished(Got(c.unread[0])))
    ensures c.Connected? && c.topics != {} ==>
              forall phase :: Next(Held(c, t, m, phase), maxIdle, Push(0, 0)) == Held(Pushed(c, 0), t, m, phase)
  {
    hide Handled, Pushed;
  }

  lemma IdleSteps(c: Conn, t: Ticket, m: Command, r: Result, maxIdle: int)
    ensures maxIdle >= 1 ==> Next(Held(c, t, m, Finished(r)), maxIdle, Put(0)) == Idle(c, t + 1)
    ensures Next(Idle(c, t), maxIdle, Get(0, m, false)) == Held(c, t, m, Holding)
    ensures c.Connected? && c.topics != {} ==> Next(Idle(c, t), maxIdle, Push(0, 0)) == Idle(Pushed(c, 0), t)
  {
    hide Pushed;
    if maxIdle >= 1 {
      assert map[0 := Call(0, t, m, false, Finished(r))] - {0} == map[];
    }
  }

  // The steps that take a connection, send and read, when a frame is waiting by then.
  lemma SendAndRead(
    maxIdle: int, steps: seq<Step>, p: Pool, c: Conn, t: Ticket, m: Command) returns (steps': seq<Step>)
    requires Reaches(EMPTY, maxIdle, steps, p) && Uses(steps, m)
    requires WellFormed(p) && Enabled(p, Get(0, m, false))
    requires Next(p, maxIdle, Get(0, m, false)) == Held(c, t, m, Holding)
    requires Handled(Dialled(c), t, m).unread != []
    ensures Uses(steps', m)
    ensures var sent := Handled(Dialled(c), t, m);
            Reaches(EMPTY, maxIdle, steps',
                    Held(sent.(unread := sent.unread[1..]), t, m, Finished(Got(sent.unread[0]))))
  {
    hide Reaches, Next, Handled, Dialled;
    var sent := Handled(Dialled(c), t, m);
    HeldSteps(c, t, m, maxIdle);
    HeldSteps(sent, t, m, maxIdle);
    ReachesMore(EMPTY, maxIdle, steps, p, Get(0, m, false));
    ReachesMore(EMPTY, maxIdle, steps + [Get(0, m, false)], Held(c, t, m, Holding), Send(0, GOOD));
    steps' := steps + [Get(0, m, false)] + [Send(0, GOOD)];
    ReachesMore(EMPTY, maxIdle, steps', Held(sent, t, m, Waiting), Read(0, GOOD));
    steps' := steps' + [Read(0, GOOD)];
  }

  // Only this command is given to Do.
  predicate Uses(steps: seq<Step>, m: Command) {
    forall i :: 0 <= i < |steps| && steps[i].Get? ==> steps[i].command == m
  }

  predicate Wrong(q: Pool) {
    !OwnResults(q)
  }

  lemma HeldWrong(c: Conn, t: Ticket, m: Command, frame: Frame)
    requires frame != Answer(t)
    ensures Wrong(Held(c, t, m, Finished(Got(frame))))
  {
    var q := Held(c, t, m, Finished(Got(frame)));
    assert 0 in q.calls && !Own(q.calls[0], q.calls[0].phase.result);
  }

  // A command that earns nothing but subscribes: its call returns a publication.
  lemma SubscribingReadsAPublication(maxIdle: int, m: Command) returns (steps: seq<Step>, q: Pool)
    requires m.earns == 0 && !m.ends && m.joins != {}
    ensures Reaches(EMPTY, maxIdle, steps, q) && Uses(steps, m) && Wrong(q)
  {
    hide Next, Handled;
    var sent := Connected([], m.joins, false);
    assert Handled(Dialled(Unconnected), 0, m) == sent by {
      SentFirst(m);
    }
    HeldSteps(Unconnected, 0, m, maxIdle);
    HeldSteps(sent, 0, m, maxIdle);
    FirstTake(m, maxIdle);
    assert Reaches(EMPTY, maxIdle, [], EMPTY);
    ReachesMore(EMPTY, maxIdle, [], EMPTY, Get(0, m, false));
    steps := [] + [Get(0, m, false)];
    ReachesMore(EMPTY, maxIdle, steps, Held(Unconnected, 0, m, Holding), Send(0, GOOD));
    steps := steps + [Send(0, GOOD)];
    ReachesMore(EMPTY, maxIdle, steps, Held(sent, 0, m, Waiting), Push(0, 0));
    steps := steps + [Push(0, 0)];
    var pushed := Pushed(sent, 0);
    assert pushed.unread[1..] == [] && pushed.unread[0] == Publication(0);
    HeldSteps(pushed, 0, m, maxIdle);
    ReachesMore(EMPTY, maxIdle, steps, Held(pushed, 0, m, Waiting), Read(0, GOOD));
    steps := steps + [Read(0, GOOD)];
    q := Held(pushed.(unread := []), 0, m, Finished(Got(Publication(0))));
    HeldWrong(pushed.(unread := []), 0, m, Publication(0));
  }

  lemma SentFirst(m: Command)
    ensures Handled(Dialled(Unconnected), 0, m)
            == Connected(Answers(0, m.earns), if m.ends then {} else m.joins, m.ends)
  {
    assert [] + Answers(0, m.earns) == Answers(0, m.earns);
    assert {} - m.leaves + m.joins == m.joins;
  }

  lemma FirstTake(m: Command, maxIdle: int)
    ensures Next(EMPTY, maxIdle, Get(0, m, false)) == Held(Unconnected, 0, m, Holding)
  {
  }

  // A command that earns more than one reply, or one and a subscription, given to Do twice:
  // the second call returns what the first left behind.
  lemma SecondCallReadsALeftover(maxIdle: int, m: Command) returns (steps: seq<Step>, q: Pool)
    requires maxIdle >= 1 && m.earns >= 1 && !Fit(m, maxIdle)
    ensures Reaches(EMPTY, maxIdle, steps, q) && Uses(steps, m) && Wrong(q)
  {
    hide Next, Handled, Reaches;
    assert Reaches(EMPTY, maxIdle, [], EMPTY) by {
      ReachesNothing(maxIdle);
    }
    FirstTake(m, maxIdle);
    SentFirst(m);
    var sent := Handled(Dialled(Unconnected), 0, m);
    steps := SendAndRead(maxIdle, [], EMPTY, Unconnected, 0, m);
    var left := sent.(unread := sent.unread[1..]);
    IdleSteps(left, 0, m, Got(Answer(0)), maxIdle);
    ReachesMore(EMPTY, maxIdle, steps, Held(left, 0, m, Finished(Got(Answer(0)))), Put(0));
    steps := steps + [Put(0)];
    IdleSteps(left, 1, m, Failed, maxIdle);
    if m.earns == 1 {
      ReachesMore(EMPTY, maxIdle, steps, Idle(left, 1), Push(0, 0));
      steps := steps + [Push(0, 0)];
      left := Pushed(left, 0);
      IdleSteps(left, 1, m, Failed, maxIdle);
    }
    assert left.unread[0] != Answer(1);
    HandledKeepsFirst(left, 1, m);
    steps := SendAndRead(maxIdle, steps, Idle(left, 1), left, 1, m);
    var again := Handled(Dialled(left), 1, m);
    q := Held(again.(unread := again.unread[1..]), 1, m, Finished(Got(again.unread[0])));
    HeldWrong(again.(unread := again.unread[1..]), 1, m, again.unread[0]);
  }

  lemma ReachesNothing(maxIdle: int)
    ensures Reaches(EMPTY, maxIdle, [], EMPTY)
  {
  }

  lemma HandledKeepsFirst(c: Conn, t: Ticket, m: Command)
    requires c.Connected? && c.unread != []
    ensures Handled(Dialled(c), t, m).unread != [] && Handled(Dialled(c), t, m).unread[0] == c.unread[0]
  {
  }

  predicate Allowed(steps: seq<Step>, allowed: Command -> bool) {
    forall i :: 0 <= i < |steps| && steps[i].Get? && !steps[i].async ==> allowed(steps[i].command)
  }

  // Every call of every run gets its own reply.
  ghost predicate Safe(maxIdle: int, allowed: Command -> bool) {
    forall steps: seq<Step>, q: Pool ::
      Reaches(EMPTY, maxIdle, steps, q) && Allowed(steps, allowed) ==> OwnResults(q)
  }

  // The exact condition: whatever else DoAsync sends, however calls fail and interleave and
  // whatever is published, every call of Do gets its own reply or fails, if and only if every
  // command that may be given to Do is fit.
  lemma SafeExactly(maxIdle: int, allowed: Command -> bool)
    ensures Safe(maxIdle, allowed) <==> forall m :: allowed(m) ==> Fit(m, maxIdle)
  {
    hide Reaches, Fit, OwnResults;
    if forall m :: allowed(m) ==> Fit(m, maxIdle) {
      forall steps: seq<Step>, q: Pool | Reaches(EMPTY, maxIdle, steps, q) && Allowed(steps, allowed)
        ensures OwnResults(q)
      {
        EmptyAligned(maxIdle);
        AlwaysAligned(maxIdle, EMPTY, steps, q);
        AlignedOwn(q, maxIdle);
      }
    }
    if m: Command :| allowed(m) && !Fit(m, maxIdle) {
      var steps, q := WrongRun(maxIdle, m);
      assert Allowed(steps, allowed);
    }
  }

  lemma EmptyAligned(maxIdle: int)
    ensures Aligned(EMPTY, maxIdle)
  {
  }

  lemma WrongRun(maxIdle: int, m: Command) returns (steps: seq<Step>, q: Pool)
    requires !Fit(m, maxIdle)
    ensures Reaches(EMPTY, maxIdle, steps, q) && Uses(steps, m) && Wrong(q)
  {
    hide Reaches, Uses, Wrong;
    if m.earns == 0 {
      steps, q := SubscribingReadsAPublication(maxIdle, m);
    } else {
      steps, q := SecondCallReadsALeftover(maxIdle, m);
    }
  }

  // Giving back a connection that was used in any way at all keeps the pool aligned exactly
  // when the list is full, or the connection is quiet and not idle already.
  lemma GiveBackExactly(p: Pool, maxIdle: int, caller: Caller)
    requires WellFormed(p) && caller in p.calls
    requires Aligned(Pool(p.idle, p.conns, p.calls - {caller}, p.next), maxIdle)
    requires forall c :: c in p.calls && c != caller ==> p.calls[c].id != p.calls[caller].id
    ensures Aligned(GiveBack(p, maxIdle, caller), maxIdle)
            <==> |p.idle| >= maxIdle
                 || (Quiet(p.conns[p.calls[caller].id]) && p.calls[caller].id !in p.idle)
  {
    hide Quiet, CallInPlace, IdleApart, CallsApart, AllInPlace;
    var q := GiveBack(p, maxIdle, caller);
    OthersKept(p, maxIdle, caller);
    if |p.idle| >= maxIdle {
      GivenUp(p, maxIdle, caller);
    } else {
      PushedFront(p, maxIdle, caller);
    }
  }

  lemma OthersKept(p: Pool, maxIdle: int, caller: Caller)
    requires WellFormed(p) && caller in p.calls && CallsApart(Pool(p.idle, p.conns, p.calls - {caller}, p.next))
    ensures WellFormed(GiveBack(p, maxIdle, caller)) && CallsApart(GiveBack(p, maxIdle, caller))
  {
  }

  lemma GivenUp(p: Pool, maxIdle: int, caller: Caller)
    requires WellFormed(p) && caller in p.calls && |p.idle| >= maxIdle
    requires var others := Pool(p.idle, p.conns, p.calls - {caller}, p.next);
             IdleApart(others, maxIdle) && AllInPlace(others, maxIdle)
    requires forall c :: c in p.calls && c != caller ==> p.calls[c].id != p.calls[caller].id
    ensures var q := GiveBack(p, maxIdle, caller);
            WellFormed(q) && IdleApart(q, maxIdle) && AllInPlace(q, maxIdle)
  {
    hide CallInPlace;
    assert Quiet(Unconnected);
  }

  lemma PushedFront(p: Pool, maxIdle: int, caller: Caller)
    requires WellFormed(p) && caller in p.calls && |p.idle| < maxIdle
    requires var others := Pool(p.idle, p.conns, p.calls - {caller}, p.next);
             IdleApart(others, maxIdle) && AllInPlace(others, maxIdle)
    requires forall c :: c in p.calls && c != caller ==> p.calls[c].id != p.calls[caller].id
    ensures var q := GiveBack(p, maxIdle, caller);
            var id := p.calls[caller].id;
            && WellFormed(q)
            && (AllInPlace(q, maxIdle) <==> Quiet(p.conns[id]))
            && (IdleApart(q, maxIdle) <==> id !in p.idle)
  {
    hide Quiet, CallInPlace;
    var id, q := p.calls[caller].id, GiveBack(p, maxIdle, caller);
    assert q.idle[0] == id && q.idle[1..] == p.idle;
    assert forall i :: 0 <= i < |p.idle| ==> q.idle[i + 1] == p.idle[i];
    assert id in p.idle ==> exists j :: 0 < j < |q.idle| && q.idle[j] == id;
  }
}

// The pool as the client library keeps it, taking the steps of the machine.
module ConnectionPools {
  import opened PoolMachine

  // What a read does: crash on a connection never made, block, or come back.
  datatype Reading = Crashed | Blocked | Done(result: Result)

  class ClientConnection {
    var net: Conn

    constructor ()
      ensures net == Unconnected
    {
      net := Unconnected;
    }

    method Connect(w: Weather) returns (ok: bool)
      modifies this
      ensures ok <==> old(net).Connected? || w.dial
      ensures net == if old(net).Unconnected? && ok then Connected([], {}, false) else old(net)
    {
      if net.Connected? {
        return true;
      }
      if !w.dial {
        return false;
      }
      net := Connected([], {}, false);
      return true;
    }

    method Finalize()
      modifies this
      ensures net == Unconnected
    {
      if net.Connected? {
        net := Unconnected;
      }
    }

    // Once flushed, the command is the server's to handle.
    method DoAsync(t: Ticket, m: Command, w: Weather) returns (ok: bool)
      modifies this
      ensures (net, ok) == Sent(old(net), t, m, w)
    {
      hide Handled;
      ok := Connect(w);
      if !ok {
        return false;
      }
      if !w.write {
        Finalize();
        return false;
      }
      if !w.flush {
        Finalize();
        return false;
      }
      net := Handled(net, t, m);
      return true;
    }

    method Read(w: Weather) returns (r: Reading)
      modifies this
      ensures Returns(old(net), w) ==> r.Done? && (net, r.result) == Received(old(net), w)
      ensures !Returns(old(net), w) ==>
                net == old(net) && r == if old(net).Connected? then Blocked else Crashed
    {
      if net.Unconnected? {
        return Crashed;
      }
      if !w.read {
        Finalize();
        return Done(Failed);
      }
      if net.unread == [] {
        if !net.ended {
          return Blocked;
        }
        Finalize();
        return Done(Failed);
      }
      r := Done(Got(net.unread[0]));
      net := net.(unread := net.unread[1..]);
    }
  }

  ghost function Nets(made: seq<ClientConnection>): (r: seq<Conn>)
    reads made
    ensures |r| == |made| && forall i :: 0 <= i < |made| ==> r[i] == made[i].net
  {
    seq(|made|, i requires 0 <= i < |made| reads made => made[i].net)
  }

  // The steps of a run that only this caller takes part in, with this command.
  predicate Mine(steps: seq<Step>, caller: Caller, m: Command, async: bool) {
    forall i :: 0 <= i < |steps| ==>
      match steps[i]
      case Get(c, m', a) => c == caller && m' == m && a == async
      case Send(c, _) => c == caller
      case Read(c, _) => c == caller
      case Put(c) => c == caller
      case Leave(c) => c == caller
      case Push(_, _) => true
      case Close => false
  }

  class Client {
    var connections: seq<ClientConnection>  // front of the list first
    const maxIdle: int
    ghost var made: seq<ClientConnection>   // all connections ever made
    ghost var idle: seq<Id>                 // which of them are in the list
    ghost var calls: map<Caller, Call>      // who holds which of them
    var next: Ticket                        // the number of the next call

    // The list and the machine's state are about the same connections.
    ghost predicate Linked()
      reads this
    {
      && |idle| == |connections|
      && (forall i :: 0 <= i < |idle| ==> idle[i] < |made| && made[idle[i]] == connections[i])
      && (forall i, j :: 0 <= i < j < |made| ==> made[i] != made[j])
      && (forall c :: c in calls ==> calls[c].id < |made|)
    }

    ghost function State(): Pool
      reads this, made
    {
      Pool(idle, Nets(made), calls, next)
    }

    ghost predicate Valid()
      reads this, made
    {
      Linked() && Aligned(State(), maxIdle)
    }

    constructor (maxIdle: int)
      ensures Valid() && State() == EMPTY && this.maxIdle == maxIdle
    {
      connections := [];
      this.maxIdle := maxIdle;
      made, idle, calls, next := [], [], map[], 0;
      new;
      EmptyAligned(maxIdle);
      assert Nets(made) == [];
    }

    method Get(ghost caller: Caller, ghost m: Command, ghost async: bool) returns (c: ClientConnection)
      requires Linked() && caller !in calls
      modifies this
      ensures Linked() && State() == Take(old(State()), caller, m, async)
      ensures caller in calls && c == made[calls[caller].id] && (fresh(c) || c in old(made))
      ensures forall x <- made :: fresh(x) || x in old(made)
    {
      if |connections| == 0 {
        c := new ClientConnection();
        calls := calls[caller := Call(|made|, next, m, async, Holding)];
        made := made + [c];
        assert Nets(made) == old(Nets(made)) + [Unconnected];
      } else {
        c := connections[0];
        connections := connections[1..];
        calls := calls[caller := Call(idle[0], next, m, async, Holding)];
        idle := idle[1..];
      }
      next := next + 1;
    }

    method Put(c: ClientConnection, ghost caller: Caller)
      requires Linked() && caller in calls && c == made[calls[caller].id]
      modifies this, c
      ensures Linked() && State() == GiveBack(old(State()), maxIdle, caller)
      ensures made == old(made)
    {
      ghost var id := calls[caller].id;
      if |connections| >= maxIdle {
        c.Finalize();
        assert Nets(made) == old(Nets(made))[id := Unconnected];
      } else {
        connections := [c] + connections;
        idle := [id] + idle;
      }
      calls := calls - {caller};
    }

    // The connection of a call, after the connection has changed.
    ghost method Proceeded(caller: Caller, phase: Phase, before: Pool)
      requires Linked() && WellFormed(before) && caller in calls && before.calls == calls && before.next == next
      requires before.idle == idle && |before.conns| == |made|
      requires forall i :: 0 <= i < |made| && i != calls[caller].id ==> made[i].net == before.conns[i]
      modifies this`calls
      ensures Linked() && State() == Proceed(before, caller, made[before.calls[caller].id].net, phase)
    {
      calls := calls[caller := calls[caller].(phase := phase)];
      assert Nets(made) == before.conns[calls[caller].id := made[calls[caller].id].net];
    }

    // Takes a connection and sends on it.
    method GetAndSend(m: Command, w: Weather, ghost caller: Caller, ghost async: bool)
      returns (c: ClientConnection, ok: bool, ghost steps: seq<Step>)
      requires Linked() && caller !in calls
      modifies this, made
      ensures Linked() && caller in calls && c == made[calls[caller].id]
      ensures calls[caller]
              == Call(calls[caller].id, old(next), m, async, if ok then Waiting else Finished(Failed))
      ensures ok ==> c.net.Connected?
      ensures fresh(c) || c in old(made)
      ensures forall x <- made :: fresh(x) || x in old(made)
      ensures Reaches(old(State()), maxIdle, steps, State()) && Mine(steps, caller, m, async)
    {
      hide Take, GiveBack, Sent, Reaches;
      ghost var start := State();
      var t := next;
      c := Get(caller, m, async);
      ghost var p1 := State();
      Taken(start, caller, m, async);
      ReachesStart(start, maxIdle);
      ReachesMore(start, maxIdle, [], start, Step.Get(caller, m, async));
      ok := c.DoAsync(t, m, w);
      SentConnected(p1.conns[calls[caller].id], t, m, w);
      Proceeded(caller, if ok then Waiting else Finished(Failed), p1);
      ReachesMore(start, maxIdle, [] + [Step.Get(caller, m, async)], p1, Step.Send(caller, w));
      steps := [] + [Step.Get(caller, m, async)] + [Step.Send(caller, w)];
    }

    // Publications arrive on the connection of a waiting call.
    method Arrive(c: ClientConnection, ns: seq<nat>, ghost caller: Caller) returns (ghost steps: seq<Step>)
      requires Linked() && caller in calls && c == made[calls[caller].id]
      modifies c
      ensures Linked() && c.net.Connected? == old(c.net).Connected?
      ensures Reaches(old(State()), maxIdle, steps, State()) && forall i :: 0 <= i < |steps| ==> steps[i].Push?
    {
      hide Reaches, Pushed;
      ghost var start, id := State(), calls[caller].id;
      steps := [];
      ReachesStart(start, maxIdle);
      for i := 0 to |ns|
        invariant Linked() && c.net.Connected? == old(c.net).Connected?
        invariant Reaches(start, maxIdle, steps, State())
        invariant forall j :: 0 <= j < |steps| ==> steps[j].Push?
      {
        if c.net.Connected? && c.net.topics != {} {
          ghost var p := State();
          ReachesMore(start, maxIdle, steps, p, Push(id, ns[i]));
          c.net := Pushed(c.net, ns[i]);
          assert Nets(made) == p.conns[id := c.net];
          steps := steps + [Push(id, ns[i])];
        }
      }
    }

    // A call takes the steps of the machine. With a fit command it keeps the pool aligned,
    // and comes back failed, with its own reply, or not at all.
    method Do(m: Command, w: Weather, arrivals: seq<nat>, ghost caller: Caller)
      returns (r: Reading, ghost steps: seq<Step>)
      requires Linked() && caller !in calls
      modifies this, made
      ensures Linked() && !r.Crashed?
      ensures Reaches(old(State()), maxIdle, steps, State()) && Mine(steps, caller, m, false)
      ensures old(Valid()) && Fit(m, maxIdle) ==>
                Valid() && (r.Done? ==> r.result == Failed || r.result == Got(Answer(old(next))))
    {
      hide Reaches, Aligned, Fit, Take;
      ghost var start := State();
      var c, ok, sent := GetAndSend(m, w, caller, false);
      if !ok {
        r, steps := Done(Failed), sent;
      } else {
        ghost var p := State();
        ghost var pushes := Arrive(c, arrivals, caller);
        ReachesConcat(start, maxIdle, sent, p, pushes, State());
        r, steps := Await(c, w, caller, m, start, sent + pushes);
        if r.Blocked? {
          return;
        }
      }
      steps := GiveBackTo(c, caller, m, start, steps);
    }

    // The read of a call that has sent its command.
    method Await(
      c: ClientConnection, w: Weather, ghost caller: Caller, ghost m: Command, ghost start: Pool,
      ghost steps: seq<Step>)
      returns (r: Reading, ghost steps': seq<Step>)
      requires Linked() && caller in calls && c == made[calls[caller].id] && c.net.Connected?
      requires calls[caller].phase.Waiting? && !calls[caller].async
      requires Reaches(start, maxIdle, steps, State()) && Mine(steps, caller, m, false)
      modifies this`calls, c
      ensures Linked() && caller in calls && c == made[calls[caller].id] && !calls[caller].async && !r.Crashed?
      ensures r.Done? ==> calls[caller].phase.Finished?
      ensures Reaches(start, maxIdle, steps', State()) && Mine(steps', caller, m, false)
      ensures Aligned(start, maxIdle) && Fit(m, maxIdle) ==>
                Aligned(State(), maxIdle) && (r.Done? ==> Own(old(calls[caller]), r.result))
    {
      hide Reaches, Aligned, Fit;
      ghost var p := State();
      r := c.Read(w);
      steps' := steps;
      if r.Blocked? {
        assert Nets(made) == p.conns;
      } else {
        Proceeded(caller, Finished(r.result), p);
        ReachesMore(start, maxIdle, steps, p, Step.Read(caller, w));
        steps' := steps + [Step.Read(caller, w)];
      }
      FitRun(start, maxIdle, steps', State(), caller, m);
      if r.Done? && Aligned(State(), maxIdle) {
        FinishedOwn(State(), maxIdle, caller);
      }
    }

    // The last step of a call.
    method GiveBackTo(
      c: ClientConnection, ghost caller: Caller, ghost m: Command, ghost start: Pool, ghost steps: seq<Step>)
      returns (ghost steps': seq<Step>)
      requires Linked() && caller in calls && c == made[calls[caller].id]
      requires calls[caller].phase.Finished? && !calls[caller].async
      requires Reaches(start, maxIdle, steps, State()) && Mine(steps, caller, m, false)
      modifies this, c
      ensures Linked() && Reaches(start, maxIdle, steps', State()) && Mine(steps', caller, m, false)
      ensures Aligned(start, maxIdle) && Fit(m, maxIdle) ==> Aligned(State(), maxIdle)
    {
      hide Reaches, Aligned, Fit, GiveBack;
      ReachesMore(start, maxIdle, steps, State(), Step.Put(caller));
      Put(c, caller);
      steps' := steps + [Step.Put(caller)];
      FitRun(start, maxIdle, steps', State(), caller, m);
    }

    // The connection used is not given back, so that any command may be sent.
    method DoAsync(m: Command, w: Weather, ghost caller: Caller) returns (ok: bool, ghost steps: seq<Step>)
      requires Linked() && caller !in calls
      modifies this, made
      ensures Linked()
      ensures Reaches(old(State()), maxIdle, steps, State()) && Mine(steps, caller, m, true)
      ensures old(Valid()) ==> Valid()
    {
      hide Reaches, Aligned, Take, GiveBack;
      ghost var start := State();
      var _, sent, begun := GetAndSend(m, w, caller, true);
      ok := sent;
      ReachesMore(start, maxIdle, begun, State(), Step.Leave(caller));
      calls := calls - {caller};
      steps := begun + [Step.Leave(caller)];
      AsyncFit(steps, caller, m, maxIdle);
      if Aligned(start, maxIdle) {
        AlwaysAligned(maxIdle, start, steps, State());
      }
    }

    method Close()
      requires Linked()
      modifies this, made
      ensures Linked() && connections == [] && State() == Next(old(State()), maxIdle, Step.Close)
      ensures old(Valid()) ==> Valid()
    {
      hide Aligned;
      ghost var start := State();
      if Aligned(start, maxIdle) {
        CloseKeeps(start, maxIdle);
      }
      ghost var n := 0;
      while |connections| > 0
        invariant Linked() && made == old(made) && calls == old(calls) && next == old(next)
        invariant n <= |start.idle| && idle == start.idle[n..]
        invariant forall i :: 0 <= i < |made| ==>
            made[i].net == if i in start.idle[..n] then Unconnected else start.conns[i]
        decreases |connections|
      {
        var c := connections[0];
        connections := connections[1..];
        idle := idle[1..];
        c.Finalize();
        assert start.idle[..n + 1] == start.idle[..n] + [start.idle[n]];
        n := n + 1;
      }
      assert start.idle[..n] == start.idle;
      assert Nets(made) == Next(start, maxIdle, Step.Close).conns;
    }
  }

  lemma Taken(p: Pool, caller: Caller, m: Command, async: bool)
    ensures var q := Take(p, caller, m, async);
            && caller in q.calls
            && q.calls[caller] == Call(q.calls[caller].id, p.next, m, async, Holding)
  {
  }

  lemma SentConnected(c: Conn, t: Ticket, m: Command, w: Weather)
    ensures Sent(c, t, m, w).1 ==> Sent(c, t, m, w).0.Connected?
  {
  }

  lemma ReachesStart(p: Pool, maxIdle: int)
    ensures Reaches(p, maxIdle, [], p)
  {
  }

  lemma {:induction false} ReachesConcat(
    p: Pool, maxIdle: int, a: seq<Step>, q: Pool, b: seq<Step>, r: Pool)
    requires Reaches(p, maxIdle, a, q) && Reaches(q, maxIdle, b, r)
    ensures Reaches(p, maxIdle, a + b, r)
    decreases |a|
  {
    hide Next, Enabled, WellFormed;
    if a == [] {
      assert a + b == b;
    } else {
      ReachesConcat(Next(p, maxIdle, a[0]), maxIdle, a[1..], q, b, r);
      assert (a + b)[1..] == a[1..] + b;
    }
  }

  // One call alone, with a fit command.
  lemma FitRun(p: Pool, maxIdle: int, steps: seq<Step>, q: Pool, caller: Caller, m: Command)
    requires Reaches(p, maxIdle, steps, q) && Mine(steps, caller, m, false)
    ensures Aligned(p, maxIdle) && Fit(m, maxIdle) ==> Aligned(q, maxIdle)
  {
    hide Aligned, Reaches, Fit;
    if Aligned(p, maxIdle) && Fit(m, maxIdle) {
      AlwaysAligned(maxIdle, p, steps, q);
    }
  }

  lemma AsyncFit(steps: seq<Step>, caller: Caller, m: Command, maxIdle: int)
    requires Mine(steps, caller, m, true)
    ensures AllFit(steps, maxIdle)
  {
    hide Fit;
  }

  lemma FinishedOwn(p: Pool, maxIdle: int, caller: Caller)
    requires Aligned(p, maxIdle) && caller in p.calls && p.calls[caller].phase.Finished? && !p.calls[caller].async
    ensures Own(p.calls[caller], p.calls[caller].phase.result)
  {
    AlignedCall(p, maxIdle, caller);
  }
}
