// Laws of the stats store over whole runs of commands and flushes.

module StatsLaws {
  import opened ByteStrings
  import opened Decimal
  import opened Wire
  import opened StatsMachine

  // ---------- runs ----------

  datatype Event = Request(h: Handler, d: seq<Bytes>) | Tick(interval: real)

  predicate Timed(evs: seq<Event>) {
    forall i :: 0 <= i < |evs| ==> evs[i].Tick? ==> evs[i].interval > 0.0
  }

  function Step(lib: Lib, st: Store, ev: Event): Store
    requires ev.Tick? ==> ev.interval > 0.0
  {
    match ev
    case Request(h, d) => Apply(lib, st, h, d).0
    case Tick(interval) => Flush(st, interval)
  }

  function Run(lib: Lib, st: Store, evs: seq<Event>): Store
    requires Timed(evs)
    decreases |evs|
  {
    if evs == [] then st else Run(lib, Step(lib, st, evs[0]), evs[1..])
  }

  lemma RunNothing(lib: Lib, st: Store)
    ensures Run(lib, st, []) == st
  {
  }

  lemma {:induction false} RunAppend(lib: Lib, st: Store, a: seq<Event>, b: seq<Event>)
    requires Timed(a) && Timed(b)
    ensures Timed(a + b) && Run(lib, st, a + b) == Run(lib, Run(lib, st, a), b)
    decreases |a|
  {
    hide Step;
    if a == [] {
      assert a + b == b;
    } else {
      assert (a + b)[1..] == a[1..] + b;
      RunAppend(lib, Step(lib, st, a[0]), a[1..], b);
    }
  }

  lemma RunSnoc(lib: Lib, st: Store, evs: seq<Event>, ev: Event)
    requires Timed(evs) && (ev.Tick? ==> ev.interval > 0.0)
    ensures Timed(evs + [ev]) && Run(lib, st, evs + [ev]) == Step(lib, Run(lib, st, evs), ev)
  {
    hide Step;
    RunAppend(lib, st, evs, [ev]);
    assert [ev][1..] == [];
  }

  // ---------- set replies add up ----------

  // What the reply of a command tells about the size of one set.
  function Credit(h: Handler, d: seq<Bytes>, reply: Reply, key: Bytes): int {
    if |d| >= 2 && d[0] == key && reply.Integer? then
      if h == SADD then reply.n
      else if h == SREM && reply.n >= 0 then -reply.n
      else 0
    else 0
  }

  function Ledger(lib: Lib, st: Store, evs: seq<Event>, key: Bytes): int
    requires Timed(evs)
    decreases |evs|
  {
    if evs == [] then 0
    else
      (if evs[0].Request?
       then Credit(evs[0].h, evs[0].d, Apply(lib, st, evs[0].h, evs[0].d).1, key) else 0)
      + Ledger(lib, Step(lib, st, evs[0]), evs[1..], key)
  }

  lemma CreditStep(lib: Lib, st: Store, h: Handler, d: seq<Bytes>, key: Bytes)
    ensures |SetAt(Apply(lib, st, h, d).0, key)|
            == |SetAt(st, key)| + Credit(h, d, Apply(lib, st, h, d).1, key)
  {
    hide Usage, NumError, ApplyToNumbers, ApplyToSets;
    if |d| >= Minimum(h) {
      if OnSets(h) {
        SetsCredit(st, h, d, key);
      } else {
        NumbersApart(lib, st, h, d);
      }
    }
  }

  lemma SetsCredit(st: Store, h: Handler, d: seq<Bytes>, key: Bytes)
    requires |d| >= Minimum(h) && OnSets(h)
    ensures var r := ApplyToSets(st, h, d);
            |SetAt(r.0, key)| == |SetAt(st, key)| + Credit(h, d, r.1, key)
  {
    hide UnionOf, InterOf, Cards, Memberships, OneOrMany, Arguments, PutSet, SetAt;
    var s, args := SetAt(st, d[0]), Arguments(d[1..]);
    if h == SADD {
      SetAtPut(st, d[0], s + args, key);
    } else if h == SREM {
      SetAtPut(st, d[0], s - args, key);
      FewerMembers(s, args);
    }
  }

  lemma FewerMembers(s: set<Bytes>, gone: set<Bytes>)
    ensures |s - gone| <= |s|
  {
    assert s == (s - gone) + s * gone;
  }

  lemma SetAtPut(st: Store, key: Bytes, s: set<Bytes>, other: Bytes)
    ensures SetAt(PutSet(st, key, s), other) == if other == key then s else SetAt(st, other)
  {
  }

  // The size of a set is what its SADD replies granted minus what its SREM replies took.
  lemma {:induction false} SetConservation(lib: Lib, st: Store, evs: seq<Event>, key: Bytes)
    requires Timed(evs)
    ensures |SetAt(Run(lib, st, evs), key)| == |SetAt(st, key)| + Ledger(lib, st, evs, key)
    decreases |evs|
  {
    hide Apply, Credit;
    if evs != [] {
      if evs[0].Request? {
        CreditStep(lib, st, evs[0].h, evs[0].d, key);
      }
      SetConservation(lib, Step(lib, st, evs[0]), evs[1..], key);
    }
  }

  // ---------- counters lose nothing ----------

  function CountAt(st: Store, key: Bytes): int {
    if key in st.counters then st.counters[key].value else 0
  }

  // What a COUNT adds to a key.
  function Added(ev: Event, key: Bytes): int {
    if ev.Request? && ev.h == COUNT && ev.d != [] && ev.d[0] == key && Amount(ev.d).Number?
    then Amount(ev.d).n else 0
  }

  predicate Deletes(ev: Event, key: Bytes) {
    ev.Request? && ev.h == DEL && key in ev.d
  }

  // What a flush reports, or a DEL discards, for a key.
  function Taken(st: Store, ev: Event, key: Bytes): int {
    if ev.Tick? || Deletes(ev, key) then CountAt(st, key) else 0
  }

  function TotalAdded(evs: seq<Event>, key: Bytes): int {
    if evs == [] then 0 else Added(evs[0], key) + TotalAdded(evs[1..], key)
  }

  function TotalTaken(lib: Lib, st: Store, evs: seq<Event>, key: Bytes): int
    requires Timed(evs)
    decreases |evs|
  {
    if evs == [] then 0
    else Taken(st, evs[0], key) + TotalTaken(lib, Step(lib, st, evs[0]), evs[1..], key)
  }

  lemma CountStep(lib: Lib, st: Store, ev: Event, key: Bytes)
    requires Fits(st) && (ev.Tick? ==> ev.interval > 0.0)
    ensures CountAt(Step(lib, st, ev), key) == Wrap(CountAt(st, key) + Added(ev, key) - Taken(st, ev, key))
    ensures Fits(Step(lib, st, ev))
  {
    hide Usage, NumError, ParseInt, ApplyToSets, ApplyToNumbers, Minimum, OnSets, Wrap;
    match ev
    case Request(h, d) =>
      ApplyFits(lib, st, h, d);
      CountRequest(lib, st, h, d, key);
    case Tick(_) =>
  }

  lemma CountRequest(lib: Lib, st: Store, h: Handler, d: seq<Bytes>, key: Bytes)
    requires Fits(st)
    ensures var ev := Request(h, d);
            CountAt(Apply(lib, st, h, d).0, key) == Wrap(CountAt(st, key) + Added(ev, key) - Taken(st, ev, key))
  {
    hide Usage, NumError, ApplyToSets, ApplyToNumbers, Wrap, Amount, CountAt, CountBy, Delete, Arguments;
    Unwrapped(CountAt(st, key));
    CountIsInt64(st, key);
    Unwrapped(0);
    if |d| >= Minimum(h) {
      if OnSets(h) {
        SetsApart(st, h, d);
        SameCount(st, ApplyToSets(st, h, d).0, key);
      } else if h == COUNT {
        CountCommand(lib, st, d);
        if Amount(d).Number? {
          AmountFits(d);
          CountAtCount(st, d[0], Amount(d).n, key);
        }
      } else if h == DEL {
        DeleteCommand(lib, st, d);
        CountAtDelete(st, Arguments(d), key);
        assert key in Arguments(d) <==> key in d;
      } else {
        CountersApart(lib, st, h, d);
        SameCount(st, ApplyToNumbers(lib, st, h, d).0, key);
      }
    }
  }

  lemma CountIsInt64(st: Store, key: Bytes)
    requires Fits(st)
    ensures IsInt64(CountAt(st, key))
  {
  }

  lemma SameCount(st: Store, st': Store, key: Bytes)
    requires st'.counters == st.counters
    ensures CountAt(st', key) == CountAt(st, key)
  {
  }

  lemma CountCommand(lib: Lib, st: Store, d: seq<Bytes>)
    requires d != []
    ensures ApplyToNumbers(lib, st, COUNT, d).0 == if Amount(d).Number? then CountBy(st, d[0], Amount(d).n) else st
  {
    hide NumError, Amount, CountBy;
  }

  lemma DeleteCommand(lib: Lib, st: Store, d: seq<Bytes>)
    requires d != []
    ensures ApplyToNumbers(lib, st, DEL, d).0 == Delete(st, Arguments(d))
  {
    hide NumError, Delete, Arguments;
  }

  lemma CountAtCount(st: Store, key: Bytes, n: int, other: Bytes)
    requires IsInt64(n)
    ensures CountAt(CountBy(st, key, n), other)
            == if other == key then Wrap(CountAt(st, key) + n) else CountAt(st, other)
  {
    hide Wrap;
    Unwrapped(n);
  }

  lemma CountAtDelete(st: Store, keys: set<Bytes>, key: Bytes)
    ensures CountAt(Delete(st, keys), key) == if key in keys then 0 else CountAt(st, key)
  {
  }

  lemma AmountFits(d: seq<Bytes>)
    requires Amount(d).Number?
    ensures IsInt64(Amount(d).n)
  {
  }

  lemma CountersApart(lib: Lib, st: Store, h: Handler, d: seq<Bytes>)
    requires |d| >= Minimum(h) && !OnSets(h) && h != DEL && h != COUNT
    ensures ApplyToNumbers(lib, st, h, d).0.counters == st.counters
  {
    hide NumError, ParseInt, Arguments, Wrap;
  }

  lemma Unwrapped(n: int)
    ensures IsInt64(n) ==> Wrap(n) == n
  {
  }

  // Over any run, the value of a counter is what was counted minus what flushes took
  // and deletions discarded, modulo the wrap-around of int64.
  lemma {:induction false} CounterConservation(lib: Lib, st: Store, evs: seq<Event>, key: Bytes)
    requires Fits(st) && Timed(evs)
    ensures CountAt(Run(lib, st, evs), key)
            == Wrap(CountAt(st, key) + TotalAdded(evs, key) - TotalTaken(lib, st, evs, key))
    decreases |evs|
  {
    hide Step, Added, Taken, Wrap;
    Unwrapped(CountAt(st, key));
    if evs != [] {
      var next := Step(lib, st, evs[0]);
      CountStep(lib, st, evs[0], key);
      CounterConservation(lib, next, evs[1..], key);
      WrapSum(CountAt(st, key) + Added(evs[0], key) - Taken(st, evs[0], key),
              TotalAdded(evs[1..], key) - TotalTaken(lib, next, evs[1..], key));
    }
  }

  // ---------- the window of rates ----------

  // The rates flushes compute for a key that stays in the store.
  function Rates(lib: Lib, st: Store, evs: seq<Event>, key: Bytes): seq<real>
    requires Timed(evs)
    decreases |evs|
  {
    if evs == [] then []
    else
      (if evs[0].Tick? then [CountAt(st, key) as real / evs[0].interval] else [])
      + Rates(lib, Step(lib, st, evs[0]), evs[1..], key)
  }

  // A window holds the newest hundred rates.
  lemma TrimIs(a: seq<real>)
    ensures |Trim(a)| == (if |a| < 100 then |a| else 100) && Trim(a) == a[|a| - |Trim(a)|..]
  {
  }

  lemma TrimTwice(a: seq<real>, b: seq<real>)
    ensures Trim(Trim(a) + b) == Trim(a + b)
  {
  }

  lemma TrimAgain(a: seq<real>)
    ensures Trim(Trim(a)) == Trim(a)
  {
  }

  // How a step changes the tally of a key it does not delete.
  lemma TallyStep(lib: Lib, st: Store, ev: Event, key: Bytes)
    requires key in st.counters && !Deletes(ev, key) && (ev.Tick? ==> ev.interval > 0.0)
    ensures key in Step(lib, st, ev).counters
    ensures ev.Tick? ==> Step(lib, st, ev).counters[key] == FlushTally(st.counters[key], ev.interval)
    ensures ev.Request? ==>
              && Step(lib, st, ev).counters[key].rate == st.counters[key].rate
              && Step(lib, st, ev).counters[key].history == st.counters[key].history
  {
    hide Usage, NumError, ParseInt, ApplyToSets;
    if ev.Request? && |ev.d| >= Minimum(ev.h) && OnSets(ev.h) {
      SetsApart(st, ev.h, ev.d);
    }
  }

  // Every rate ever current for the key, the initial one first.
  function RateLog(lib: Lib, st: Store, evs: seq<Event>, key: Bytes): (r: seq<real>)
    requires Timed(evs) && key in st.counters
    ensures |r| > 0
  {
    [st.counters[key].rate] + Rates(lib, st, evs, key)
  }

  lemma LogStep(lib: Lib, st: Store, evs: seq<Event>, key: Bytes)
    requires Timed(evs) && key in st.counters && evs != [] && !Deletes(evs[0], key)
    ensures key in Step(lib, st, evs[0]).counters
    ensures RateLog(lib, st, evs, key)
            == (if evs[0].Tick? then [st.counters[key].rate] else [])
               + RateLog(lib, Step(lib, st, evs[0]), evs[1..], key)
  {
    hide Step, Deletes, Trim;
    TallyStep(lib, st, evs[0], key);
  }

  // While a key is not deleted, its current rate is the last one computed and its
  // history is the newest hundred of all the earlier ones, in order.
  lemma {:induction false} RateWindow(lib: Lib, st: Store, evs: seq<Event>, key: Bytes)
    requires Timed(evs) && key in st.counters
    requires forall i :: 0 <= i < |evs| ==> !Deletes(evs[i], key)
    requires Trim(st.counters[key].history) == st.counters[key].history
    ensures key in Run(lib, st, evs).counters
    ensures var log := RateLog(lib, st, evs, key);
            var t := Run(lib, st, evs).counters[key];
            && t.rate == log[|log| - 1]
            && t.history == Trim(st.counters[key].history + log[..|log| - 1])
    decreases |evs|
  {
    hide Step, Deletes, Trim, Rates, FlushTally;
    var first := st.counters[key];
    if evs == [] {
      NoRates(lib, st, key);
      assert first.history + [first.rate][..0] == first.history;
    } else {
      var next := Step(lib, st, evs[0]);
      TallyStep(lib, st, evs[0], key);
      LogStep(lib, st, evs, key);
      Rolled(first);
      RateWindow(lib, next, evs[1..], key);
      var log := RateLog(lib, next, evs[1..], key);
      assert evs[0].Tick? ==> RateLog(lib, st, evs, key) == [first.rate] + log;
      assert evs[0].Request? ==> RateLog(lib, st, evs, key) == log by {
        assert [] + log == log;
      }
      SlideWindow(first.history, first.rate, log);
    }
  }

  lemma NoRates(lib: Lib, st: Store, key: Bytes)
    requires key in st.counters
    ensures RateLog(lib, st, [], key) == [st.counters[key].rate]
  {
  }

  lemma Rolled(t: Tally)
    ensures forall interval | interval > 0.0 ::
              && FlushTally(t, interval).history == Trim(t.history + [t.rate])
              && Trim(FlushTally(t, interval).history) == FlushTally(t, interval).history
  {
    hide Trim;
    TrimAgain(t.history + [t.rate]);
  }

  lemma SlideWindow(history: seq<real>, rate: real, log: seq<real>)
    requires |log| > 0
    ensures Trim(Trim(history + [rate]) + log[..|log| - 1]) == Trim(history + ([rate] + log)[..|log|])
  {
    hide Trim;
    TrimTwice(history + [rate], log[..|log| - 1]);
    assert history + [rate] + log[..|log| - 1] == history + ([rate] + log)[..|log|];
  }

  function Ticks(evs: seq<Event>): nat {
    if evs == [] then 0 else (if evs[0].Tick? then 1 else 0) + Ticks(evs[1..])
  }

  lemma {:induction false} OneRatePerFlush(lib: Lib, st: Store, evs: seq<Event>, key: Bytes)
    requires Timed(evs)
    ensures |Rates(lib, st, evs, key)| == Ticks(evs)
    decreases |evs|
  {
    hide Step;
    if evs != [] {
      OneRatePerFlush(lib, Step(lib, st, evs[0]), evs[1..], key);
    }
  }

  lemma Born(lib: Lib, st: Store, d: seq<Bytes>)
    requires FireAndForget(COUNT, d) && d[0] !in st.counters
    ensures Step(lib, st, Request(COUNT, d)) == CountBy(st, d[0], Amount(d).n)
    ensures d[0] in Step(lib, st, Request(COUNT, d)).counters
    ensures Step(lib, st, Request(COUNT, d)).counters[d[0]] == Tally(Amount(d).n, 0.0, [])
  {
    CountCommand(lib, st, d);
  }

  // From the COUNT that creates a counter on: after n flushes its history is exactly the
  // newest hundred of the initial rate 0 followed by the first n - 1 rates computed.
  lemma RateWindowFromBirth(lib: Lib, st: Store, d: seq<Bytes>, evs: seq<Event>)
    requires FireAndForget(COUNT, d) && d[0] !in st.counters
    requires Timed(evs) && forall i :: 0 <= i < |evs| ==> !Deletes(evs[i], d[0])
    ensures var rates := Rates(lib, Step(lib, st, Request(COUNT, d)), evs, d[0]);
            var final := Run(lib, st, [Request(COUNT, d)] + evs);
            && |rates| == Ticks(evs)
            && d[0] in final.counters
            && final.counters[d[0]].history == Trim(([0.0] + rates)[..Ticks(evs)])
  {
    hide Step, Deletes, Rates, Trim, Amount;
    var key, born := d[0], Step(lib, st, Request(COUNT, d));
    Born(lib, st, d);
    RunFrom(lib, st, Request(COUNT, d), evs);
    NoHistory();
    RateWindow(lib, born, evs, key);
    OneRatePerFlush(lib, born, evs, key);
    var log := RateLog(lib, born, evs, key);
    assert [] + log[..|log| - 1] == log[..|log| - 1];
  }

  lemma RunFrom(lib: Lib, st: Store, ev: Event, evs: seq<Event>)
    requires Timed(evs) && ev.Request?
    ensures Timed([ev] + evs)
    ensures Run(lib, st, [ev] + evs) == Run(lib, Step(lib, st, ev), evs)
  {
    hide Step;
    assert ([ev] + evs)[1..] == evs;
  }

  lemma NoHistory()
    ensures Trim([]) == []
  {
  }

  // ---------- interleavings of INCR and DECR ----------

  datatype Delta = Up(n: int) | Down(n: int)

  predicate Int64Deltas(ds: seq<Delta>) {
    forall i :: 0 <= i < |ds| ==> IsInt64(ds[i].n)
  }

  function Signed(d: Delta): int {
    if d.Up? then d.n else -d.n
  }

  function Sum(ds: seq<Delta>): int {
    if ds == [] then 0 else Signed(ds[0]) + Sum(ds[1..])
  }

  function Move(st: Store, key: Bytes, d: Delta): Store {
    if d.Up? then Increment(st, key, d.n).0 else Decrement(st, key, d.n).0
  }

  function MoveAll(st: Store, key: Bytes, ds: seq<Delta>): Store
    decreases |ds|
  {
    if ds == [] then st else MoveAll(Move(st, key, ds[0]), key, ds[1..])
  }

  function ValueAt(st: Store, key: Bytes): int {
    if key in st.values then st.values[key] else 0
  }

  // Only the signed sum of the deltas matters, even when the first one creates the key.
  lemma {:induction false} MovesAddUp(st: Store, key: Bytes, ds: seq<Delta>)
    requires IsInt64(ValueAt(st, key)) && Int64Deltas(ds) && ds != []
    ensures MoveAll(st, key, ds) == Assign(st, key, Wrap(ValueAt(st, key) + Sum(ds)))
    decreases |ds|
  {
    hide Wrap, Move;
    var next := Move(st, key, ds[0]);
    MoveStep(st, key, ds[0]);
    if |ds| > 1 {
      MovesAddUp(next, key, ds[1..]);
      WrapSum(ValueAt(st, key) + Signed(ds[0]), Sum(ds[1..]));
    } else {
      assert ds[1..] == [];
    }
  }

  lemma MoveStep(st: Store, key: Bytes, d: Delta)
    requires IsInt64(ValueAt(st, key)) && IsInt64(d.n)
    ensures Move(st, key, d) == Assign(st, key, Wrap(ValueAt(st, key) + Signed(d)))
    ensures IsInt64(ValueAt(Move(st, key, d), key))
  {
    if d.Up? {
      Unwrapped(d.n);
    }
  }

  // One order in which the operations of several clients can reach the server.
  ghost predicate Interleaves(clients: seq<seq<Delta>>, merged: seq<Delta>)
    decreases |merged|
  {
    if merged == [] then forall i :: 0 <= i < |clients| ==> clients[i] == []
    else exists i :: 0 <= i < |clients| && clients[i] != [] && clients[i][0] == merged[0]
                     && Interleaves(clients[i := clients[i][1..]], merged[1..])
  }

  function SumAll(clients: seq<seq<Delta>>): int {
    if clients == [] then 0 else Sum(clients[0]) + SumAll(clients[1..])
  }

  function LengthAll(clients: seq<seq<Delta>>): nat {
    if clients == [] then 0 else |clients[0]| + LengthAll(clients[1..])
  }

  lemma {:induction false} TakeOne(clients: seq<seq<Delta>>, i: nat)
    requires i < |clients| && clients[i] != []
    ensures SumAll(clients) == Signed(clients[i][0]) + SumAll(clients[i := clients[i][1..]])
    ensures LengthAll(clients) == 1 + LengthAll(clients[i := clients[i][1..]])
  {
    var taken := clients[i := clients[i][1..]];
    if i == 0 {
      assert taken[1..] == clients[1..];
    } else {
      TakeOne(clients[1..], i - 1);
      assert taken[1..] == clients[1..][i - 1 := clients[i][1..]];
    }
  }

  lemma {:induction false} NothingLeft(clients: seq<seq<Delta>>)
    requires forall i :: 0 <= i < |clients| ==> clients[i] == []
    ensures SumAll(clients) == 0 && LengthAll(clients) == 0
  {
    if clients != [] {
      NothingLeft(clients[1..]);
    }
  }

  lemma {:induction false} InterleavingSum(clients: seq<seq<Delta>>, merged: seq<Delta>)
    requires Interleaves(clients, merged)
    ensures Sum(merged) == SumAll(clients) && |merged| == LengthAll(clients)
    decreases |merged|
  {
    if merged == [] {
      NothingLeft(clients);
    } else {
      var i :| 0 <= i < |clients| && clients[i] != [] && clients[i][0] == merged[0]
               && Interleaves(clients[i := clients[i][1..]], merged[1..]);
      TakeOne(clients, i);
      InterleavingSum(clients[i := clients[i][1..]], merged[1..]);
    }
  }

  lemma MoveNone(st: Store, key: Bytes)
    ensures MoveAll(st, key, []) == st
  {
  }

  // Any two interleavings of the same clients leave the same store.
  lemma InterleavingsAgree(st: Store, key: Bytes, clients: seq<seq<Delta>>, a: seq<Delta>, b: seq<Delta>)
    requires IsInt64(ValueAt(st, key)) && Int64Deltas(a) && Int64Deltas(b)
    requires Interleaves(clients, a) && Interleaves(clients, b)
    ensures MoveAll(st, key, a) == MoveAll(st, key, b)
    ensures a != [] ==> ValueAt(MoveAll(st, key, a), key) == Wrap(ValueAt(st, key) + SumAll(clients))
  {
    hide Interleaves, Sum, SumAll, MoveAll, Wrap;
    InterleavingSum(clients, a);
    InterleavingSum(clients, b);
    MoveNone(st, key);
    if a != [] {
      MovesAddUp(st, key, a);
      MovesAddUp(st, key, b);
    }
  }

  // The stored value does not depend on the order, but a reply does: DECR of a missing
  // key answers the amount itself, not the value it stores.
  lemma DecrementReply(st: Store, key: Bytes, n: int)
    requires IsInt64(ValueAt(st, key)) && IsInt64(n)
    ensures Decrement(st, key, n).1 == ValueAt(Decrement(st, key, n).0, key)
            <==> key in st.values || n == 0 || n == MIN_INT64
  {
  }

  // The first DECR of a key stores -1 and answers 1.
  lemma FirstDecrement(key: Bytes)
    ensures Decrement(EMPTY, key, 1) == (Assign(EMPTY, key, -1), 1)
  {
  }
}
