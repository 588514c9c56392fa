// What clients observe of the stats store, told on the replies of the commands alone: what is
// written is read, over any run of commands and flushes.

module StatsObserved {
  import opened ByteStrings
  import opened Decimal
  import opened Wire
  import opened StatsMachine
  import opened StatsLaws

  function Said(lib: Lib, st: Store, h: Handler, d: seq<Bytes>): Reply {
    Apply(lib, st, h, d).1
  }

  // The text of an int64.
  predicate IsNumber(text: Bytes) {
    Numeral(text) && IsInt64(SignedValue(text))
  }

  lemma NumberRead(text: Bytes)
    ensures ParseInt(text).Number? <==> IsNumber(text)
    ensures IsNumber(text) ==> ParseInt(text) == Number(SignedValue(text))
  {
    hide ParseInt;
    ParseIntExactly(text);
  }

  // What an argument that is no such text is reported as: bad syntax, unless the number grows
  // too large before the first byte that is no digit.
  lemma ReportSpelled(lib: Lib, text: Bytes)
    requires !IsNumber(text)
    ensures NumError(lib, text)
            == Ascii("strconv.ParseInt: parsing ") + lib.quote(text) + Ascii(": ")
               + if Unsigned(text) == [] || exists k :: StopsAt(Unsigned(text), k) then Ascii("invalid syntax")
                 else Ascii("value out of range")
  {
    hide ParseInt, Numeral, SignedValue, StopsAt, Ascii;
    ParseIntExactly(text);
  }

  // ---------- arguments ----------

  // Too few arguments change nothing and earn the usage error.
  lemma TooFewArguments(lib: Lib, st: Store, h: Handler, d: seq<Bytes>)
    ensures d == [] ==> Apply(lib, st, h, d) == (st, Failed(Usage(h)))
    ensures |d| == 1 && h in {SET, SETNX, SADD, SREM, SDIFF, SISMEMBER, SINTER, SUNION} ==>
              Apply(lib, st, h, d) == (st, Failed(Usage(h)))
    ensures |d| == 1 && h !in {SET, SETNX, SADD, SREM, SDIFF, SISMEMBER, SINTER, SUNION} ==>
              !Said(lib, st, h, d).Failed?
  {
    hide Usage, NumError, ParseInt;
  }

  // INCR, DECR and COUNT without an amount are the same with amount 1.
  lemma DefaultAmount(lib: Lib, st: Store, h: Handler, k: Bytes)
    requires h in {INCR, DECR, COUNT}
    ensures Apply(lib, st, h, [k]) == Apply(lib, st, h, [k, Ascii("1")])
  {
    hide NumError, Usage, Increment, Decrement, CountBy;
    OneReads();
  }

  lemma OneReads()
    ensures ParseInt(Ascii("1")) == Number(1)
  {
    hide ParseInt, FormatInt;
    OnePrinted();
    IntRoundTrip(1);
  }

  lemma OnePrinted()
    ensures Ascii("1") == FormatInt(1)
  {
  }

  // ---------- values ----------

  // GET and EXISTS look at their first key only and change nothing.
  lemma ValueQueries(lib: Lib, st: Store, k: Bytes, more: seq<Bytes>)
    ensures Said(lib, st, GET, [k] + more) == Said(lib, st, GET, [k])
    ensures Said(lib, st, GET, [k]) == Nil || Said(lib, st, GET, [k]).Integer?
    ensures Said(lib, st, EXISTS, [k] + more) == Integer(if Said(lib, st, GET, [k]) == Nil then 0 else 1)
    ensures Apply(lib, st, GET, [k] + more).0 == st == Apply(lib, st, EXISTS, [k] + more).0
  {
    hide NumError, Usage;
  }

  lemma GetIs(lib: Lib, st: Store, k: Bytes)
    ensures Said(lib, st, GET, [k]) == if k in st.values then Integer(st.values[k]) else Nil
  {
    hide NumError, Usage;
  }

  // The value a key counts from.
  function ValueOf(lib: Lib, st: Store, k: Bytes): int {
    var reply := Said(lib, st, GET, [k]);
    if reply.Integer? then reply.n else 0
  }

  // SET stores the number its text denotes.
  lemma SetLaw(lib: Lib, st: Store, k: Bytes, text: Bytes, more: seq<Bytes>)
    ensures var (after, reply) := Apply(lib, st, SET, [k, text] + more);
            if IsNumber(text) then reply == Integer(1) && Said(lib, after, GET, [k]) == Integer(SignedValue(text))
            else reply == Failed(NumError(lib, text)) && after == st
  {
    hide NumError, Usage, ParseInt, IsNumber, SignedValue;
    NumberRead(text);
    GetIs(lib, Apply(lib, st, SET, [k, text] + more).0, k);
  }

  // SETNX does so exactly when GET finds nothing.
  lemma SetNxLaw(lib: Lib, st: Store, k: Bytes, text: Bytes, more: seq<Bytes>)
    ensures var (after, reply) := Apply(lib, st, SETNX, [k, text] + more);
            if !IsNumber(text) then reply == Failed(NumError(lib, text)) && after == st
            else if Said(lib, st, GET, [k]) == Nil then
              reply == Integer(1) && Said(lib, after, GET, [k]) == Integer(SignedValue(text))
            else reply == Integer(-1) && after == st
  {
    hide NumError, Usage, ParseInt, IsNumber, SignedValue;
    NumberRead(text);
    GetIs(lib, st, k);
    GetIs(lib, Apply(lib, st, SETNX, [k, text] + more).0, k);
  }

  // INCR adds, and replies with what GET then says.
  lemma IncrLaw(lib: Lib, st: Store, k: Bytes, text: Bytes, more: seq<Bytes>)
    ensures var (after, reply) := Apply(lib, st, INCR, [k, text] + more);
            if IsNumber(text) then
              reply == Said(lib, after, GET, [k]) == Integer(Wrap(ValueOf(lib, st, k) + SignedValue(text)))
            else reply == Failed(NumError(lib, text)) && after == st
  {
    hide NumError, Usage, ParseInt, Numeral, SignedValue, Wrap;
    NumberRead(text);
    GetIs(lib, st, k);
    GetIs(lib, Apply(lib, st, INCR, [k, text] + more).0, k);
    if IsNumber(text) {
      Unwrapped(SignedValue(text));
    }
  }

  // DECR subtracts, and replies with what GET then says unless the key was missing.
  lemma DecrLaw(lib: Lib, st: Store, k: Bytes, text: Bytes, more: seq<Bytes>)
    ensures var (after, reply) := Apply(lib, st, DECR, [k, text] + more);
            if IsNumber(text) then
              && Said(lib, after, GET, [k]) == Integer(Wrap(ValueOf(lib, st, k) - SignedValue(text)))
              && reply == if Said(lib, st, GET, [k]) == Nil then Integer(SignedValue(text))
                          else Said(lib, after, GET, [k])
            else reply == Failed(NumError(lib, text)) && after == st
  {
    hide NumError, Usage, ParseInt, IsNumber, SignedValue, Wrap;
    NumberRead(text);
    GetIs(lib, st, k);
    GetIs(lib, Apply(lib, st, DECR, [k, text] + more).0, k);
  }

  // COUNT adds to the counter and says nothing.
  lemma CountLaw(lib: Lib, st: Store, k: Bytes, text: Bytes, more: seq<Bytes>)
    ensures var (after, reply) := Apply(lib, st, COUNT, [k, text] + more);
            if IsNumber(text) then
              reply == Silent && k in after.counters
              && CountAt(after, k) == Wrap(CountAt(st, k) + SignedValue(text))
            else reply == Failed(NumError(lib, text)) && after == st
  {
    hide NumError, Usage, ParseInt, Numeral, SignedValue, Wrap;
    NumberRead(text);
    if IsNumber(text) {
      Unwrapped(SignedValue(text));
    }
  }

  // DEL answers how many of the keys it names, each counted once, GET answers, plus how many
  // have a counter; afterwards none of them has either, and all others are as before.
  lemma DelLaw(lib: Lib, st: Store, d: seq<Bytes>, k: Bytes)
    requires d != []
    ensures var (after, reply) := Apply(lib, st, DEL, d);
            && reply == Integer(|set x | x in d && Said(lib, st, GET, [x]) != Nil|
                                + |set x | x in d && x in st.counters|)
            && Said(lib, after, GET, [k]) == (if k in d then Nil else Said(lib, st, GET, [k]))
            && (k in after.counters <==> k in st.counters && k !in d)
            && (k in after.counters ==> after.counters[k] == st.counters[k])
            && after.sets == st.sets
  {
    hide Said, Apply, Delete, Found, Arguments;
    DelIs(lib, st, d);
    DeletedIs(st, Arguments(d), k);
    assert k in Arguments(d) <==> k in d;
    GetIs(lib, st, k);
    GetIs(lib, Apply(lib, st, DEL, d).0, k);
    FoundIs(lib, st, d);
  }

  lemma DeletedIs(st: Store, keys: set<Bytes>, k: Bytes)
    ensures var after := Delete(st, keys);
            && (k in after.values <==> k in st.values && k !in keys)
            && (k in after.values ==> after.values[k] == st.values[k])
            && (k in after.counters <==> k in st.counters && k !in keys)
            && (k in after.counters ==> after.counters[k] == st.counters[k])
            && after.sets == st.sets
  {
  }

  lemma FoundIs(lib: Lib, st: Store, d: seq<Bytes>)
    ensures Found(st, Arguments(d))
            == |set x | x in d && Said(lib, st, GET, [x]) != Nil| + |set x | x in d && x in st.counters|
  {
    hide Said;
    forall x
      ensures Said(lib, st, GET, [x]) != Nil <==> x in st.values
    {
      GetIs(lib, st, x);
    }
    var keys := Arguments(d);
    assert (set x | x in d && Said(lib, st, GET, [x]) != Nil) == keys * st.values.Keys;
    assert (set x | x in d && x in st.counters) == keys * st.counters.Keys;
  }

  lemma DelIs(lib: Lib, st: Store, d: seq<Bytes>)
    requires d != []
    ensures Apply(lib, st, DEL, d) == (Delete(st, Arguments(d)), Integer(Found(st, Arguments(d))))
  {
    hide NumError, Usage, Delete, Found, Arguments;
  }

  // ---------- values over runs ----------

  // A command that gives a key a value.
  predicate Writes(ev: Event, k: Bytes) {
    && ev.Request? && ev.d != [] && ev.d[0] == k
    && ((ev.h in {SET, SETNX} && |ev.d| > 1 && IsNumber(ev.d[1]))
        || (ev.h in {INCR, DECR} && (|ev.d| > 1 ==> IsNumber(ev.d[1]))))
  }

  lemma ValuesStep(lib: Lib, st: Store, ev: Event, k: Bytes)
    requires ev.Tick? ==> ev.interval > 0.0
    ensures var after := Step(lib, st, ev);
            && (k in after.values <==> Writes(ev, k) || (k in st.values && !Deletes(ev, k)))
            && (!Writes(ev, k) && !Deletes(ev, k) && k in st.values ==> after.values[k] == st.values[k])
  {
    hide NumError, Usage, ApplyToNumbers, ApplyToSets, IsNumber, Writes;
    if ev.Request? && |ev.d| >= Minimum(ev.h) && OnSets(ev.h) {
      SetsApart(st, ev.h, ev.d);
      WritesIs(ev, k);
    } else if ev.Request? && |ev.d| >= Minimum(ev.h) {
      if ev.h == DEL {
        DeleteCommand(lib, st, ev.d);
        DeletedIs(st, Arguments(ev.d), k);
        WritesIs(ev, k);
      } else {
        NumbersStep(lib, st, ev.h, ev.d, k);
      }
    } else {
      WritesIs(ev, k);
    }
  }

  lemma WritesIs(ev: Event, k: Bytes)
    ensures Writes(ev, k) ==> ev.Request? && ev.h in {SET, SETNX, INCR, DECR} && |ev.d| >= Minimum(ev.h)
  {
    hide IsNumber;
  }

  lemma NumbersStep(lib: Lib, st: Store, h: Handler, d: seq<Bytes>, k: Bytes)
    requires |d| >= Minimum(h) && !OnSets(h) && h != DEL
    ensures var after := ApplyToNumbers(lib, st, h, d).0;
            && (k in after.values <==> Writes(Request(h, d), k) || k in st.values)
            && (!Writes(Request(h, d), k) && k in st.values ==> after.values[k] == st.values[k])
  {
    hide NumError, ParseInt, IsNumber, Wrap;
    if |d| > 1 {
      NumberRead(d[1]);
    }
  }

  lemma {:induction false} KeptUnwritten(lib: Lib, st: Store, evs: seq<Event>, k: Bytes)
    requires Timed(evs) && k in st.values
    requires forall i :: 0 <= i < |evs| ==> !Writes(evs[i], k) && !Deletes(evs[i], k)
    ensures k in Run(lib, st, evs).values && Run(lib, st, evs).values[k] == st.values[k]
    decreases |evs|
  {
    hide Step, Writes, Deletes;
    if evs != [] {
      ValuesStep(lib, st, evs[0], k);
      KeptUnwritten(lib, Step(lib, st, evs[0]), evs[1..], k);
    }
  }

  // Read after write: once SET has stored a number, GET answers it through any commands and
  // flushes that neither write nor delete the key.
  lemma ReadAfterWrite(lib: Lib, st: Store, k: Bytes, text: Bytes, evs: seq<Event>)
    requires IsNumber(text) && Timed(evs)
    requires forall i :: 0 <= i < |evs| ==> !Writes(evs[i], k) && !Deletes(evs[i], k)
    ensures Said(lib, Run(lib, Apply(lib, st, SET, [k, text]).0, evs), GET, [k]) == Integer(SignedValue(text))
  {
    hide Apply, IsNumber, Writes, Deletes, Run;
    var after := Apply(lib, st, SET, [k, text]).0;
    SetLaw(lib, st, k, text, []);
    assert [k, text] + [] == [k, text];
    GetIs(lib, after, k);
    KeptUnwritten(lib, after, evs, k);
    GetIs(lib, Run(lib, after, evs), k);
  }

  // A write that nothing has deleted since.
  ghost predicate Standing(evs: seq<Event>, k: Bytes) {
    exists i :: 0 <= i < |evs| && Writes(evs[i], k) && forall j :: i < j < |evs| ==> !Deletes(evs[j], k)
  }

  lemma StandingSnoc(evs: seq<Event>, ev: Event, k: Bytes)
    ensures Standing(evs + [ev], k) <==> Writes(ev, k) || (Standing(evs, k) && !Deletes(ev, k))
  {
    hide Writes, Deletes;
    var longer := evs + [ev];
    assert longer[|evs|] == ev;
    if Standing(evs, k) && !Deletes(ev, k) {
      var i :| 0 <= i < |evs| && Writes(evs[i], k) && forall j :: i < j < |evs| ==> !Deletes(evs[j], k);
      assert Writes(longer[i], k);
    }
    if Standing(longer, k) && !Writes(ev, k) {
      var i :| 0 <= i < |longer| && Writes(longer[i], k) && forall j :: i < j < |longer| ==> !Deletes(longer[j], k);
      assert Writes(evs[i], k);
      assert forall j :: i < j < |evs| ==> evs[j] == longer[j];
      assert !Deletes(longer[|evs|], k);
    }
  }

  // From an empty store: GET finds nothing exactly for a key that was never written, or was
  // deleted after every write.
  lemma {:induction false} NilExactly(lib: Lib, evs: seq<Event>, k: Bytes)
    requires Timed(evs)
    ensures Said(lib, Run(lib, EMPTY, evs), GET, [k]) == Nil <==> !Standing(evs, k)
  {
    hide Said, Standing, Writes, Deletes, Step, Run;
    GetIs(lib, Run(lib, EMPTY, evs), k);
    if evs == [] {
      RunNothing(lib, EMPTY);
      NothingStands(k);
    } else {
      var front, ev := evs[..|evs| - 1], evs[|evs| - 1];
      assert evs == front + [ev];
      NilExactly(lib, front, k);
      GetIs(lib, Run(lib, EMPTY, front), k);
      RunSnoc(lib, EMPTY, front, ev);
      ValuesStep(lib, Run(lib, EMPTY, front), ev, k);
      StandingSnoc(front, ev, k);
    }
  }

  lemma NothingStands(k: Bytes)
    ensures !Standing([], k)
  {
  }

  // ---------- sets ----------

  // Membership, as SISMEMBER reports it.
  predicate Holds(lib: Lib, st: Store, k: Bytes, x: Bytes) {
    Said(lib, st, SISMEMBER, [k, x]) == Integer(1)
  }

  // What SMEMBERS lists.
  function Listing(lib: Lib, st: Store, k: Bytes): set<Bytes> {
    var reply := Said(lib, st, SMEMBERS, [k]);
    if reply.Members? then reply.members else {}
  }

  lemma HoldsIs(lib: Lib, st: Store, k: Bytes, x: Bytes)
    ensures Holds(lib, st, k, x) <==> x in SetAt(st, k)
    ensures !Holds(lib, st, k, x) ==> Said(lib, st, SISMEMBER, [k, x]) == Integer(0)
  {
    hide Usage, SetAt;
    assert [k, x][1..] == [x];
  }

  lemma MembersIs(lib: Lib, st: Store, k: Bytes, more: seq<Bytes>)
    ensures Said(lib, st, SMEMBERS, [k] + more) == if k in st.sets then Members(SetAt(st, k)) else Nil
  {
    hide Usage;
  }

  // SMEMBERS lists exactly the members, or reports that there is no set.
  lemma MembersLaw(lib: Lib, st: Store, k: Bytes, more: seq<Bytes>)
    ensures Said(lib, st, SMEMBERS, [k] + more) == Said(lib, st, SMEMBERS, [k])
    ensures Said(lib, st, SMEMBERS, [k]) == Nil || Said(lib, st, SMEMBERS, [k]) == Members(Listing(lib, st, k))
    ensures forall x :: x in Listing(lib, st, k) <==> Holds(lib, st, k, x)
  {
    hide Usage, Holds, Apply;
    MembersIs(lib, st, k, more);
    MembersIs(lib, st, k, []);
    assert [k] + [] == [k];
    forall x
      ensures x in Listing(lib, st, k) <==> Holds(lib, st, k, x)
    {
      HoldsIs(lib, st, k, x);
    }
  }

  lemma ListingIs(lib: Lib, st: Store, k: Bytes)
    ensures Listing(lib, st, k) == SetAt(st, k)
    ensures Said(lib, st, SMEMBERS, [k]) == Nil <==> k !in st.sets
  {
    hide Apply;
    MembersIs(lib, st, k, []);
    assert [k] + [] == [k];
  }

  // SISMEMBER of several members answers each in its place.
  lemma IsMemberLaw(lib: Lib, st: Store, k: Bytes, xs: seq<Bytes>)
    requires |xs| > 1
    ensures var reply := Said(lib, st, SISMEMBER, [k] + xs);
            && reply.Integers? && |reply.ns| == |xs|
            && forall i :: 0 <= i < |xs| ==> reply.ns[i] == if Holds(lib, st, k, xs[i]) then 1 else 0
  {
    hide Usage, Holds, SetAt;
    assert ([k] + xs)[1..] == xs;
    forall i | 0 <= i < |xs|
      ensures Holds(lib, st, k, xs[i]) <==> xs[i] in SetAt(st, k)
    {
      HoldsIs(lib, st, k, xs[i]);
    }
  }

  // SCARD answers the size of what SMEMBERS lists, for each key in its place.
  lemma CardLaw(lib: Lib, st: Store, ks: seq<Bytes>)
    requires ks != []
    ensures var reply := Said(lib, st, SCARD, ks);
            if |ks| == 1 then reply == Integer(|Listing(lib, st, ks[0])|)
            else reply.Integers? && |reply.ns| == |ks|
                 && forall i :: 0 <= i < |ks| ==> reply.ns[i] == |Listing(lib, st, ks[i])|
  {
    hide Usage, Listing, SetAt;
    forall i | 0 <= i < |ks|
      ensures Listing(lib, st, ks[i]) == SetAt(st, ks[i])
    {
      ListingIs(lib, st, ks[i]);
    }
  }

  // SDIFF: in the first and in none of the others; nothing if there is no first set.
  lemma DiffLaw(lib: Lib, st: Store, k: Bytes, ks: seq<Bytes>)
    requires ks != []
    ensures var reply := Said(lib, st, SDIFF, [k] + ks);
            if Said(lib, st, SMEMBERS, [k]) == Nil then reply == Nil
            else reply.Members?
                 && forall x :: x in reply.members <==> Holds(lib, st, k, x) && forall j <- ks :: !Holds(lib, st, j, x)
  {
    hide Usage, Holds, SetAt;
    assert ([k] + ks)[1..] == ks;
    ListingIs(lib, st, k);
    forall j, x
      ensures Holds(lib, st, j, x) <==> x in SetAt(st, j)
    {
      HoldsIs(lib, st, j, x);
    }
  }

  // SINTER: in all of them; nothing if one is missing.
  lemma InterLaw(lib: Lib, st: Store, ks: seq<Bytes>)
    requires |ks| > 1
    ensures var reply := Said(lib, st, SINTER, ks);
            if exists k <- ks :: Said(lib, st, SMEMBERS, [k]) == Nil then reply == Nil
            else reply.Members? && forall x :: x in reply.members <==> forall k <- ks :: Holds(lib, st, k, x)
  {
    hide Usage, Holds, SetAt, Said;
    InterIs(lib, st, ks);
    forall k
      ensures Said(lib, st, SMEMBERS, [k]) == Nil <==> k !in st.sets
    {
      ListingIs(lib, st, k);
    }
    forall k, x
      ensures Holds(lib, st, k, x) <==> x in SetAt(st, k)
    {
      HoldsIs(lib, st, k, x);
    }
  }

  lemma InterIs(lib: Lib, st: Store, ks: seq<Bytes>)
    requires |ks| > 1
    ensures Said(lib, st, SINTER, ks) == if forall k <- ks :: k in st.sets then Members(InterOf(st, ks)) else Nil
  {
    hide Usage, InterOf;
  }

  // SUNION: in one of them at least, missing ones counting as empty.
  lemma UnionLaw(lib: Lib, st: Store, ks: seq<Bytes>)
    requires |ks| > 1
    ensures var reply := Said(lib, st, SUNION, ks);
            reply.Members? && forall x :: x in reply.members <==> exists k <- ks :: Holds(lib, st, k, x)
  {
    hide Usage, Holds, SetAt;
    forall k, x
      ensures Holds(lib, st, k, x) <==> x in SetAt(st, k)
    {
      HoldsIs(lib, st, k, x);
    }
  }

  // Asking changes nothing.
  lemma QueriesChangeNothing(lib: Lib, st: Store, h: Handler, d: seq<Bytes>)
    requires h in {GET, EXISTS, SCARD, SMEMBERS, SISMEMBER, SDIFF, SINTER, SUNION}
    ensures Apply(lib, st, h, d).0 == st
  {
    hide Usage, SetAt, UnionOf, InterOf;
  }

  // SADD answers how many members are new, SREM how many were there, each counted once;
  // SREM answers -1 exactly when SMEMBERS finds no set.
  lemma AddRemoveReplies(lib: Lib, st: Store, k: Bytes, xs: seq<Bytes>)
    requires xs != []
    ensures Said(lib, st, SADD, [k] + xs) == Integer(|set x | x in xs && !Holds(lib, st, k, x)|)
    ensures Said(lib, st, SREM, [k] + xs)
            == Integer(if Said(lib, st, SMEMBERS, [k]) == Nil then -1
                       else |set x | x in xs && Holds(lib, st, k, x)|)
  {
    hide Apply, Holds, SetAt, Arguments;
    AddRemoveIs(lib, st, k, xs);
    ListingIs(lib, st, k);
    NamedOnes(lib, st, k, xs);
    GrowthAndLoss(SetAt(st, k), Arguments(xs));
  }

  lemma AddRemoveIs(lib: Lib, st: Store, k: Bytes, xs: seq<Bytes>)
    requires xs != []
    ensures Said(lib, st, SADD, [k] + xs) == Integer(|SetAt(st, k) + Arguments(xs)| - |SetAt(st, k)|)
    ensures Said(lib, st, SREM, [k] + xs)
            == Integer(if k !in st.sets then -1 else |SetAt(st, k)| - |SetAt(st, k) - Arguments(xs)|)
  {
    hide Usage, SetAt, PutSet, Arguments;
    assert ([k] + xs)[1..] == xs;
  }

  lemma NamedOnes(lib: Lib, st: Store, k: Bytes, xs: seq<Bytes>)
    ensures (set x | x in xs && !Holds(lib, st, k, x)) == Arguments(xs) - SetAt(st, k)
    ensures (set x | x in xs && Holds(lib, st, k, x)) == Arguments(xs) * SetAt(st, k)
  {
    hide Holds, SetAt;
    forall x
      ensures Holds(lib, st, k, x) <==> x in SetAt(st, k)
    {
      HoldsIs(lib, st, k, x);
    }
  }

  lemma GrowthAndLoss(s: set<Bytes>, args: set<Bytes>)
    ensures |s + args| - |s| == |args - s|
    ensures |s| - |s - args| == |args * s|
  {
    assert s + args == s + (args - s);
    assert s == (s - args) + args * s;
  }

  // ---------- sets over runs ----------

  predicate Adds(ev: Event, k: Bytes, x: Bytes) {
    ev.Request? && ev.h == SADD && |ev.d| > 1 && ev.d[0] == k && x in ev.d[1..]
  }

  predicate Removes(ev: Event, k: Bytes, x: Bytes) {
    ev.Request? && ev.h == SREM && |ev.d| > 1 && ev.d[0] == k && x in ev.d[1..]
  }

  // A well-formed SADD on a key.
  predicate Creates(ev: Event, k: Bytes) {
    ev.Request? && ev.h == SADD && |ev.d| > 1 && ev.d[0] == k
  }

  lemma SetsStep(lib: Lib, st: Store, ev: Event, k: Bytes, x: Bytes)
    requires ev.Tick? ==> ev.interval > 0.0
    ensures var after := Step(lib, st, ev);
            && (x in SetAt(after, k) <==> Adds(ev, k, x) || (x in SetAt(st, k) && !Removes(ev, k, x)))
            && (k in after.sets <==> Creates(ev, k) || k in st.sets)
  {
    hide NumError, Usage, ApplyToNumbers, ApplyToSets, SetAt;
    if ev.Request? && |ev.d| >= Minimum(ev.h) && OnSets(ev.h) {
      MembersStep(st, ev.h, ev.d, k, x);
    } else {
      if ev.Request? && |ev.d| >= Minimum(ev.h) {
        NumbersApart(lib, st, ev.h, ev.d);
      }
      SameSetAt(st, Step(lib, st, ev), k);
    }
  }

  lemma SameSetAt(st: Store, st': Store, k: Bytes)
    requires st'.sets == st.sets
    ensures SetAt(st', k) == SetAt(st, k)
  {
  }

  lemma MembersStep(st: Store, h: Handler, d: seq<Bytes>, k: Bytes, x: Bytes)
    requires |d| >= Minimum(h) && OnSets(h)
    ensures var after, ev := ApplyToSets(st, h, d).0, Request(h, d);
            && (x in SetAt(after, k) <==> Adds(ev, k, x) || (x in SetAt(st, k) && !Removes(ev, k, x)))
            && (k in after.sets <==> Creates(ev, k) || k in st.sets)
  {
    hide UnionOf, InterOf, Cards, Memberships, OneOrMany, SetAt, Arguments;
    if h == SADD {
      SetAtPut(st, d[0], SetAt(st, d[0]) + Arguments(d[1..]), k);
    } else if h == SREM {
      SetAtPut(st, d[0], SetAt(st, d[0]) - Arguments(d[1..]), k);
      assert d[0] !in st.sets ==> SetAt(st, d[0]) == {} by {
        NoSet(st, d[0]);
      }
    }
  }

  lemma NoSet(st: Store, k: Bytes)
    ensures k !in st.sets ==> SetAt(st, k) == {}
  {
  }

  // An addition that nothing has removed since.
  ghost predicate Remains(evs: seq<Event>, k: Bytes, x: Bytes) {
    exists i :: 0 <= i < |evs| && Adds(evs[i], k, x) && forall j :: i < j < |evs| ==> !Removes(evs[j], k, x)
  }

  lemma RemainsSnoc(evs: seq<Event>, ev: Event, k: Bytes, x: Bytes)
    ensures Remains(evs + [ev], k, x) <==> Adds(ev, k, x) || (Remains(evs, k, x) && !Removes(ev, k, x))
  {
    hide Adds, Removes;
    var longer := evs + [ev];
    assert longer[|evs|] == ev;
    if Remains(evs, k, x) && !Removes(ev, k, x) {
      var i :| 0 <= i < |evs| && Adds(evs[i], k, x) && forall j :: i < j < |evs| ==> !Removes(evs[j], k, x);
      assert Adds(longer[i], k, x);
    }
    if Remains(longer, k, x) && !Adds(ev, k, x) {
      var i :| 0 <= i < |longer| && Adds(longer[i], k, x) && forall j :: i < j < |longer| ==> !Removes(longer[j], k, x);
      assert Adds(evs[i], k, x);
      assert forall j :: i < j < |evs| ==> evs[j] == longer[j];
      assert !Removes(longer[|evs|], k, x);
    }
  }

  ghost predicate Created(evs: seq<Event>, k: Bytes) {
    exists i :: 0 <= i < |evs| && Creates(evs[i], k)
  }

  lemma {:induction false} StoredExactly(lib: Lib, evs: seq<Event>, k: Bytes, x: Bytes)
    requires Timed(evs)
    ensures var st := Run(lib, EMPTY, evs);
            (x in SetAt(st, k) <==> Remains(evs, k, x)) && (k in st.sets <==> Created(evs, k))
  {
    hide SetAt, Remains, Adds, Removes, Creates, Created, Step, Run;
    if evs == [] {
      RunNothing(lib, EMPTY);
      NothingRemains(k, x);
    } else {
      var front, ev := evs[..|evs| - 1], evs[|evs| - 1];
      assert evs == front + [ev];
      StoredExactly(lib, front, k, x);
      RunSnoc(lib, EMPTY, front, ev);
      SetsStep(lib, Run(lib, EMPTY, front), ev, k, x);
      RemainsSnoc(front, ev, k, x);
      CreatedSnoc(front, ev, k);
    }
  }

  lemma NothingRemains(k: Bytes, x: Bytes)
    ensures !Remains([], k, x) && !Created([], k) && x !in SetAt(EMPTY, k) && k !in EMPTY.sets
  {
  }

  lemma CreatedSnoc(evs: seq<Event>, ev: Event, k: Bytes)
    ensures Created(evs + [ev], k) <==> Created(evs, k) || Creates(ev, k)
  {
    hide Creates;
    var longer := evs + [ev];
    assert longer[|evs|] == ev;
    if Created(evs, k) {
      var i :| 0 <= i < |evs| && Creates(evs[i], k);
      assert Creates(longer[i], k);
    }
  }

  // From an empty store, over any run: SISMEMBER finds a member exactly when a SADD named it
  // and no later SREM did; SMEMBERS lists exactly those, and nothing at all exactly when no
  // SADD named the key.
  lemma MembersExactly(lib: Lib, evs: seq<Event>, k: Bytes)
    requires Timed(evs)
    ensures var st := Run(lib, EMPTY, evs);
            && (forall x :: Said(lib, st, SISMEMBER, [k, x]) == Integer(if Remains(evs, k, x) then 1 else 0))
            && (Said(lib, st, SMEMBERS, [k]) == Nil <==> !Created(evs, k))
            && (Created(evs, k) ==>
                  && Said(lib, st, SMEMBERS, [k]) == Members(Listing(lib, st, k))
                  && forall x :: x in Listing(lib, st, k) <==> Remains(evs, k, x))
  {
    hide Remains, Created, Run, Apply, SetAt;
    var st := Run(lib, EMPTY, evs);
    StoredExactly(lib, evs, k, []);
    ListingIs(lib, st, k);
    MembersLaw(lib, st, k, []);
    forall x
      ensures Said(lib, st, SISMEMBER, [k, x]) == Integer(if Remains(evs, k, x) then 1 else 0)
      ensures x in Listing(lib, st, k) <==> Remains(evs, k, x)
    {
      StoredExactly(lib, evs, k, x);
      HoldsIs(lib, st, k, x);
    }
  }
}
