// The stats store as a sequential machine over plain maps and sets: what each command
// does to the store and which single reply, if any, it earns.

module StatsMachine {
  import opened ByteStrings
  import opened Decimal
  import opened Wire

  datatype Tally = Tally(value: int, rate: real, history: seq<real>)

  datatype Store = Store(values: map<Bytes, int>, counters: map<Bytes, Tally>, sets: map<Bytes, set<Bytes>>)

  datatype Handler =
    | SET | SETNX | GET | EXISTS | DEL | INCR | DECR | COUNT
    | SADD | SREM | SCARD | SMEMBERS | SDIFF | SISMEMBER | SINTER | SUNION

  datatype Reply =
    | Silent
    | Integer(n: int)
    | Integers(ns: seq<int>)
    | Nil
    | Members(members: set<Bytes>)  // in any order
    | Failed(text: Bytes)
    | Status(text: Bytes)

  const EMPTY: Store := Store(map[], map[], map[])

  const MAX_HISTORY: nat := 100

  // Every number kept fits Go's int64.
  ghost predicate Fits(st: Store) {
    && (forall k <- st.values :: IsInt64(st.values[k]))
    && (forall k <- st.counters :: IsInt64(st.counters[k].value))
  }

  // ---------- error texts ----------

  const TAKES_ONE: string := " takes at least 1 parameter "
  const TAKES_TWO: string := " takes at least 2 parameters "

  function UsageText(h: Handler): string {
    match h
    case SET => "SET" + TAKES_TWO + "(i.e. key to set" + " and value to set to)"
    case SETNX => "SETNX" + TAKES_TWO + "(i.e. key to set" + " and value to set to," + " if not already set)"
    case GET => "GET" + TAKES_ONE + "(i.e. key to get)"
    case EXISTS => "EXISTS" + TAKES_ONE + "(i.e. key to find)"
    case DEL => "DEL" + TAKES_ONE + "(i.e. key to delete)"
    case INCR => "INCR" + TAKES_ONE + "(i.e. key to increment)"
    case DECR => "DECR" + TAKES_ONE + "(i.e. key to increment)"
    case COUNT => "COUNTER" + TAKES_ONE + "(i.e. key to increment)"
    case SADD => "SADD" + TAKES_TWO + "(SADD key member)"
    case SREM => "SREM" + TAKES_TWO + "(SREM key member)"
    case SCARD => "SCARD" + TAKES_ONE + "(SCARD key)"
    case SMEMBERS => "SMEMBERS" + " takes 1 parameter " + "(SMEMBERS key)"
    case SDIFF => "SDIFF" + " requires at least 2" + " parameters (SDIFF" + " key [key ...])"
    case SISMEMBER => "SISMEMBER" + " takes 2 parameters" + " (SISMEMBER key member)"
    case SINTER => "SINTER" + TAKES_TWO + "(SINTER key [key ...])"
    case SUNION => "SUNION" + TAKES_TWO + "(SINTER key [key ...])"
  }

  function Usage(h: Handler): Bytes {
    Ascii(UsageText(h))
  }

  // strconv.NumError.Error() for an argument ParseInt rejects.
  function NumError(lib: Lib, arg: Bytes): Bytes {
    Ascii("strconv.ParseInt: parsing ") + lib.quote(arg) + Ascii(": ")
    + (if ParseInt(arg) == Range then Ascii("value out of range") else Ascii("invalid syntax"))
  }

  // ---------- sets ----------

  function Arguments(d: seq<Bytes>): (r: set<Bytes>)
    ensures forall x :: x in r <==> x in d
  {
    set x | x in d
  }

  function SetAt(st: Store, key: Bytes): set<Bytes> {
    if key in st.sets then st.sets[key] else {}
  }

  function UnionOf(st: Store, keys: seq<Bytes>): (r: set<Bytes>)
    ensures forall x :: x in r <==> exists k <- keys :: x in SetAt(st, k)
  {
    set k, x | k in keys && x in SetAt(st, k) :: x
  }

  function InterOf(st: Store, keys: seq<Bytes>): (r: set<Bytes>)
    requires keys != []
    ensures forall x :: x in r <==> forall k <- keys :: x in SetAt(st, k)
  {
    set x | x in SetAt(st, keys[0]) && forall k <- keys :: x in SetAt(st, k)
  }

  // ---------- numbers ----------

  // The optional amount of INCR, DECR and COUNT.
  function Amount(d: seq<Bytes>): ParsedInt {
    if |d| > 1 then ParseInt(d[1]) else Number(1)
  }

  function Increment(st: Store, key: Bytes, n: int): (r: (Store, int)) {
    var v := if key in st.values then Wrap(st.values[key] + n) else n;
    (Assign(st, key, v), v)
  }

  // On a missing key the stored value and the reply differ in sign.
  function Decrement(st: Store, key: Bytes, n: int): (r: (Store, int)) {
    var v := if key in st.values then Wrap(st.values[key] - n) else Wrap(-n);
    (Assign(st, key, v), if key in st.values then v else n)
  }

  function CountBy(st: Store, key: Bytes, n: int): Store {
    var t := if key in st.counters
             then st.counters[key].(value := Wrap(st.counters[key].value + n))
             else Tally(n, 0.0, []);
    st.(counters := st.counters[key := t])
  }

  function Assign(st: Store, key: Bytes, n: int): Store {
    st.(values := st.values[key := n])
  }

  function PutSet(st: Store, key: Bytes, s: set<Bytes>): Store {
    st.(sets := st.sets[key := s])
  }

  lemma PutSetTwice(st: Store, key: Bytes, a: set<Bytes>, b: set<Bytes>)
    ensures SetAt(PutSet(st, key, a), key) == a && SetAt(PutSet(st, key, b), key) == b
    ensures PutSet(PutSet(st, key, a), key, b) == PutSet(st, key, b)
    ensures key in PutSet(st, key, a).sets
  {
  }

  function Delete(st: Store, keys: set<Bytes>): Store {
    st.(values := st.values - keys, counters := st.counters - keys)
  }

  // How many values and counters some keys name.
  function Found(st: Store, keys: set<Bytes>): nat {
    |keys * st.values.Keys| + |keys * st.counters.Keys|
  }

  // The newest entries of a rate history.
  function Trim(history: seq<real>): seq<real> {
    if |history| > MAX_HISTORY then history[|history| - MAX_HISTORY..] else history
  }

  function FlushTally(t: Tally, interval: real): Tally
    requires interval > 0.0
  {
    Tally(0, t.value as real / interval, Trim(t.history + [t.rate]))
  }

  function Flush(st: Store, interval: real): Store
    requires interval > 0.0
  {
    st.(counters := map k | k in st.counters :: FlushTally(st.counters[k], interval))
  }

  // ---------- the machine ----------

  function Minimum(h: Handler): nat {
    match h
    case SET | SETNX | SADD | SREM | SDIFF | SISMEMBER | SINTER | SUNION => 2
    case _ => 1
  }

  function IsMember(st: Store, key: Bytes, x: Bytes): int {
    if x in SetAt(st, key) then 1 else 0
  }

  function Cards(st: Store, keys: seq<Bytes>): (r: seq<int>)
    ensures |r| == |keys| && forall i :: 0 <= i < |keys| ==> r[i] == |SetAt(st, keys[i])|
  {
    seq(|keys|, i requires 0 <= i < |keys| => |SetAt(st, keys[i])|)
  }

  function Memberships(st: Store, key: Bytes, xs: seq<Bytes>): (r: seq<int>)
    ensures |r| == |xs| && forall i :: 0 <= i < |xs| ==> r[i] == IsMember(st, key, xs[i])
  {
    seq(|xs|, i requires 0 <= i < |xs| => IsMember(st, key, xs[i]))
  }

  function OneOrMany(ns: seq<int>): Reply
    requires ns != []
  {
    if |ns| == 1 then Integer(ns[0]) else Integers(ns)
  }

  predicate OnSets(h: Handler) {
    h in {SADD, SREM, SCARD, SMEMBERS, SDIFF, SISMEMBER, SINTER, SUNION}
  }

  // One command: the new store and its reply.
  function Apply(lib: Lib, st: Store, h: Handler, d: seq<Bytes>): (r: (Store, Reply)) {
    if |d| < Minimum(h) then (st, Failed(Usage(h)))
    else if OnSets(h) then ApplyToSets(st, h, d)
    else ApplyToNumbers(lib, st, h, d)
  }

  function ApplyToNumbers(lib: Lib, st: Store, h: Handler, d: seq<Bytes>): (r: (Store, Reply))
    requires |d| >= Minimum(h) && !OnSets(h)
  {
    var key := d[0];
    match h
    case SET =>
      (match ParseInt(d[1])
       case Number(v) => (Assign(st, key, v), Integer(1))
       case _ => (st, Failed(NumError(lib, d[1]))))
    case SETNX =>
      (match ParseInt(d[1])
       case Number(v) =>
         if key in st.values then (st, Integer(-1)) else (Assign(st, key, v), Integer(1))
       case _ => (st, Failed(NumError(lib, d[1]))))
    case GET => (st, if key in st.values then Integer(st.values[key]) else Nil)
    case EXISTS => (st, Integer(if key in st.values then 1 else 0))
    case DEL =>
      var keys := Arguments(d);
      (Delete(st, keys), Integer(Found(st, keys)))
    case INCR =>
      (match Amount(d)
       case Number(n) => (Increment(st, key, n).0, Integer(Increment(st, key, n).1))
       case _ => (st, Failed(NumError(lib, d[1]))))
    case DECR =>
      (match Amount(d)
       case Number(n) => (Decrement(st, key, n).0, Integer(Decrement(st, key, n).1))
       case _ => (st, Failed(NumError(lib, d[1]))))
    case COUNT =>
      (match Amount(d)
       case Number(n) => (CountBy(st, key, n), Silent)
       case _ => (st, Failed(NumError(lib, d[1]))))
  }

  function ApplyToSets(st: Store, h: Handler, d: seq<Bytes>): (r: (Store, Reply))
    requires |d| >= Minimum(h) && OnSets(h)
  {
    var key := d[0];
    match h
    case SADD =>
      var grown := SetAt(st, key) + Arguments(d[1..]);
      (PutSet(st, key, grown), Integer(|grown| - |SetAt(st, key)|))
    case SREM =>
      if key !in st.sets then (st, Integer(-1))
      else
        var shrunk := SetAt(st, key) - Arguments(d[1..]);
        (PutSet(st, key, shrunk), Integer(|SetAt(st, key)| - |shrunk|))
    case SCARD => (st, OneOrMany(Cards(st, d)))
    case SMEMBERS => (st, if key in st.sets then Members(SetAt(st, key)) else Nil)
    case SDIFF =>
      (st, if key in st.sets then Members(SetAt(st, key) - UnionOf(st, d[1..])) else Nil)
    case SISMEMBER => (st, OneOrMany(Memberships(st, key, d[1..])))
    case SINTER =>
      (st, if forall k <- d :: k in st.sets then Members(InterOf(st, d)) else Nil)
    case SUNION => (st, Members(UnionOf(st, d)))
  }

  // The command alone decides whether a reply is owed: only a well-formed COUNT is
  // fire-and-forget.
  predicate FireAndForget(h: Handler, d: seq<Bytes>) {
    h == COUNT && d != [] && Amount(d).Number?
  }

  lemma SilentExactly(lib: Lib, st: Store, h: Handler, d: seq<Bytes>)
    ensures Apply(lib, st, h, d).1 == Silent <==> FireAndForget(h, d)
  {
    hide Usage, NumError, ParseInt, ApplyToSets, ApplyToNumbers;
    if |d| >= Minimum(h) {
      if OnSets(h) {
        SetsSpeak(st, h, d);
      } else {
        NumbersSpeak(lib, st, h, d);
      }
    }
  }

  // COUNT without a key, and with an amount that is no number, is answered all the same.
  lemma BadCountIsAnswered(lib: Lib, st: Store, key: Bytes)
    ensures Apply(lib, st, COUNT, []) == (st, Failed(Usage(COUNT)))
    ensures Apply(lib, st, COUNT, [key, []]) == (st, Failed(NumError(lib, [])))
  {
    hide Usage, NumError;
  }

  lemma SetsSpeak(st: Store, h: Handler, d: seq<Bytes>)
    requires |d| >= Minimum(h) && OnSets(h)
    ensures ApplyToSets(st, h, d).1 != Silent
  {
    hide SetAt, UnionOf, InterOf, Arguments, PutSet;
  }

  lemma NumbersSpeak(lib: Lib, st: Store, h: Handler, d: seq<Bytes>)
    requires |d| >= Minimum(h) && !OnSets(h)
    ensures ApplyToNumbers(lib, st, h, d).1 == Silent <==> FireAndForget(h, d)
  {
    hide NumError, ParseInt, Delete, Found, Arguments, Wrap;
  }

  lemma ApplyFits(lib: Lib, st: Store, h: Handler, d: seq<Bytes>)
    requires Fits(st)
    ensures Fits(Apply(lib, st, h, d).0)
  {
    hide Usage, NumError, ApplyToSets, ApplyToNumbers;
    if |d| >= Minimum(h) {
      if OnSets(h) {
        SetsApart(st, h, d);
      } else {
        NumbersFit(lib, st, h, d);
      }
    }
  }

  lemma SetsApart(st: Store, h: Handler, d: seq<Bytes>)
    requires |d| >= Minimum(h) && OnSets(h)
    ensures ApplyToSets(st, h, d).0.(sets := st.sets) == st
  {
    hide UnionOf, InterOf, Cards, Memberships, OneOrMany;
  }

  lemma NumbersApart(lib: Lib, st: Store, h: Handler, d: seq<Bytes>)
    requires |d| >= Minimum(h) && !OnSets(h)
    ensures ApplyToNumbers(lib, st, h, d).0.sets == st.sets
  {
    hide NumError, ParseInt, Arguments, Wrap, Found;
  }

  lemma NumbersFit(lib: Lib, st: Store, h: Handler, d: seq<Bytes>)
    requires Fits(st) && |d| >= Minimum(h) && !OnSets(h)
    ensures Fits(ApplyToNumbers(lib, st, h, d).0)
  {
    hide NumError, Usage;
  }

  // The members common to all named sets depend only on which sets are named, not on
  // their order or on repetitions.
  lemma InterIgnoresOrder(st: Store, a: seq<Bytes>, b: seq<Bytes>)
    requires a != [] && b != [] && Arguments(a) == Arguments(b)
    ensures InterOf(st, a) == InterOf(st, b)
  {
    assert forall k :: k in a <==> k in b by {
      assert forall k :: k in a <==> k in Arguments(a);
    }
  }
}
