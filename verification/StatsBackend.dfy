// stats.StatsBackend: the command handlers. Each one performs its step of the machine
// on the live store and writes at most the one frame its reply needs.

module StatsBackends {
  import opened ByteStrings
  import opened Decimal
  import opened Wire
  import opened BufferClients
  import opened StatsMachine
  import opened MemoryBackends

  function Ints(ns: seq<int>): (r: seq<Value>)
    ensures |r| == |ns| && forall i :: 0 <= i < |ns| ==> r[i] == Int(ns[i])
  {
    seq(|ns|, i requires 0 <= i < |ns| => Int(ns[i]))
  }

  function Strs(texts: seq<Bytes>): (r: seq<Value>)
    ensures |r| == |texts| && forall i :: 0 <= i < |texts| ==> r[i] == Str(texts[i])
  {
    seq(|texts|, i requires 0 <= i < |texts| => Str(texts[i]))
  }

  // A frame that delivers a reply; the members of a set may come in any order.
  ghost predicate Delivers(m: Message, reply: Reply) {
    match reply
    case Silent => false
    case Integer(n) => m == Plain(Int(n))
    case Integers(ns) => m == Array(Ints(ns))
    case Nil => m == Plain(Null)
    case Members(s) => exists order :: Enumerates(order, s) && m == Array(Strs(order))
    case Failed(text) => m == Failure(Some(text))
    case Status(text) => m == Plain(Str(text))
  }

  // A handler either returns its error for the request loop to write, or has written
  // what the reply needs.
  ghost predicate Sent(lib: Lib, reply: Reply, before: Bytes, after: Bytes, err: Option<Bytes>) {
    if err.Some? then reply == Failed(err.value) && after == before
    else if reply == Silent then after == before
    else exists m :: Delivers(m, reply) && after == before + Emit(lib, m)
  }

  ghost predicate Handled(
    lib: Lib, h: Handler, d: seq<Bytes>,
    before: Store, after: Store, sentBefore: Bytes, sentAfter: Bytes, err: Option<Bytes>)
  {
    var (st, reply) := Apply(lib, before, h, d);
    after == st && Sent(lib, reply, sentBefore, sentAfter, err)
  }

  lemma SentFrame(lib: Lib, m: Message, reply: Reply, before: Bytes)
    requires Delivers(m, reply)
    ensures Sent(lib, reply, before, before + Emit(lib, m), None)
  {
  }

  lemma SentError(lib: Lib, text: Bytes, before: Bytes)
    ensures Sent(lib, Failed(text), before, before, Some(text))
    ensures Sent(lib, Silent, before, before, None)
  {
  }

  method WriteUsage(h: Handler, client: BufferClient)
    modifies client`written
    ensures Sent(client.lib, Failed(Usage(h)), old(client.written), client.written, None)
  {
    client.WriteError(Some(Usage(h)));
    SentFrame(client.lib, Failure(Some(Usage(h))), Failed(Usage(h)), old(client.written));
  }

  method FlushInt(i: int, client: BufferClient)
    modifies client`written
    ensures Sent(client.lib, Integer(i), old(client.written), client.written, None)
  {
    client.WriteInt64(i);
    SentFrame(client.lib, Plain(Int(i)), Integer(i), old(client.written));
  }

  method FlushNil(client: BufferClient)
    modifies client`written
    ensures Sent(client.lib, Nil, old(client.written), client.written, None)
  {
    client.WriteNull();
    SentFrame(client.lib, Plain(Null), Nil, old(client.written));
  }

  // One integer alone, several as an array.
  method WriteInts(ns: seq<int>, client: BufferClient)
    requires ns != []
    modifies client`written
    ensures Sent(client.lib, OneOrMany(ns), old(client.written), client.written, None)
  {
    hide EmitValue, EmitLen;
    if |ns| > 1 {
      client.WriteLen(STAR, |ns|);
      for i := 0 to |ns|
        invariant client.written
                  == old(client.written) + EmitLen(STAR, |ns|) + EmitValues(client.lib, Ints(ns)[..i])
      {
        EmitValuesPrefix(client.lib, Ints(ns), i);
        client.WriteInt64(ns[i]);
      }
      assert Ints(ns)[..|ns|] == Ints(ns);
      SentFrame(client.lib, Array(Ints(ns)), Integers(ns), old(client.written));
    } else {
      FlushInt(ns[0], client);
    }
  }

  // Ranges over a set and writes each member as a string, in the order met.
  method WriteMembers(s: set<Bytes>, client: BufferClient)
    modifies client`written
    ensures Sent(client.lib, Members(s), old(client.written), client.written, None)
  {
    hide EmitValue, EmitLen, Enumerates, Sent, Delivers;
    client.WriteLen(STAR, |s|);
    var todo := s;
    ghost var order: seq<Bytes> := [];
    NothingEnumerated(s);
    while todo != {}
      invariant todo <= s && Enumerates(order, s - todo)
      invariant client.written == old(client.written) + EmitLen(STAR, |s|) + EmitValues(client.lib, Strs(order))
      decreases |todo|
    {
      var k :| k in todo;
      client.WriteString(k);
      EmitValuesSnoc(client.lib, Strs(order), Str(k));
      assert Strs(order + [k]) == Strs(order) + [Str(k)];
      EnumerationSnoc(order, s, todo, k);
      order := order + [k];
      todo := todo - {k};
    }
    assert s - todo == s;
    EnumerationSize(order, s);
    SentMembers(client.lib, order, s, old(client.written));
  }

  lemma SentMembers(lib: Lib, order: seq<Bytes>, s: set<Bytes>, before: Bytes)
    requires Enumerates(order, s)
    ensures Sent(lib, Members(s), before,
                 before + EmitLen(STAR, |order|) + EmitValues(lib, Strs(order)), None)
  {
    hide EmitValue, EmitLen, EmitValues, Enumerates;
    SentFrame(lib, Array(Strs(order)), Members(s), before);
    assert before + Emit(lib, Array(Strs(order)))
           == before + EmitLen(STAR, |order|) + EmitValues(lib, Strs(order));
  }

  lemma NothingEnumerated(s: set<Bytes>)
    ensures Enumerates([], s - s)
  {
  }

  class StatsBackend {
    const mem: MemoryBackend

    constructor ()
      ensures fresh(mem) && mem.Valid() && mem.Contents() == EMPTY
      ensures mem.counters == map[] && mem.sets == map[]
    {
      mem := new MemoryBackend();
    }

    method Set(d: seq<Bytes>, client: BufferClient) returns (err: Option<Bytes>)
      requires mem.Valid()
      modifies mem`values, client`written
      ensures mem.Valid()
      ensures Handled(client.lib, SET, d, old(mem.Contents()), mem.Contents(),
                      old(client.written), client.written, err)
    {
      hide MemoryBackend.Contents, MemoryBackend.Valid, Sent, Usage, NumError, ParseInt;
      hide ApplyToSets, Arguments, Delete, Increment, Decrement, CountBy, Amount;
      if |d| < 2 {
        WriteUsage(SET, client);
        return None;
      }
      var key := d[0];
      var value := ParseInt(d[1]);
      if !value.Number? {
        SentError(client.lib, NumError(client.lib, d[1]), client.written);
        return Some(NumError(client.lib, d[1]));
      }
      var i := mem.Set(key, value.n);
      FlushInt(i, client);
      return None;
    }

    method SetNx(d: seq<Bytes>, client: BufferClient) returns (err: Option<Bytes>)
      requires mem.Valid()
      modifies mem`values, client`written
      ensures mem.Valid()
      ensures Handled(client.lib, SETNX, d, old(mem.Contents()), mem.Contents(),
                      old(client.written), client.written, err)
    {
      hide MemoryBackend.Contents, MemoryBackend.Valid, Sent, Usage, NumError, ParseInt;
      hide ApplyToSets, Arguments, Delete, Increment, Decrement, CountBy, Amount;
      if |d| < 2 {
        WriteUsage(SETNX, client);
        return None;
      }
      var key := d[0];
      var value := ParseInt(d[1]);
      if !value.Number? {
        SentError(client.lib, NumError(client.lib, d[1]), client.written);
        return Some(NumError(client.lib, d[1]));
      }
      var i := mem.SetNx(key, value.n);
      FlushInt(i, client);
      return None;
    }

    method Get(d: seq<Bytes>, client: BufferClient) returns (err: Option<Bytes>)
      requires mem.Valid()
      modifies client`written
      ensures mem.Valid()
      ensures Handled(client.lib, GET, d, old(mem.Contents()), mem.Contents(),
                      old(client.written), client.written, err)
    {
      hide MemoryBackend.Contents, MemoryBackend.Valid, Sent, Usage, NumError, ParseInt;
      hide ApplyToSets, Arguments, Delete, Increment, Decrement, CountBy, Amount;
      if |d| == 0 {
        WriteUsage(GET, client);
        return None;
      }
      var i := mem.Get(d[0]);
      if i == None {
        FlushNil(client);
      } else {
        FlushInt(i.value, client);
      }
      return None;
    }

    method Exists(d: seq<Bytes>, client: BufferClient) returns (err: Option<Bytes>)
      requires mem.Valid()
      modifies client`written
      ensures mem.Valid()
      ensures Handled(client.lib, EXISTS, d, old(mem.Contents()), mem.Contents(),
                      old(client.written), client.written, err)
    {
      hide MemoryBackend.Contents, MemoryBackend.Valid, Sent, Usage, NumError, ParseInt;
      hide ApplyToSets, Arguments, Delete, Increment, Decrement, CountBy, Amount;
      if |d| == 0 {
        WriteUsage(EXISTS, client);
        return None;
      }
      var i := mem.Exists(d[0]);
      FlushInt(i, client);
      return None;
    }

    method Del(d: seq<Bytes>, client: BufferClient) returns (err: Option<Bytes>)
      requires mem.Valid()
      modifies mem`values, mem`counters, client`written
      ensures mem.Valid() && fresh(mem.counters.Values - old(mem.counters.Values))
      ensures Handled(client.lib, DEL, d, old(mem.Contents()), mem.Contents(),
                      old(client.written), client.written, err)
    {
      hide MemoryBackend.Contents, MemoryBackend.Valid, Sent, Usage, Apply, Arguments, Delete, Found;
      if |d| == 0 {
        TooFew(client.lib, mem.Contents(), DEL, d);
        WriteUsage(DEL, client);
        return None;
      }
      DeleteCommandIs(client.lib, mem.Contents(), d);
      var i := DelAll(d);
      FlushInt(i, client);
      return None;
    }

    // The loop of Del over its keys.
    method DelAll(d: seq<Bytes>) returns (deleted: int)
      requires mem.Valid()
      modifies mem`values, mem`counters
      ensures mem.Valid() && fresh(mem.counters.Values - old(mem.counters.Values))
      ensures mem.Contents() == Delete(old(mem.Contents()), Arguments(d))
      ensures deleted == Found(old(mem.Contents()), Arguments(d))
    {
      hide MemoryBackend.Contents, MemoryBackend.Valid, Arguments;
      deleted := 0;
      ghost var st := mem.Contents();
      NoArguments();
      DeleteNothing(st);
      for i := 0 to |d|
        invariant mem.Valid() && fresh(mem.counters.Values - old(mem.counters.Values))
        invariant mem.Contents() == Delete(st, Arguments(d[..i]))
        invariant deleted == |Arguments(d[..i]) * st.values.Keys| + |Arguments(d[..i]) * st.counters.Keys|
      {
        ArgumentsSnoc(d, i);
        MeetSnoc(Arguments(d[..i]), d[i], st.values.Keys);
        MeetSnoc(Arguments(d[..i]), d[i], st.counters.Keys);
        DeleteTwice(st, Arguments(d[..i]), {d[i]});
        var more := mem.Del(d[i]);
        deleted := deleted + more;
      }
      assert d[..|d|] == d;
    }

    method Incr(d: seq<Bytes>, client: BufferClient) returns (err: Option<Bytes>)
      requires mem.Valid()
      modifies mem`values, client`written
      ensures mem.Valid()
      ensures Handled(client.lib, INCR, d, old(mem.Contents()), mem.Contents(),
                      old(client.written), client.written, err)
    {
      hide MemoryBackend.Contents, MemoryBackend.Valid, Sent, Usage, NumError, ParseInt;
      hide ApplyToSets, Arguments, Delete, Increment, Decrement, CountBy;
      if |d| == 0 {
        WriteUsage(INCR, client);
        return None;
      }
      var key := d[0];
      var amount := 1;
      var values := d[1..];
      if |values| > 0 {
        var value := ParseInt(values[0]);
        if !value.Number? {
          SentError(client.lib, NumError(client.lib, values[0]), client.written);
          return Some(NumError(client.lib, values[0]));
        }
        amount := value.n;
      }
      var i := mem.IncrBy(key, amount);
      FlushInt(i, client);
      return None;
    }

    method Decr(d: seq<Bytes>, client: BufferClient) returns (err: Option<Bytes>)
      requires mem.Valid()
      modifies mem`values, client`written
      ensures mem.Valid()
      ensures Handled(client.lib, DECR, d, old(mem.Contents()), mem.Contents(),
                      old(client.written), client.written, err)
    {
      hide MemoryBackend.Contents, MemoryBackend.Valid, Sent, Usage, NumError, ParseInt;
      hide ApplyToSets, Arguments, Delete, Increment, Decrement, CountBy;
      if |d| == 0 {
        WriteUsage(DECR, client);
        return None;
      }
      var key := d[0];
      var amount := 1;
      var values := d[1..];
      if |values| > 0 {
        var value := ParseInt(values[0]);
        if !value.Number? {
          SentError(client.lib, NumError(client.lib, values[0]), client.written);
          return Some(NumError(client.lib, values[0]));
        }
        amount := value.n;
      }
      var i := mem.DecrBy(key, amount);
      FlushInt(i, client);
      return None;
    }

    method Count(d: seq<Bytes>, client: BufferClient) returns (err: Option<Bytes>)
      requires mem.Valid()
      modifies mem`counters, mem.counters.Values, client`written
      ensures mem.Valid() && fresh(mem.counters.Values - old(mem.counters.Values))
      ensures Handled(client.lib, COUNT, d, old(mem.Contents()), mem.Contents(),
                      old(client.written), client.written, err)
    {
      hide MemoryBackend.Contents, MemoryBackend.Valid, Sent, Usage, NumError, ParseInt;
      hide ApplyToSets, Arguments, Delete, Increment, Decrement, CountBy;
      if |d| == 0 {
        WriteUsage(COUNT, client);
        return None;
      }
      var key := d[0];
      var amount := 1;
      var values := d[1..];
      if |values| > 0 {
        var value := ParseInt(values[0]);
        if !value.Number? {
          SentError(client.lib, NumError(client.lib, values[0]), client.written);
          return Some(NumError(client.lib, values[0]));
        }
        amount := value.n;
      }
      var _ := mem.CounterBy(key, amount);
      SentError(client.lib, [], client.written);
      return None;
    }

    method SAdd(d: seq<Bytes>, client: BufferClient) returns (err: Option<Bytes>)
      requires mem.Valid()
      modifies mem`sets, mem.sets.Values, client`written
      ensures mem.Valid() && fresh(mem.sets.Values - old(mem.sets.Values))
      ensures Handled(client.lib, SADD, d, old(mem.Contents()), mem.Contents(),
                      old(client.written), client.written, err)
    {
      hide MemoryBackend.Contents, MemoryBackend.Valid, Sent, Usage, ApplyToNumbers;
      hide UnionOf, InterOf, Arguments, Cards, Memberships;
      if |d| < 2 {
        WriteUsage(SADD, client);
        return None;
      }
      var result := AddAll(d[0], d[1..]);
      FlushInt(result, client);
      return None;
    }

    // The loop of SAdd over its members.
    method AddAll(key: Bytes, members: seq<Bytes>) returns (result: int)
      requires mem.Valid() && members != []
      modifies mem`sets, mem.sets.Values
      ensures mem.Valid() && fresh(mem.sets.Values - old(mem.sets.Values))
      ensures mem.Contents()
              == PutSet(old(mem.Contents()), key, SetAt(old(mem.Contents()), key) + Arguments(members))
      ensures result == |SetAt(mem.Contents(), key)| - |SetAt(old(mem.Contents()), key)|
    {
      hide MemoryBackend.Contents, MemoryBackend.Valid, Arguments, PutSet, SetAt;
      ghost var st := mem.Contents();
      ghost var base := SetAt(st, key);
      result := 0;
      NoArguments();
      for i := 0 to |members|
        invariant mem.Valid() && fresh(mem.sets.Values - old(mem.sets.Values))
        invariant SetAt(mem.Contents(), key) == base + Arguments(members[..i])
        invariant mem.Contents() == if i == 0 then st else PutSet(st, key, base + Arguments(members[..i]))
        invariant result == |SetAt(mem.Contents(), key)| - |base|
      {
        ArgumentsSnoc(members, i);
        PutSetTwice(st, key, base + Arguments(members[..i]), base + Arguments(members[..i + 1]));
        assert base + Arguments(members[..i]) + {members[i]} == base + Arguments(members[..i + 1]);
        var r := mem.SAdd(key, members[i]);
        result := result + r;
      }
      assert members[..|members|] == members;
    }

    method SRem(d: seq<Bytes>, client: BufferClient) returns (err: Option<Bytes>)
      requires mem.Valid()
      modifies mem.sets.Values, client`written
      ensures mem.Valid()
      ensures Handled(client.lib, SREM, d, old(mem.Contents()), mem.Contents(),
                      old(client.written), client.written, err)
    {
      hide MemoryBackend.Contents, MemoryBackend.Valid, Sent, Usage, ApplyToNumbers;
      hide UnionOf, InterOf, Arguments, Cards, Memberships;
      if |d| < 2 {
        WriteUsage(SREM, client);
        return None;
      }
      var result := RemoveAll(d[0], d[1..]);
      FlushInt(result, client);
      return None;
    }

    // The loop of SRem over its members; a missing key ends it at once.
    method RemoveAll(key: Bytes, members: seq<Bytes>) returns (result: int)
      requires mem.Valid() && members != []
      modifies mem.sets.Values
      ensures mem.Valid()
      ensures key !in old(mem.Contents()).sets ==> result == -1 && mem.Contents() == old(mem.Contents())
      ensures key in old(mem.Contents()).sets ==>
                && mem.Contents()
                   == PutSet(old(mem.Contents()), key, SetAt(old(mem.Contents()), key) - Arguments(members))
                && result == |SetAt(old(mem.Contents()), key)| - |SetAt(mem.Contents(), key)|
    {
      hide MemoryBackend.Contents, MemoryBackend.Valid, Arguments, PutSet, SetAt;
      ghost var st := mem.Contents();
      ghost var base := SetAt(st, key);
      result := 0;
      NoArguments();
      for i := 0 to |members|
        invariant mem.Valid() && (i > 0 ==> key in st.sets)
        invariant SetAt(mem.Contents(), key) == base - Arguments(members[..i])
        invariant mem.Contents() == if i == 0 then st else PutSet(st, key, base - Arguments(members[..i]))
        invariant result == |base| - |SetAt(mem.Contents(), key)|
      {
        ArgumentsSnoc(members, i);
        PutSetTwice(st, key, base - Arguments(members[..i]), base - Arguments(members[..i + 1]));
        assert base - Arguments(members[..i]) - {members[i]} == base - Arguments(members[..i + 1]);
        var r := mem.SRem(key, members[i]);
        if r == -1 {
          RemovalCount(base, Arguments(members[..i]), {members[i]});
          return r;
        }
        result := result + r;
      }
      assert members[..|members|] == members;
    }

    method SCard(d: seq<Bytes>, client: BufferClient) returns (err: Option<Bytes>)
      requires mem.Valid()
      modifies client`written
      ensures mem.Valid()
      ensures Handled(client.lib, SCARD, d, old(mem.Contents()), mem.Contents(),
                      old(client.written), client.written, err)
    {
      hide MemoryBackend.Contents, MemoryBackend.Valid, Sent, Usage, ApplyToNumbers;
      hide UnionOf, InterOf, Arguments, Memberships, OneOrMany;
      if |d| < 1 {
        WriteUsage(SCARD, client);
        return None;
      }
      var results := new int[|d|];
      for i := 0 to |d|
        invariant client.written == old(client.written)
        invariant forall j :: 0 <= j < i ==> results[j] == |SetAt(mem.Contents(), d[j])|
      {
        results[i] := mem.SCard(d[i]);
      }
      assert results[..] == Cards(mem.Contents(), d);
      WriteInts(results[..], client);
      return None;
    }

    method SDiff(d: seq<Bytes>, client: BufferClient) returns (err: Option<Bytes>)
      requires mem.Valid()
      modifies client`written
      ensures mem.Valid()
      ensures Handled(client.lib, SDIFF, d, old(mem.Contents()), mem.Contents(),
                      old(client.written), client.written, err)
    {
      hide MemoryBackend.Contents, MemoryBackend.Valid, Sent, Usage, ApplyToNumbers;
      hide UnionOf, InterOf, Arguments, Cards, Memberships;
      if |d| < 2 {
        WriteUsage(SDIFF, client);
        return None;
      }
      var first := mem.SMembers(d[0]);
      if first == null {
        FlushNil(client);
        return None;
      }
      var results := Subtract(first, d[1..]);
      WriteMembers(results.m, client);
      return None;
    }

    // The loop of SDiff: it starts from the live stored set and may stop early.
    method Subtract(first: MemberSet, keys: seq<Bytes>) returns (results: MemberSet)
      ensures results.m == first.m - UnionOf(mem.Contents(), keys)
    {
      hide MemoryBackend.Contents, UnionOf, SetAt;
      results := first;
      ghost var st, base := mem.Contents(), first.m;
      UnionNone(st);
      for i := 0 to |keys|
        invariant mem.Contents() == st
        invariant results.m == base - UnionOf(st, keys[..i])
      {
        UnionSnoc(st, keys[..i], keys[i]);
        assert keys[..i + 1] == keys[..i] + [keys[i]];
        results := mem.SDiff(results, keys[i]);
        assert base - UnionOf(st, keys[..i]) - SetAt(st, keys[i]) == base - UnionOf(st, keys[..i + 1]);
        if |results.m| == 0 {
          UnionGrows(st, keys, i + 1);
          return;
        }
      }
      assert keys[..|keys|] == keys;
    }

    method SMembers(d: seq<Bytes>, client: BufferClient) returns (err: Option<Bytes>)
      requires mem.Valid()
      modifies client`written
      ensures mem.Valid()
      ensures Handled(client.lib, SMEMBERS, d, old(mem.Contents()), mem.Contents(),
                      old(client.written), client.written, err)
    {
      hide MemoryBackend.Contents, MemoryBackend.Valid, Sent, Usage, ApplyToNumbers;
      hide UnionOf, InterOf, Arguments, Cards, Memberships;
      if |d| == 0 {
        WriteUsage(SMEMBERS, client);
        return None;
      }
      var values := mem.SMembers(d[0]);
      if values == null {
        FlushNil(client);
        return None;
      }
      WriteMembers(values.m, client);
      return None;
    }

    method SIsMember(d: seq<Bytes>, client: BufferClient) returns (err: Option<Bytes>)
      requires mem.Valid()
      modifies client`written
      ensures mem.Valid()
      ensures Handled(client.lib, SISMEMBER, d, old(mem.Contents()), mem.Contents(),
                      old(client.written), client.written, err)
    {
      hide MemoryBackend.Contents, MemoryBackend.Valid, Sent, Usage, ApplyToNumbers;
      hide UnionOf, InterOf, Arguments, Cards, OneOrMany;
      if |d| < 2 {
        WriteUsage(SISMEMBER, client);
        return None;
      }
      var n := |d| - 1;
      var results := new int[n];
      for i := 0 to n
        invariant client.written == old(client.written)
        invariant forall j :: 0 <= j < i ==> results[j] == IsMember(mem.Contents(), d[0], d[j + 1])
      {
        results[i] := mem.SIsMember(d[0], d[i + 1]);
      }
      assert results[..] == Memberships(mem.Contents(), d[0], d[1..]);
      WriteInts(results[..], client);
      return None;
    }

    method SInter(d: seq<Bytes>, client: BufferClient) returns (err: Option<Bytes>)
      requires mem.Valid()
      modifies client`written
      ensures mem.Valid()
      ensures Handled(client.lib, SINTER, d, old(mem.Contents()), mem.Contents(),
                      old(client.written), client.written, err)
    {
      hide MemoryBackend.Contents, MemoryBackend.Valid, Sent, Usage, ApplyToNumbers;
      hide UnionOf, InterOf, Arguments, Cards, Memberships;
      if |d| < 2 {
        WriteUsage(SINTER, client);
        return None;
      }
      var results, _ := mem.SInter(d);
      if results == null {
        FlushNil(client);
        return None;
      }
      WriteMembers(results.m, client);
      return None;
    }

    method SUnion(d: seq<Bytes>, client: BufferClient) returns (err: Option<Bytes>)
      requires mem.Valid()
      modifies client`written
      ensures mem.Valid()
      ensures Handled(client.lib, SUNION, d, old(mem.Contents()), mem.Contents(),
                      old(client.written), client.written, err)
    {
      hide MemoryBackend.Contents, MemoryBackend.Valid, Sent, Usage, ApplyToNumbers;
      hide UnionOf, InterOf, Arguments, Cards, Memberships;
      if |d| < 2 {
        WriteUsage(SUNION, client);
        return None;
      }
      var results := mem.SUnion(d);
      WriteMembers(results.m, client);
      return None;
    }
  }

  lemma TooFew(lib: Lib, st: Store, h: Handler, d: seq<Bytes>)
    requires |d| < Minimum(h)
    ensures Apply(lib, st, h, d) == (st, Failed(Usage(h)))
  {
    hide Usage;
  }

  lemma DeleteCommandIs(lib: Lib, st: Store, d: seq<Bytes>)
    requires d != []
    ensures Apply(lib, st, DEL, d) == (Delete(st, Arguments(d)), Integer(Found(st, Arguments(d))))
  {
    hide ApplyToSets, Usage, NumError, Delete, Found, Arguments;
  }

  lemma NoArguments()
    ensures Arguments([]) == {}
  {
  }

  lemma ArgumentsSnoc(d: seq<Bytes>, i: nat)
    requires i < |d|
    ensures Arguments(d[..i + 1]) == Arguments(d[..i]) + {d[i]}
  {
    assert d[..i + 1] == d[..i] + [d[i]];
  }

  lemma DeleteNothing(st: Store)
    ensures Delete(st, {}) == st
  {
    assert st.values - {} == st.values;
    assert st.counters - {} == st.counters;
  }

  lemma DeleteTwice(st: Store, a: set<Bytes>, b: set<Bytes>)
    ensures Delete(Delete(st, a), b) == Delete(st, a + b)
  {
    assert st.values - a - b == st.values - (a + b);
    assert st.counters - a - b == st.counters - (a + b);
  }

  // Removing members never makes a set larger.
  lemma RemovalCount(s: set<Bytes>, a: set<Bytes>, b: set<Bytes>)
    ensures |s - a| >= |s - a - b|
  {
    assert s - a == (s - a - b) + ((s - a) * b);
    assert (s - a - b) !! ((s - a) * b);
  }

  lemma MeetSnoc(a: set<Bytes>, x: Bytes, s: set<Bytes>)
    ensures |(a + {x}) * s| == |a * s| + if x in s && x !in a then 1 else 0
  {
    if x in s && x !in a {
      assert (a + {x}) * s == a * s + {x};
    } else {
      assert (a + {x}) * s == a * s;
    }
  }

  lemma UnionGrows(st: Store, keys: seq<Bytes>, i: nat)
    requires i <= |keys|
    ensures UnionOf(st, keys[..i]) <= UnionOf(st, keys)
  {
    assert forall k <- keys[..i] :: k in keys;
  }
}
