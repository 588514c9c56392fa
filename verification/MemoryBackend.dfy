// stats.MemoryBackend: the in-memory store with its live, shared member sets and
// counters, proved against the plain-value machine.

module MemoryBackends {
  import opened ByteStrings
  import opened StatsMachine

  // A map[string]struct{} of the source: a set of members shared by reference.
  class MemberSet {
    var m: set<Bytes>

    constructor ()
      ensures m == {}
    {
      m := {};
    }

    method Insert(x: Bytes) returns (added: int)
      modifies this
      ensures m == old(m) + {x} && added == |m| - |old(m)|
    {
      if x in m {
        assert m + {x} == m;
        return 0;
      } else {
        m := m + {x};
        return 1;
      }
    }

    // Ranges over another set, adding each member.
    method AddAll(other: MemberSet)
      modifies this
      ensures m == old(m) + old(other.m)
    {
      var todo := other.m;
      while todo != {}
        invariant todo <= old(other.m) && m == old(m) + (old(other.m) - todo)
        decreases |todo|
      {
        var k :| k in todo;
        m := m + {k};
        todo := todo - {k};
      }
    }
  }

  class Counter {
    var value: int
    var ratePerSecond: real
    var avgHistory: seq<real>

    constructor (value: int)
      ensures this.value == value && ratePerSecond == 0.0 && avgHistory == []
    {
      this.value, ratePerSecond, avgHistory := value, 0.0, [];
    }

    ghost function Snapshot(): Tally
      reads this
    {
      Tally(value, ratePerSecond, avgHistory)
    }

    // What one flush does to one counter.
    method Roll(d: real)
      requires d > 0.0
      modifies this
      ensures Snapshot() == FlushTally(old(Snapshot()), d)
    {
      var ratePrev := ratePerSecond;
      ratePerSecond := value as real / d;
      avgHistory := avgHistory + [ratePrev];
      var l := |avgHistory|;
      if l > MAX_HISTORY {
        avgHistory := avgHistory[l - MAX_HISTORY..];
      }
      value := 0;
    }
  }

  ghost predicate Injective<T>(m: map<Bytes, T>) {
    forall a, b :: a in m && b in m && a != b ==> m[a] != m[b]
  }

  class MemoryBackend {
    var counters: map<Bytes, Counter>
    var values: map<Bytes, int>
    var sets: map<Bytes, MemberSet>

    // No two keys share a counter or a member set.
    ghost predicate Valid()
      reads this`counters, this`sets
    {
      Injective(counters) && Injective(sets)
    }

    ghost function Tallies(): map<Bytes, Tally>
      reads this`counters, counters.Values
    {
      map k | k in counters :: counters[k].Snapshot()
    }

    ghost function Sets(): map<Bytes, set<Bytes>>
      reads this`sets, sets.Values
    {
      map k | k in sets :: sets[k].m
    }

    ghost function Contents(): Store
      reads this, counters.Values, sets.Values
    {
      Store(values, Tallies(), Sets())
    }

    constructor ()
      ensures Valid() && Contents() == EMPTY && counters == map[] && sets == map[]
    {
      counters, values, sets := map[], map[], map[];
    }

    // ---------- counters ----------

    method FlushCounters(d: real)
      requires Valid() && d > 0.0
      modifies counters.Values
      ensures Valid() && Contents() == Flush(old(Contents()), d)
    {
      hide FlushTally, Sets;
      var todo := counters.Keys;
      while todo != {}
        invariant todo <= counters.Keys
        invariant forall k <- todo :: counters[k].Snapshot() == old(counters[k].Snapshot())
        invariant forall k <- counters.Keys - todo ::
            counters[k].Snapshot() == FlushTally(old(counters[k].Snapshot()), d)
        decreases |todo|
      {
        var name :| name in todo;
        counters[name].Roll(d);
        todo := todo - {name};
      }
      assert Tallies() == Flush(old(Contents()), d).counters;
    }

    method CounterBy(name: Bytes, count: int) returns (r: int)
      requires Valid()
      modifies this`counters, counters.Values
      ensures Valid() && fresh(counters.Values - old(counters.Values))
      ensures Contents() == CountBy(old(Contents()), name, count)
      ensures r == Contents().counters[name].value
    {
      hide Sets;
      if name in counters {
        var v := counters[name];
        v.value := Wrap(v.value + count);
        assert Tallies() == old(Tallies())[name := v.Snapshot()];
        return v.value;
      } else {
        var c := new Counter(count);
        counters := counters[name := c];
        assert Tallies() == old(Tallies())[name := c.Snapshot()];
        return count;
      }
    }

    // ---------- values ----------

    method IncrBy(name: Bytes, count: int) returns (r: int)
      modifies this`values
      ensures (Contents(), r) == Increment(old(Contents()), name, count)
    {
      if name in values {
        var v := Wrap(values[name] + count);
        values := values[name := v];
        return v;
      } else {
        values := values[name := count];
        return count;
      }
    }

    method DecrBy(name: Bytes, count: int) returns (r: int)
      modifies this`values
      ensures (Contents(), r) == Decrement(old(Contents()), name, count)
    {
      if name in values {
        var v := Wrap(values[name] - count);
        values := values[name := v];
        return v;
      } else {
        values := values[name := Wrap(-1 * count)];
        return count;
      }
    }

    method Del(name: Bytes) returns (deleted: int)
      requires Valid()
      modifies this`values, this`counters
      ensures Valid() && counters.Values <= old(counters.Values)
      ensures Contents() == Delete(old(Contents()), {name})
      ensures deleted == (if name in old(Contents()).values then 1 else 0)
                         + (if name in old(Contents()).counters then 1 else 0)
    {
      hide Delete, Sets;
      deleted := 0;
      if name in values {
        values := values - {name};
        deleted := deleted + 1;
      }
      if name in counters {
        FewerValues(counters, name);
        counters := counters - {name};
        deleted := deleted + 1;
      }
      assert Tallies() == old(Tallies()) - {name};
      DeleteIs(old(Contents()), Contents(), name);
    }

    method Exists(name: Bytes) returns (r: int)
      ensures r == if name in Contents().values then 1 else 0
    {
      if name in values {
        return 1;
      } else {
        return 0;
      }
    }

    // None stands for ErrNotFound.
    method Get(name: Bytes) returns (r: Option<int>)
      ensures r == if name in Contents().values then Some(Contents().values[name]) else None
    {
      if name in values {
        return Some(values[name]);
      } else {
        return None;
      }
    }

    method Set(name: Bytes, value: int) returns (r: int)
      modifies this`values
      ensures Contents() == Assign(old(Contents()), name, value) && r == 1
    {
      values := values[name := value];
      return 1;
    }

    method SetNx(name: Bytes, value: int) returns (r: int)
      modifies this`values
      ensures if name in old(Contents()).values then Contents() == old(Contents()) && r == -1
              else Contents() == Assign(old(Contents()), name, value) && r == 1
    {
      if name !in values {
        values := values[name := value];
        return 1;
      } else {
        return -1;
      }
    }

    // ---------- sets ----------

    method SAdd(name: Bytes, value: Bytes) returns (r: int)
      requires Valid()
      modifies this`sets, sets.Values
      ensures Valid() && fresh(sets.Values - old(sets.Values))
      ensures Contents() == PutSet(old(Contents()), name, SetAt(old(Contents()), name) + {value})
      ensures r == |SetAt(Contents(), name)| - |SetAt(old(Contents()), name)|
    {
      hide SetAt, PutSet, Tallies, Sets;
      var s := Ensure(name);
      ghost var before := s.m;
      r := InsertAt(name, value);
      SetStored(old(Contents()), Contents(), name, before, before + {value});
    }

    // Inserts into the set of a key without touching any other.
    method InsertAt(name: Bytes, value: Bytes) returns (r: int)
      requires Valid() && name in sets
      modifies sets[name]
      ensures Sets() == old(Sets())[name := old(sets[name].m) + {value}]
      ensures r == |old(sets[name].m) + {value}| - |old(sets[name].m)|
    {
      r := sets[name].Insert(value);
    }

    // The set under a key, created empty when the key is new.
    method Ensure(name: Bytes) returns (s: MemberSet)
      requires Valid()
      modifies this`sets
      ensures Valid() && name in sets && sets[name] == s && (fresh(s) || s in old(sets.Values))
      ensures fresh(sets.Values - old(sets.Values))
      ensures s.m == SetAt(old(Contents()), name) && Sets() == old(Sets())[name := s.m]
    {
      if name in sets {
        s := sets[name];
      } else {
        s := new MemberSet();
        sets := sets[name := s];
      }
    }

    method SRem(name: Bytes, value: Bytes) returns (r: int)
      requires Valid()
      modifies sets.Values
      ensures Valid()
      ensures name !in old(Contents()).sets ==> r == -1 && Contents() == old(Contents())
      ensures name in old(Contents()).sets ==>
                && Contents() == PutSet(old(Contents()), name, SetAt(old(Contents()), name) - {value})
                && r == |SetAt(old(Contents()), name)| - |SetAt(Contents(), name)|
    {
      if name !in sets {
        return -1;
      }
      var s := sets[name];
      ghost var before := s.m;
      if value in s.m {
        s.m := s.m - {value};
        r := 1;
      } else {
        assert before - {value} == before;
        r := 0;
      }
      assert Sets() == old(Sets())[name := before - {value}];
    }

    method SCard(name: Bytes) returns (r: int)
      ensures r == |SetAt(Contents(), name)|
    {
      if name in sets {
        return |sets[name].m|;
      } else {
        return 0;
      }
    }

    // The live set itself, not a copy.
    method SMembers(name: Bytes) returns (r: MemberSet?)
      ensures r == if name in sets then sets[name] else null
      ensures r == null <==> name !in Contents().sets
      ensures r != null ==> r.m == Contents().sets[name]
    {
      if name in sets {
        return sets[name];
      } else {
        return null;
      }
    }

    method SDiff(resultSet: MemberSet, name: Bytes) returns (r: MemberSet)
      ensures r == resultSet || fresh(r)
      ensures r.m == resultSet.m - SetAt(Contents(), name)
    {
      if name !in sets {
        return resultSet;
      }
      var s := sets[name];
      r := new MemberSet();
      var todo := resultSet.m;
      while todo != {}
        invariant todo <= resultSet.m
        invariant r.m == resultSet.m - todo - s.m
        decreases |todo|
      {
        var k :| k in todo;
        if k !in s.m {
          r.m := r.m + {k};
        }
        todo := todo - {k};
      }
    }

    method SIsMember(name: Bytes, value: Bytes) returns (r: int)
      ensures r == IsMember(Contents(), name, value)
    {
      if name in sets {
        if value in sets[name].m {
          return 1;
        }
      }
      return 0;
    }

    method SUnion(names: seq<Bytes>) returns (r: MemberSet)
      ensures fresh(r) && r.m == UnionOf(Contents(), names)
    {
      hide UnionOf;
      ghost var st := Contents();
      r := new MemberSet();
      UnionNone(st);
      for i := 0 to |names|
        invariant Contents() == st && r.m == UnionOf(st, names[..i])
      {
        UnionSnoc(st, names[..i], names[i]);
        assert names[..i + 1] == names[..i] + [names[i]];
        if names[i] in sets {
          r.AddAll(sets[names[i]]);
        }
      }
      assert names[..|names|] == names;
    }

    // Only a smallest of the named sets is scanned, yet the result is the plain
    // intersection; null exactly when some key is missing.
    method SInter(names: seq<Bytes>) returns (r: MemberSet?, ghost scanned: MemberSet?)
      requires names != []
      ensures r == null <==> exists k <- names :: k !in Contents().sets
      ensures r != null ==> fresh(r) && r.m == InterOf(Contents(), names)
      ensures r != null ==>
                && (exists k <- names :: sets[k] == scanned)
                && (forall k <- names :: |scanned.m| <= |sets[k].m|)
    {
      hide UnionOf;
      hide InterOf;
      var missing, found, minimalSetIndex := Collect(names);
      if missing {
        return null, null;
      }
      assert names[minimalSetIndex] in names;
      scanned := sets[names[minimalSetIndex]];
      var results := Common(found, minimalSetIndex, Contents(), names);
      r := new MemberSet();
      r.m := results;
    }

    // The first loop of SInter: look up every set, remembering where a smallest one is.
    method Collect(names: seq<Bytes>) returns (missing: bool, found: seq<set<Bytes>>, minimalSetIndex: nat)
      requires names != []
      ensures missing <==> exists k <- names :: k !in sets
      ensures !missing ==>
                && |found| == |names| && minimalSetIndex < |names|
                && (forall j :: 0 <= j < |names| ==> names[j] in sets && found[j] == sets[names[j]].m)
                && (forall j :: 0 <= j < |names| ==> |found[minimalSetIndex]| <= |found[j]|)
    {
      var values := new set<Bytes>[|names|](_ => {});
      minimalSetIndex := 0;
      for i := 0 to |names|
        invariant 0 <= minimalSetIndex < if i == 0 then 1 else i
        invariant forall j :: 0 <= j < i ==> names[j] in sets && values[j] == sets[names[j]].m
        invariant forall j :: 0 <= j < i ==> |values[minimalSetIndex]| <= |values[j]|
      {
        if names[i] !in sets {
          assert names[i] in names;
          return true, [], 0;
        }
        var result := sets[names[i]];
        values[i] := result.m;
        if |result.m| < |values[minimalSetIndex]| {
          minimalSetIndex := i;
        }
      }
      return false, values[..], minimalSetIndex;
    }

    // The second loop of SInter: keep the members of one set that are in all the others.
    static method Common(found: seq<set<Bytes>>, minimal: nat, ghost st: Store, ghost names: seq<Bytes>)
      returns (results: set<Bytes>)
      requires |found| == |names| && minimal < |names|
      requires forall j :: 0 <= j < |names| ==> found[j] == SetAt(st, names[j])
      ensures results == InterOf(st, names)
    {
      hide InterOf;
      InterWithin(st, names, minimal);
      results := {};
      var todo := found[minimal];
      while todo != {}
        invariant todo <= found[minimal] && results == (found[minimal] - todo) * InterOf(st, names)
        decreases |todo|
      {
        var k :| k in todo;
        var value := InAll(k, found, minimal, st, names);
        if value {
          results := results + {k};
        }
        todo := todo - {k};
      }
    }

    // The inner loop of SInter: is k in every set but the one it was taken from?
    static method InAll(k: Bytes, found: seq<set<Bytes>>, skip: nat, ghost st: Store, ghost names: seq<Bytes>)
      returns (value: bool)
      requires |found| == |names| && skip < |names| && k in found[skip]
      requires forall j :: 0 <= j < |names| ==> found[j] == SetAt(st, names[j])
      ensures value <==> k in InterOf(st, names)
    {
      var i := 0;
      while i < |found|
        invariant 0 <= i <= |found|
        invariant forall j :: 0 <= j < i ==> k in found[j]
      {
        if i != skip {
          if k !in found[i] {
            assert names[i] in names;
            return false;
          }
        }
        i := i + 1;
      }
      return true;
    }
  }

  lemma FewerValues<T>(m: map<Bytes, T>, key: Bytes)
    ensures (m - {key}).Values <= m.Values
    ensures Injective(m) ==> Injective(m - {key})
  {
  }

  lemma SetStored(before: Store, after: Store, key: Bytes, created: set<Bytes>, s: set<Bytes>)
    requires after.values == before.values && after.counters == before.counters
    requires after.sets == before.sets[key := created][key := s]
    ensures after == PutSet(before, key, s) && SetAt(after, key) == s
  {
    assert before.sets[key := created][key := s] == before.sets[key := s];
  }

  lemma DeleteIs(before: Store, after: Store, key: Bytes)
    requires after.values == if key in before.values then before.values - {key} else before.values
    requires after.counters == before.counters - {key} && after.sets == before.sets
    ensures after == Delete(before, {key})
  {
    assert key !in before.values ==> before.values - {key} == before.values;
  }

  lemma InterWithin(st: Store, keys: seq<Bytes>, i: nat)
    requires i < |keys|
    ensures InterOf(st, keys) <= SetAt(st, keys[i])
  {
    assert keys[i] in keys;
  }

  lemma UnionNone(st: Store)
    ensures UnionOf(st, []) == {}
  {
  }

  lemma UnionSnoc(st: Store, keys: seq<Bytes>, key: Bytes)
    ensures UnionOf(st, keys + [key]) == UnionOf(st, keys) + SetAt(st, key)
  {
  }
}
