// The bounded history of the line editor.

module Histories {
  import opened ByteStrings

  // ---------- specification ----------

  // The newest n entries.
  function Newest<T>(s: seq<T>, n: nat): (r: seq<T>)
    ensures |r| == if |s| <= n then |s| else n
  {
    if |s| <= n then s else s[|s| - n..]
  }

  // What adding a line does to a history of bounded length.
  function Added(entries: seq<Bytes>, max: nat, line: Bytes): seq<Bytes> {
    if max == 0 || (entries != [] && entries[|entries| - 1] == line) then entries
    else Newest(entries + [line], max)
  }

  datatype Event = Add(line: Bytes) | SetMaxLen(len: int)

  datatype State = State(entries: seq<Bytes>, max: nat)

  const DEFAULT_MAX: nat := 100

  const INITIAL: State := State([], DEFAULT_MAX)

  function Step(st: State, e: Event): State {
    match e
    case Add(line) => State(Added(st.entries, st.max, line), st.max)
    case SetMaxLen(len) => if len < 1 then st else State(Newest(st.entries, len), len)
  }

  function Run(events: seq<Event>): State {
    if events == [] then INITIAL else Step(Run(events[..|events| - 1]), events[|events| - 1])
  }

  // All lines ever added, without immediate repetitions.
  function Log(events: seq<Event>): seq<Bytes> {
    if events == [] then []
    else
      var before := Log(events[..|events| - 1]);
      match events[|events| - 1]
      case Add(line) => if before != [] && before[|before| - 1] == line then before else before + [line]
      case SetMaxLen(_) => before
  }

  // The smallest maximum in force since a given length of the log was reached decides
  // how much of it survives.
  function Kept(events: seq<Event>): nat {
    if events == [] then 0
    else
      var front := events[..|events| - 1];
      match events[|events| - 1]
      case Add(line) =>
        if Log(events) == Log(front) then Kept(front)
        else if Kept(front) < Run(front).max then Kept(front) + 1 else Run(front).max
      case SetMaxLen(len) => if len < 1 || Kept(front) <= len then Kept(front) else len
  }

  // Whatever stands before the last n entries is what is dropped.
  lemma NewestIsTheEnd<T>(older: seq<T>, newer: seq<T>, n: nat)
    requires |newer| <= n
    ensures |newer| == n || older == [] ==> Newest(older + newer, n) == newer
    ensures |older + newer| <= n ==> Newest(older + newer, n) == older + newer
  {
    assert [] + newer == newer;
  }

  lemma NewestOfNewest<T>(s: seq<T>, a: nat, b: nat)
    ensures Newest(Newest(s, a), b) == Newest(s, if a < b then a else b)
  {
  }

  lemma NewestAppend<T>(s: seq<T>, n: nat, x: T, max: nat)
    requires n <= |s| && n <= max && 0 < max
    ensures Newest(Newest(s, n) + [x], max) == Newest(s + [x], if n < max then n + 1 else max)
    ensures n > 0 ==> Newest(s, n)[|Newest(s, n)| - 1] == s[|s| - 1]
  {
  }

  // After any additions and changes of the maximum, the history is exactly the newest
  // part of the log, at most as long as the maximum, and never empty once something
  // has been added.
  lemma {:induction false} HistoryIsLogSuffix(events: seq<Event>)
    ensures var st := Run(events);
            && st.entries == Newest(Log(events), Kept(events))
            && |st.entries| == Kept(events) <= |Log(events)|
            && |st.entries| <= st.max && 0 < st.max
            && (Log(events) != [] ==> st.entries != [])
  {
    hide Newest;
    if events == [] {
      assert Newest<Bytes>([], 0) == [];
    } else {
      var front, e := events[..|events| - 1], events[|events| - 1];
      HistoryIsLogSuffix(front);
      match e
      case Add(line) => NewestAppend(Log(front), Kept(front), line, Run(front).max);
      case SetMaxLen(len) =>
        if len >= 1 {
          NewestOfNewest(Log(front), Kept(front), len);
        }
    }
  }

  // ---------- the history as the editor keeps it ----------

  class History {
    var entries: array?<Bytes>  // allocated on the first addition
    var len: nat
    var maxLen: nat

    ghost predicate Valid()
      reads this
    {
      && len <= maxLen && 0 < maxLen
      && (entries == null ==> len == 0)
      && (entries != null ==> entries.Length == maxLen)
    }

    ghost function Contents(): seq<Bytes>
      requires Valid()
      reads this, entries
    {
      if entries == null then [] else entries[..len]
    }

    constructor ()
      ensures Valid() && Contents() == [] && maxLen == DEFAULT_MAX && entries == null
    {
      entries, len, maxLen := null, 0, DEFAULT_MAX;
    }

    method Add(line: Bytes) returns (r: int)
      requires Valid()
      modifies this`entries, this`len, entries
      ensures Valid() && Contents() == Added(old(Contents()), maxLen, line)
      ensures entries != null && (old(entries) != null ==> entries == old(entries))
      ensures old(entries) == null ==> fresh(entries)
      ensures r == if old(Contents()) != [] && old(Contents())[|old(Contents())| - 1] == line then 0 else 1
    {
      if maxLen == 0 {
        return 0;
      }
      if entries == null {
        entries := new Bytes[maxLen](_ => []);
      }
      if len != 0 && entries[len - 1] == line {
        return 0;
      }
      ghost var before := entries[..len];
      if len == maxLen {
        ShiftDown(entries, maxLen - 1);
        len := len - 1;
        assert entries[..len] == before[1..];
      }
      ghost var kept := entries[..len];
      entries[len] := line;
      len := len + 1;
      assert entries[..len] == kept + [line];
      return 1;
    }

    // memmove(history, history + 1, n entries)
    static method ShiftDown(a: array<Bytes>, n: nat)
      requires n + 1 <= a.Length
      modifies a
      ensures forall i :: 0 <= i < n ==> a[i] == old(a[i + 1])
      ensures forall i :: n <= i < a.Length ==> a[i] == old(a[i])
    {
      for i := 0 to n
        invariant forall j :: 0 <= j < i ==> a[j] == old(a[j + 1])
        invariant forall j :: i <= j < a.Length ==> a[j] == old(a[j])
      {
        a[i] := a[i + 1];
      }
    }

    method SetMaxLen(newMax: int) returns (r: int)
      requires Valid()
      modifies this
      ensures Valid() && r == if newMax < 1 then 0 else 1
      ensures State(Contents(), maxLen) == Step(State(old(Contents()), old(maxLen)), Event.SetMaxLen(newMax))
    {
      if newMax < 1 {
        return 0;
      }
      if entries != null {
        entries := Shrunk(entries, len, newMax);
      }
      maxLen := newMax;
      if len > maxLen {
        len := maxLen;
      }
      return 1;
    }

    // A new array with the newest of the first n entries, as many as fit.
    static method Shrunk(h: array<Bytes>, n: nat, newMax: nat) returns (a: array<Bytes>)
      requires n <= h.Length
      ensures fresh(a) && a.Length == newMax
      ensures a[..if n < newMax then n else newMax] == Newest(h[..n], newMax)
    {
      var tocopy := n;
      a := new Bytes[newMax](_ => []);
      if newMax < tocopy {
        tocopy := newMax;
      }
      for i := 0 to tocopy
        invariant forall j :: 0 <= j < i ==> a[j] == h[n - tocopy + j]
      {
        a[i] := h[n - tocopy + i];
      }
    }

    // Overwrites an entry with a copy of a line.
    method Replace(i: nat, line: Bytes)
      requires Valid() && i < len
      modifies entries
      ensures Valid() && Contents() == old(Contents())[i := line]
    {
      entries[i] := line;
    }

    // Forgets the newest entry.
    method DropNewest()
      requires Valid() && 0 < len
      modifies this`len
      ensures Valid() && Contents() == old(Contents())[..|old(Contents())| - 1]
    {
      len := len - 1;
    }
  }
}
