// Which replies of the stats machine the wire can carry, decided by the store and the
// request before the request is handled.

module StatsReplies {
  import opened ByteStrings
  import opened Decimal
  import opened Wire
  import opened RoundTrip
  import opened StatsMachine

  // Replies the wire format can carry: texts short enough for a line, without a line
  // feed, and set members that are not empty.
  ghost predicate Carriable(reply: Reply) {
    match reply
    case Silent => false
    case Integer(n) => IsInt64(n)
    case Integers(ns) => |ns| <= MAX_INT64 && forall n <- ns :: IsInt64(n)
    case Nil => true
    case Members(s) => |s| <= MAX_INT64 && forall x <- s :: LineBody(x)
    case Failed(text) => LineBody(ERR_PREFIX + text)
    case Status(text) => LineBody(text)
  }

  // ---------- fixed texts ----------

  // The longest text that still fits a line behind the error prefix.
  const MAX_TEXT: nat := LINE_BUFFER - 7

  lemma AsciiLine(s: string)
    requires '\n' !in s
    ensures |Ascii(s)| == |s| && LF !in Ascii(s)
    ensures |s| <= MAX_TEXT ==> LineBody(ERR_PREFIX + Ascii(s))
  {
    forall i | 0 <= i < |s|
      ensures Ascii(s)[i] != LF
    {
      assert s[i] in s;
    }
  }

  predicate OneLine(s: string) {
    '\n' !in s && |s| <= MAX_TEXT
  }

  lemma TakesPlain()
    ensures '\n' !in TAKES_ONE && '\n' !in TAKES_TWO
    ensures |TAKES_ONE| == 28 && |TAKES_TWO| == 29
  {
  }

  lemma SettersUsage()
    ensures OneLine(UsageText(SET))
    ensures OneLine(UsageText(SETNX))
  {
    hide TAKES_ONE, TAKES_TWO;
    TakesPlain();
  }

  lemma LookupsUsage()
    ensures OneLine(UsageText(GET))
    ensures OneLine(UsageText(EXISTS))
    ensures OneLine(UsageText(DEL))
  {
    hide TAKES_ONE, TAKES_TWO;
    TakesPlain();
  }

  lemma CountersUsage()
    ensures OneLine(UsageText(INCR))
    ensures OneLine(UsageText(DECR))
    ensures OneLine(UsageText(COUNT))
  {
    hide TAKES_ONE, TAKES_TWO;
    TakesPlain();
  }

  lemma MembersUsage()
    ensures OneLine(UsageText(SADD))
    ensures OneLine(UsageText(SREM))
    ensures OneLine(UsageText(SCARD))
  {
    hide TAKES_ONE, TAKES_TWO;
    TakesPlain();
  }

  lemma QueriesUsage()
    ensures OneLine(UsageText(SMEMBERS))
    ensures OneLine(UsageText(SDIFF))
  {
    hide TAKES_ONE, TAKES_TWO;
    TakesPlain();
  }

  lemma FoldsUsage()
    ensures OneLine(UsageText(SISMEMBER))
    ensures OneLine(UsageText(SINTER))
    ensures OneLine(UsageText(SUNION))
  {
    hide TAKES_ONE, TAKES_TWO;
    TakesPlain();
  }

  lemma UsageFits(h: Handler)
    ensures LineBody(ERR_PREFIX + Usage(h))
  {
    hide LineBody, Ascii, UsageText;
    SettersUsage();
    LookupsUsage();
    CountersUsage();
    MembersUsage();
    QueriesUsage();
    FoldsUsage();
    AsciiLine(UsageText(h));
  }

  // The report of a rejected number fits a line.
  predicate ReportFits(lib: Lib, arg: Bytes) {
    var quoted := lib.quote(arg);
    LF !in quoted && |quoted| <= if ParseInt(arg) == Range then 75 else 79
  }

  lemma ReportFitsExactly(lib: Lib, arg: Bytes)
    ensures LineBody(ERR_PREFIX + NumError(lib, arg)) <==> ReportFits(lib, arg)
  {
    hide Ascii, ParseInt, LineBody;
    var head := "strconv.ParseInt: parsing ";
    var tail := if ParseInt(arg) == Range then "value out of range" else "invalid syntax";
    AsciiLine(head);
    AsciiLine(": ");
    AsciiLine(tail);
    Quoting(Ascii(head), lib.quote(arg), Ascii(": "), Ascii(tail));
  }

  lemma Quoting(head: Bytes, quoted: Bytes, colon: Bytes, tail: Bytes)
    requires LF !in head && LF !in colon && LF !in tail
    ensures LineBody(ERR_PREFIX + (head + quoted + colon + tail))
            <==> LF !in quoted && |head| + |quoted| + |colon| + |tail| <= MAX_TEXT
  {
    assert forall b :: b in ERR_PREFIX + (head + quoted + colon + tail)
                       <==> b in ERR_PREFIX || b in head || b in quoted || b in colon || b in tail;
  }

  // ---------- what a request asks to be sent ----------

  // The argument read as a number, if there is one.
  function NumberText(h: Handler, d: seq<Bytes>): Option<Bytes>
    requires |d| >= Minimum(h)
  {
    match h
    case SET | SETNX => Some(d[1])
    case INCR | DECR | COUNT => if |d| > 1 then Some(d[1]) else None
    case _ => None
  }

  // The members a command lists.
  function Listed(st: Store, h: Handler, d: seq<Bytes>): set<Bytes>
    requires |d| >= Minimum(h)
  {
    match h
    case SMEMBERS => SetAt(st, d[0])
    case SDIFF => SetAt(st, d[0]) - UnionOf(st, d[1..])
    case SINTER => if forall k <- d :: k in st.sets then InterOf(st, d) else {}
    case SUNION => UnionOf(st, d)
    case _ => {}
  }

  // What a request asks to be sent fits the wire.
  predicate Sendable(lib: Lib, st: Store, h: Handler, d: seq<Bytes>) {
    |d| >= Minimum(h) ==>
      && (forall x <- Listed(st, h, d) :: LineBody(x))
      && var text := NumberText(h, d);
         (text.Some? && !ParseInt(text.value).Number? ==> ReportFits(lib, text.value))
  }

  // ---------- how large a store can be ----------

  function AllMembers(st: Store): (r: set<Bytes>)
    ensures forall k <- st.sets :: st.sets[k] <= r
    ensures forall x <- r :: exists k :: k in st.sets && x in st.sets[k]
  {
    set k, x | k in st.sets && x in st.sets[k] :: x
  }

  // Every number fits int64, and there are at most n keys and at most n members.
  ghost predicate Sound(st: Store, n: int) {
    && Fits(st)
    && |st.values| + |st.counters| <= n
    && |AllMembers(st)| <= n
  }

  lemma Smaller<T>(a: set<T>, b: set<T>)
    requires a <= b
    ensures |a| <= |b|
  {
    assert b == a + (b - a);
  }

  lemma SumSize<T>(a: set<T>, b: set<T>)
    ensures |a + b| <= |a| + |b|
  {
    assert a + b == a + (b - a);
    Smaller(b - a, b);
  }

  lemma {:induction false} ArgumentsSize(d: seq<Bytes>)
    ensures |Arguments(d)| <= |d|
  {
    if d == [] {
      assert Arguments(d) == {};
    } else {
      var n := |d| - 1;
      ArgumentsSize(d[..n]);
      assert d == d[..n] + [d[n]];
      assert Arguments(d) == Arguments(d[..n]) + {d[n]};
    }
  }

  lemma StoredWithin(st: Store, key: Bytes)
    ensures SetAt(st, key) <= AllMembers(st)
  {
  }

  lemma UnionWithin(st: Store, keys: seq<Bytes>)
    ensures UnionOf(st, keys) <= AllMembers(st)
  {
    forall x | x in UnionOf(st, keys)
      ensures x in AllMembers(st)
    {
      var k :| k in keys && x in SetAt(st, k);
      StoredWithin(st, k);
    }
  }

  lemma ListedWithin(st: Store, h: Handler, d: seq<Bytes>)
    requires |d| >= Minimum(h)
    ensures Listed(st, h, d) <= AllMembers(st)
  {
    hide AllMembers, SetAt, UnionOf;
    StoredWithin(st, d[0]);
    if h == SUNION {
      UnionWithin(st, d);
    } else if h == SINTER {
      assert d[0] in d;
    }
  }

  // ---------- every command keeps a store sound ----------

  lemma PutSetMembers(st: Store, key: Bytes, s: set<Bytes>)
    ensures AllMembers(PutSet(st, key, s)) <= AllMembers(st) + s
  {
    var st' := PutSet(st, key, s);
    forall x | x in AllMembers(st')
      ensures x in AllMembers(st) + s
    {
      var k :| k in st'.sets && x in st'.sets[k];
    }
  }

  // A command adds to the members at most those it was given, and only SADD adds any.
  lemma MembersGrow(lib: Lib, st: Store, h: Handler, d: seq<Bytes>)
    ensures AllMembers(Apply(lib, st, h, d).0)
            <= AllMembers(st) + if h == SADD && |d| >= 2 then Arguments(d[1..]) else {}
  {
    hide Usage, NumError, ParseInt, AllMembers, SetAt, UnionOf, InterOf, Arguments, PutSet;
    if |d| >= Minimum(h) {
      var s := SetAt(st, d[0]);
      StoredWithin(st, d[0]);
      if h == SADD {
        PutSetMembers(st, d[0], s + Arguments(d[1..]));
      } else if h == SREM {
        PutSetMembers(st, d[0], s - Arguments(d[1..]));
      } else if !OnSets(h) {
        SameSets(lib, st, h, d);
      }
    }
  }

  lemma SameSets(lib: Lib, st: Store, h: Handler, d: seq<Bytes>)
    requires |d| >= Minimum(h) && !OnSets(h)
    ensures AllMembers(ApplyToNumbers(lib, st, h, d).0) == AllMembers(st)
  {
    hide ApplyToNumbers;
    NumbersApart(lib, st, h, d);
  }

  lemma MapSize(m: map<Bytes, int>, key: Bytes, v: int)
    ensures |m[key := v]| <= |m| + 1
  {
    assert m[key := v].Keys == m.Keys + {key};
    SumSize(m.Keys, {key});
  }

  lemma TallySize(m: map<Bytes, Tally>, key: Bytes, t: Tally)
    ensures |m[key := t]| <= |m| + 1
  {
    assert m[key := t].Keys == m.Keys + {key};
    SumSize(m.Keys, {key});
  }

  lemma FewerKeys(st: Store, keys: set<Bytes>)
    ensures |Delete(st, keys).values| <= |st.values| && |Delete(st, keys).counters| <= |st.counters|
  {
    Smaller((st.values - keys).Keys, st.values.Keys);
    Smaller((st.counters - keys).Keys, st.counters.Keys);
  }

  function Entries(st: Store): nat {
    |st.values| + |st.counters|
  }

  lemma EntriesGrow(lib: Lib, st: Store, h: Handler, d: seq<Bytes>)
    requires |d| >= Minimum(h) && !OnSets(h)
    ensures Entries(ApplyToNumbers(lib, st, h, d).0) <= Entries(st) + 1
  {
    hide NumError, ParseInt, Arguments, Wrap, Delete;
    var key, after := d[0], ApplyToNumbers(lib, st, h, d).0;
    if h == DEL {
      FewerKeys(st, Arguments(d));
    } else if h == COUNT {
      if key in after.counters {
        TallySize(st.counters, key, after.counters[key]);
      }
    } else if key in after.values {
      MapSize(st.values, key, after.values[key]);
    }
  }

  lemma ApplySound(lib: Lib, st: Store, h: Handler, d: seq<Bytes>, n: int)
    requires Sound(st, n)
    ensures Sound(Apply(lib, st, h, d).0, n + |d|)
  {
    hide Fits, AllMembers, ApplyToNumbers, ApplyToSets, Usage, Arguments;
    ApplyFits(lib, st, h, d);
    MembersGrow(lib, st, h, d);
    var added := if h == SADD && |d| >= 2 then Arguments(d[1..]) else {};
    if |d| >= 2 {
      ArgumentsSize(d[1..]);
    }
    SumSize(AllMembers(st), added);
    Smaller(AllMembers(Apply(lib, st, h, d).0), AllMembers(st) + added);
    if |d| >= Minimum(h) {
      if OnSets(h) {
        SetsApart(st, h, d);
      } else {
        EntriesGrow(lib, st, h, d);
      }
    }
  }

  // ---------- which replies can be carried ----------

  lemma MeetSize(keys: set<Bytes>, st: Store)
    ensures Found(st, keys) <= Entries(st)
  {
    Smaller(keys * st.values.Keys, st.values.Keys);
    Smaller(keys * st.counters.Keys, st.counters.Keys);
  }

  lemma NumbersCarriable(lib: Lib, st: Store, h: Handler, d: seq<Bytes>, n: int)
    requires Sound(st, n) && n <= MAX_INT64 && |d| >= Minimum(h) && !OnSets(h)
    ensures var reply := ApplyToNumbers(lib, st, h, d).1;
            Carriable(reply) <==> reply != Silent && Sendable(lib, st, h, d)
  {
    hide NumError, LineBody, ReportFits, Wrap, AllMembers, Delete, Found, ParseInt, Assign, CountBy, Arguments;
    var text := NumberText(h, d);
    if text.Some? && !ParseInt(text.value).Number? {
      ReportFitsExactly(lib, text.value);
    }
    MeetSize(Arguments(d), st);
  }

  lemma CardsFit(st: Store, keys: seq<Bytes>, n: int)
    requires Sound(st, n) && n <= MAX_INT64
    ensures forall c <- Cards(st, keys) :: IsInt64(c)
  {
    hide SetAt, AllMembers;
    forall i | 0 <= i < |keys|
      ensures |SetAt(st, keys[i])| <= MAX_INT64
    {
      StoredWithin(st, keys[i]);
      Smaller(SetAt(st, keys[i]), AllMembers(st));
    }
  }

  predicate Lists(h: Handler) {
    h in {SMEMBERS, SDIFF, SINTER, SUNION}
  }

  lemma ListingReply(st: Store, h: Handler, d: seq<Bytes>)
    requires |d| >= Minimum(h) && Lists(h)
    ensures var reply := ApplyToSets(st, h, d).1;
            reply == Members(Listed(st, h, d)) || (reply == Nil && Listed(st, h, d) == {})
  {
    hide UnionOf, InterOf;
  }

  lemma ListingCarriable(lib: Lib, st: Store, h: Handler, d: seq<Bytes>, n: int)
    requires Sound(st, n) && n <= MAX_INT64 && |d| >= Minimum(h) && Lists(h)
    ensures Carriable(ApplyToSets(st, h, d).1) <==> Sendable(lib, st, h, d)
  {
    hide LineBody, AllMembers, Listed, ApplyToSets;
    ListingReply(st, h, d);
    ListedWithin(st, h, d);
    Smaller(Listed(st, h, d), AllMembers(st));
  }

  lemma GrowthFits(st: Store, key: Bytes, members: seq<Bytes>, n: int)
    requires Sound(st, n) && n + |members| <= MAX_INT64
    ensures var s := SetAt(st, key);
            && IsInt64(|s + Arguments(members)| - |s|)
            && IsInt64(|s| - |s - Arguments(members)|)
  {
    hide AllMembers, SetAt, Arguments;
    var s := SetAt(st, key);
    StoredWithin(st, key);
    Smaller(s, AllMembers(st));
    ArgumentsSize(members);
    SumSize(s, Arguments(members));
    Smaller(s, s + Arguments(members));
    Smaller(s - Arguments(members), s);
  }

  lemma OneOrManyCarriable(ns: seq<int>)
    requires 0 < |ns| <= MAX_INT64 && forall n <- ns :: IsInt64(n)
    ensures Carriable(OneOrMany(ns))
  {
  }

  lemma SizesCarriable(lib: Lib, st: Store, h: Handler, d: seq<Bytes>, n: int)
    requires Sound(st, n) && n + |d| <= MAX_INT64 && |d| >= Minimum(h) && OnSets(h) && !Lists(h)
    ensures Carriable(ApplyToSets(st, h, d).1) && Sendable(lib, st, h, d)
  {
    hide LineBody, Sound, SetAt, UnionOf, InterOf, Arguments, PutSet, OneOrMany, Cards, Memberships, IsMember;
    assert n >= 0 by {
      SoundSize(st, n);
    }
    match h
    case SADD => GrowthFits(st, d[0], d[1..], n);
    case SREM => GrowthFits(st, d[0], d[1..], n);
    case SCARD =>
      CardsFit(st, d, n);
      OneOrManyCarriable(Cards(st, d));
    case SISMEMBER =>
      MembershipsFit(st, d[0], d[1..]);
      OneOrManyCarriable(Memberships(st, d[0], d[1..]));
  }

  lemma SoundSize(st: Store, n: int)
    requires Sound(st, n)
    ensures n >= 0
  {
  }

  lemma MembershipsFit(st: Store, key: Bytes, xs: seq<Bytes>)
    ensures forall c <- Memberships(st, key, xs) :: IsInt64(c)
  {
  }

  // The exact condition, known before the command is carried out: on a sound store a
  // reply can be carried if and only if there is one, every member it would list fits a
  // line, and so does the report of a number it would reject.
  lemma CarriableExactly(lib: Lib, st: Store, h: Handler, d: seq<Bytes>, n: int)
    requires Sound(st, n) && n + |d| <= MAX_INT64
    ensures var reply := Apply(lib, st, h, d).1;
            Carriable(reply) <==> reply != Silent && Sendable(lib, st, h, d)
  {
    hide Sound, Usage, Carriable, Listed, NumberText, ApplyToNumbers, ApplyToSets;
    if |d| < Minimum(h) {
      UsageCarriable(h);
    } else if OnSets(h) {
      if Lists(h) {
        ListingCarriable(lib, st, h, d, n);
      } else {
        SizesCarriable(lib, st, h, d, n);
      }
      SetsSpeak(st, h, d);
    } else {
      NumbersCarriable(lib, st, h, d, n);
    }
  }

  lemma UsageCarriable(h: Handler)
    ensures Carriable(Failed(Usage(h)))
  {
    hide Usage;
    UsageFits(h);
  }

  // An empty member can be stored but not listed.
  lemma EmptyMemberCannotBeListed(lib: Lib, key: Bytes)
    ensures var st := Apply(lib, EMPTY, SADD, [key, []]).0;
            var reply := Apply(lib, st, SMEMBERS, [key]).1;
            reply == Members({[]}) && !Carriable(reply)
  {
    var st := Apply(lib, EMPTY, SADD, [key, []]).0;
    assert [key, []][1..] == [[]];
    assert Arguments([[]]) == {[]};
    assert SetAt(st, key) == {[]};
  }

  // ---------- a condition on the commands alone ----------

  // Every stored member fits a line.
  predicate Tidy(st: Store) {
    forall x <- AllMembers(st) :: LineBody(x)
  }

  // The command stores only members that fit a line, and its number is one, or reports
  // that fit are sent about it.
  predicate TidyCommand(lib: Lib, h: Handler, d: seq<Bytes>) {
    |d| >= Minimum(h) ==>
      && (h == SADD ==> forall x <- d[1..] :: LineBody(x))
      && var text := NumberText(h, d);
         (text.Some? && !ParseInt(text.value).Number? ==> ReportFits(lib, text.value))
  }

  lemma TidyStep(lib: Lib, st: Store, h: Handler, d: seq<Bytes>)
    requires Tidy(st) && TidyCommand(lib, h, d)
    ensures Sendable(lib, st, h, d)
    ensures Tidy(Apply(lib, st, h, d).0)
  {
    hide LineBody, AllMembers, Apply, Listed, NumberText, ParseInt, ReportFits;
    MembersGrow(lib, st, h, d);
    if |d| >= Minimum(h) {
      ListedWithin(st, h, d);
    }
  }

  lemma EmptySound()
    ensures Sound(EMPTY, 0) && Tidy(EMPTY)
  {
  }
}
