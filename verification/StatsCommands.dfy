// The registration of the stats commands: every command name reaches its own handler.

module StatsCommands {
  import opened ByteStrings
  import opened Context
  import opened StatsMachine

  function Name(h: Handler): string {
    match h
    case COUNT => "COUNT"
    case INCR => "INCR"
    case DECR => "DECR"
    case DEL => "DEL"
    case EXISTS => "EXISTS"
    case GET => "GET"
    case SET => "SET"
    case SETNX => "SETNX"
    case SADD => "SADD"
    case SREM => "SREM"
    case SCARD => "SCARD"
    case SMEMBERS => "SMEMBERS"
    case SDIFF => "SDIFF"
    case SISMEMBER => "SISMEMBER"
    case SINTER => "SINTER"
    case SUNION => "SUNION"
  }

  const HANDLERS: seq<Handler> := [
    COUNT, INCR, DECR, DEL, EXISTS, GET, SET, SETNX,
    SADD, SREM, SCARD, SMEMBERS, SDIFF, SISMEMBER, SINTER, SUNION]

  // The name a handler is registered under.
  function Key(h: Handler): Bytes {
    Ascii(Name(h))
  }

  function Registrations(): (r: seq<(Bytes, Handler)>)
    ensures |r| == |HANDLERS| && forall i :: 0 <= i < |HANDLERS| ==> r[i] == (Key(HANDLERS[i]), HANDLERS[i])
  {
    seq(|HANDLERS|, i requires 0 <= i < |HANDLERS| => (Key(HANDLERS[i]), HANDLERS[i]))
  }

  // The commands as a client spells them.
  lemma CommandsSpelled()
    ensures Key(SET) == Ascii("SET") && Key(SETNX) == Ascii("SETNX") && Key(GET) == Ascii("GET")
    ensures Key(EXISTS) == Ascii("EXISTS") && Key(DEL) == Ascii("DEL")
    ensures Key(INCR) == Ascii("INCR") && Key(DECR) == Ascii("DECR") && Key(COUNT) == Ascii("COUNT")
    ensures Key(SADD) == Ascii("SADD") && Key(SREM) == Ascii("SREM") && Key(SCARD) == Ascii("SCARD")
    ensures Key(SMEMBERS) == Ascii("SMEMBERS") && Key(SISMEMBER) == Ascii("SISMEMBER")
    ensures Key(SDIFF) == Ascii("SDIFF") && Key(SINTER) == Ascii("SINTER") && Key(SUNION) == Ascii("SUNION")
  {
  }

  // A usage text opens with the name of the command it is about.
  lemma UsageOpensWithTheName(h: Handler)
    ensures Key(h) <= Usage(h)
  {
    hide Name, UsageText;
    NameOpens(h);
    AsciiPrefix(Name(h), UsageText(h));
  }

  lemma NameOpens(h: Handler)
    ensures Name(h) <= UsageText(h)
  {
    hide TAKES_ONE, TAKES_TWO;
    match h
    case COUNT => assert Name(h) == "COUNTER"[..5];
    case _ =>
  }

  lemma AsciiPrefix(s: string, t: string)
    requires s <= t
    ensures Ascii(s) <= Ascii(t)
  {
    assert forall i :: 0 <= i < |s| ==> Ascii(s)[i] == AsciiByte(t[i]) == Ascii(t)[i];
  }

  // Only COUNT is announced as fire-and-forget.
  method RegisterBackend(ctx: BroadcastContext<Handler>)
    requires ctx.Valid()
    modifies ctx
    ensures ctx.Valid() && ctx.registered == old(ctx.registered) + Registrations()
  {
    hide HANDLERS, Key, Table;
    for i := 0 to |HANDLERS|
      invariant ctx.Valid() && ctx.registered == old(ctx.registered) + Registrations()[..i]
    {
      ctx.RegisterCommand(Command(Key(HANDLERS[i]), [], [], HANDLERS[i] == COUNT), HANDLERS[i]);
      assert Registrations()[..i + 1] == Registrations()[..i] + [Registrations()[i]];
    }
    assert Registrations()[..|HANDLERS|] == Registrations();
  }

  // Length and first two letters tell the names apart.
  lemma KeysDiffer(a: Handler, b: Handler)
    requires a != b
    ensures Key(a) != Key(b)
  {
    var x, y := Name(a), Name(b);
    assert |x| != |y| || x[0] != y[0] || x[1] != y[1];
    assert Key(a)[0] == AsciiByte(x[0]) && Key(b)[0] == AsciiByte(y[0]);
    assert Key(a)[1] == AsciiByte(x[1]) && Key(b)[1] == AsciiByte(y[1]);
    assert |Key(a)| == |x| && |Key(b)| == |y|;
  }

  lemma KeyIsUpper(h: Handler)
    ensures Upper(Key(h)) == Key(h)
  {
  }

  lemma {:induction false} TableOfPrefix(base: seq<(Bytes, Handler)>, n: nat, i: nat)
    requires i < n <= |HANDLERS|
    ensures var h := HANDLERS[i];
            var table := Table(base + Registrations()[..n]);
            Key(h) in table && table[Key(h)] == h
    decreases n
  {
    hide HANDLERS, Key, Upper;
    var longer := base + Registrations()[..n];
    assert longer[..|longer| - 1] == base + Registrations()[..n - 1];
    KeyIsUpper(HANDLERS[n - 1]);
    if i < n - 1 {
      TableOfPrefix(base, n - 1, i);
      if HANDLERS[n - 1] != HANDLERS[i] {
        KeysDiffer(HANDLERS[n - 1], HANDLERS[i]);
      }
    }
  }

  // Whatever was registered before, after the stats backend every command name, in any
  // mixture of cases, finds the handler of that command.
  lemma EveryNameFindsItsHandler(base: seq<(Bytes, Handler)>, h: Handler, typed: Bytes)
    requires IgnoringCase(typed, Key(h))
    ensures Upper(typed) in Table(base + Registrations())
    ensures Table(base + Registrations())[Upper(typed)] == h
  {
    hide HANDLERS, Key, Upper, Table, IgnoringCase;
    UpperExactly(typed, Key(h));
    KeyIsUpper(h);
    TableOfPrefix(base, |HANDLERS|, Position(h));
    assert Registrations()[..|HANDLERS|] == Registrations();
  }

  function Position(h: Handler): (i: nat)
    ensures i < |HANDLERS| && HANDLERS[i] == h
  {
    match h
    case COUNT => 0
    case INCR => 1
    case DECR => 2
    case DEL => 3
    case EXISTS => 4
    case GET => 5
    case SET => 6
    case SETNX => 7
    case SADD => 8
    case SREM => 9
    case SCARD => 10
    case SMEMBERS => 11
    case SDIFF => 12
    case SISMEMBER => 13
    case SINTER => 14
    case SUNION => 15
  }
}
