// A character terminal with deferred autowrap, as far as the line editor drives it:
// the ECMA-48 functions CHA, CUF, CUU, CUD and EL, line feed, and printing.

module Terminals {
  import opened ByteStrings

  datatype Op =
    | Put(b: byte)      // a printable byte, one column wide
    | LineFeed
    | CHA(n: nat)       // cursor to column n, counted from 1
    | CUF(n: nat)       // cursor forward
    | CUU(n: nat)       // cursor up
    | CUD(n: nat)       // cursor down
    | EL                // erase from the active position to the end of the line
    | Clear             // cursor home and erase the whole screen

  type Place = (int, int)  // row and column, both from 0

  // There is always room below, and above until the screen is cleared: from then on the
  // top of the screen is row 0, and the cursor does not move above it. After printing in
  // the last column the cursor stays there, and the next printed byte wraps first.
  datatype Screen = Screen(cells: map<Place, byte>, row: int, col: int, wrap: bool, home: bool)

  // A zero parameter stands for the default, 1.
  function Param(n: nat): nat {
    if n == 0 then 1 else n
  }

  function Min(a: int, b: int): int {
    if a < b then a else b
  }

  function EraseRight(cells: map<Place, byte>, row: int, col: int): map<Place, byte> {
    map p | p in cells && !(p.0 == row && p.1 >= col) :: cells[p]
  }

  function Act(cols: nat, s: Screen, op: Op): Screen
    requires cols > 0
  {
    match op
    case Put(b) =>
      var (r, c) := if s.wrap then (s.row + 1, 0) else (s.row, s.col);
      if c == cols - 1 then Screen(s.cells[(r, c) := b], r, c, true, s.home)
      else Screen(s.cells[(r, c) := b], r, c + 1, false, s.home)
    case LineFeed => Screen(s.cells, s.row + 1, s.col, false, s.home)
    case CHA(n) => Screen(s.cells, s.row, Min(Param(n) - 1, cols - 1), false, s.home)
    case CUF(n) => Screen(s.cells, s.row, Min(s.col + Param(n), cols - 1), false, s.home)
    case CUU(n) =>
      var r := s.row - Param(n);
      Screen(s.cells, if s.home && r < 0 then 0 else r, s.col, false, s.home)
    case CUD(n) => Screen(s.cells, s.row + Param(n), s.col, false, s.home)
    case Clear => Screen(map[], 0, 0, false, true)
    case EL => Screen(EraseRight(s.cells, s.row, s.col), s.row, s.col, s.wrap, s.home)
  }

  function Play(cols: nat, s: Screen, ops: seq<Op>): Screen
    requires cols > 0
  {
    if ops == [] then s else Act(cols, Play(cols, s, ops[..|ops| - 1]), ops[|ops| - 1])
  }

  lemma {:induction false} PlayConcat(cols: nat, s: Screen, a: seq<Op>, b: seq<Op>)
    requires cols > 0
    ensures Play(cols, s, a + b) == Play(cols, Play(cols, s, a), b)
  {
    hide Act;
    if b == [] {
      assert a + b == a;
    } else {
      assert (a + b)[..|a + b| - 1] == a + b[..|b| - 1];
      PlayConcat(cols, s, a, b[..|b| - 1]);
    }
  }

  lemma PlayOne(cols: nat, s: Screen, op: Op)
    requires cols > 0
    ensures Play(cols, s, [op]) == Act(cols, s, op)
  {
    assert [op][..0] == [];
  }

  lemma PlayNone(cols: nat, s: Screen)
    requires cols > 0
    ensures Play(cols, s, []) == s
  {
  }

  lemma PlayTriple(cols: nat, s: Screen, a: Op, b: Op, c: Op)
    requires cols > 0
    ensures Play(cols, s, [a, b, c]) == Act(cols, Act(cols, Act(cols, s, a), b), c)
  {
    hide Act;
    assert [a, b, c] == [a] + [b] + [c];
    PlayConcat(cols, s, [a], [b]);
    PlayConcat(cols, s, [a] + [b], [c]);
    PlayOne(cols, s, a);
    PlayOne(cols, Act(cols, s, a), b);
    PlayOne(cols, Act(cols, Act(cols, s, a), b), c);
  }

  lemma PlayPair(cols: nat, s: Screen, a: Op, b: Op)
    requires cols > 0
    ensures Play(cols, s, [a, b]) == Act(cols, Act(cols, s, a), b)
  {
    hide Act;
    assert [a, b] == [a] + [b];
    PlayConcat(cols, s, [a], [b]);
    PlayOne(cols, s, a);
    PlayOne(cols, Act(cols, s, a), b);
  }

  function Puts(text: Bytes): (r: seq<Op>)
    ensures |r| == |text| && forall i :: 0 <= i < |text| ==> r[i] == Put(text[i])
  {
    seq(|text|, i requires 0 <= i < |text| => Put(text[i]))
  }

  lemma PutsConcat(ops: seq<Op>, a: Bytes, b: Bytes)
    ensures ops + Puts(a) + Puts(b) == ops + Puts(a + b)
  {
  }

  // Columns are where columns can be.
  ghost predicate InColumns(cols: nat, s: Screen) {
    0 <= s.col < cols && forall p <- s.cells :: 0 <= p.1 < cols
  }

  // ---------- text wrapped at the right edge ----------

  // The cell of the i-th byte of a text that starts in the top left corner.
  function CellOf(cols: nat, i: nat): (p: Place)
    requires cols > 0
    ensures 0 <= p.0 && 0 <= p.1 < cols
  {
    if i == 0 then (0, 0)
    else
      var (r, c) := CellOf(cols, i - 1);
      if c == cols - 1 then (r + 1, 0) else (r, c + 1)
  }

  lemma CellLinear(cols: nat, i: nat)
    requires cols > 0
    ensures CellOf(cols, i).0 * cols + CellOf(cols, i).1 == i
  {
    if i > 0 {
      CellLinear(cols, i - 1);
      var (r, c) := CellOf(cols, i - 1);
      assert (r + 1) * cols == r * cols + cols;
    }
  }

  lemma {:induction false} AtLeastOnce(k: int, d: int)
    requires 0 < d && 0 < k
    ensures k * d >= d
    decreases k
  {
    if k > 1 {
      AtLeastOnce(k - 1, d);
      assert k * d == (k - 1) * d + d;
    }
  }

  lemma QuotientUnique(d: int, q: int, r: int, q': int, r': int)
    requires 0 <= r < d && 0 <= r' < d && q * d + r == q' * d + r'
    ensures q == q' && r == r'
  {
    assert (q - q') * d == q * d - q' * d && (q' - q) * d == q' * d - q * d;
    if q > q' {
      AtLeastOnce(q - q', d);
    } else if q' > q {
      AtLeastOnce(q' - q, d);
    }
  }

  lemma DivModUnique(x: int, d: int, q: int, r: int)
    requires 0 <= r < d && x == q * d + r
    ensures x / d == q && x % d == r
  {
    assert x == (x / d) * d + x % d;
    QuotientUnique(d, q, r, x / d, x % d);
  }

  // The division and remainder the editor computes name the same cell.
  lemma CellDivMod(cols: nat, i: nat)
    requires cols > 0
    ensures CellOf(cols, i) == (i / cols, i % cols)
    ensures (i + cols) / cols == CellOf(cols, i).0 + 1
    ensures (i + cols - 1) / cols == CellOf(cols, i).0 + if CellOf(cols, i).1 == 0 then 0 else 1
  {
    var (r, c) := CellOf(cols, i);
    CellLinear(cols, i);
    DivModUnique(i, cols, r, c);
    assert (r + 1) * cols == r * cols + cols;
    DivModUnique(i + cols, cols, r + 1, c);
    if c == 0 {
      assert (r - 1) * cols == r * cols - cols;
      if r > 0 || cols > 1 {
        DivModUnique(i + cols - 1, cols, r, cols - 1);
      } else {
        DivModUnique(i + cols - 1, cols, r, 0);
      }
    } else {
      DivModUnique(i + cols - 1, cols, r + 1, c - 1);
    }
  }

  lemma {:induction false} CellMonotone(cols: nat, i: nat, j: nat)
    requires cols > 0 && i <= j
    ensures CellOf(cols, i).0 <= CellOf(cols, j).0
    decreases j - i
  {
    if i < j {
      CellMonotone(cols, i, j - 1);
    }
  }

  // The cells a text occupies when it is wrapped at the right edge.
  function Wrapped(cols: nat, text: Bytes): map<Place, byte>
    requires cols > 0
  {
    if text == [] then map[]
    else Wrapped(cols, text[..|text| - 1])[CellOf(cols, |text| - 1) := text[|text| - 1]]
  }

  lemma {:induction false} WrappedRows(cols: nat, text: Bytes)
    requires cols > 0
    ensures forall p <- Wrapped(cols, text) :: 0 <= p.0 <= CellOf(cols, |text|).0 && 0 <= p.1 < cols
    ensures forall p <- Wrapped(cols, text) ::
              p.0 < CellOf(cols, |text|).0 + if CellOf(cols, |text|).1 == 0 then 0 else 1
  {
    if text != [] {
      WrappedRows(cols, text[..|text| - 1]);
      CellMonotone(cols, |text| - 1, |text|);
    }
  }

  // The part of the screen from row 0 down, and the part above it.
  function Below(cells: map<Place, byte>): map<Place, byte> {
    map p | p in cells && p.0 >= 0 :: cells[p]
  }

  function Above(cells: map<Place, byte>): map<Place, byte> {
    map p | p in cells && p.0 < 0 :: cells[p]
  }

  // Where the cursor stands after printing n bytes from the top left corner.
  ghost predicate AfterPrinting(cols: nat, s: Screen, n: nat)
    requires cols > 0
  {
    var (r, c) := CellOf(cols, n);
    if n > 0 && c == 0 then s.row == r - 1 && s.col == cols - 1 && s.wrap
    else s.row == r && s.col == c && !s.wrap
  }

  // Printing a text from the top left corner of a blank region fills exactly the cells
  // of the wrapped text.
  lemma {:induction false} PrintWrapped(cols: nat, s: Screen, text: Bytes)
    requires cols > 0 && Below(s.cells) == map[]
    requires s.row == 0 && s.col == 0 && !s.wrap
    ensures var t := Play(cols, s, Puts(text));
            && Below(t.cells) == Wrapped(cols, text)
            && Above(t.cells) == Above(s.cells)
            && AfterPrinting(cols, t, |text|)
  {
    hide CellOf;
    FirstCell(cols);
    if text != [] {
      var front := text[..|text| - 1];
      PrintWrapped(cols, s, front);
      assert Puts(text)[..|text| - 1] == Puts(front);
      PrintOne(cols, Play(cols, s, Puts(front)), |front|, text[|front|]);
    }
  }

  lemma FirstCell(cols: nat)
    requires cols > 0
    ensures CellOf(cols, 0) == (0, 0)
  {
  }

  lemma PrintOne(cols: nat, s: Screen, n: nat, b: byte)
    requires cols > 0 && AfterPrinting(cols, s, n)
    ensures var t := Act(cols, s, Put(b));
            && AfterPrinting(cols, t, n + 1)
            && t.cells == s.cells[CellOf(cols, n) := b]
            && Below(t.cells) == Below(s.cells)[CellOf(cols, n) := b]
            && Above(t.cells) == Above(s.cells)
  {
    HalvesPut(s.cells, CellOf(cols, n), b);
  }

  lemma HalvesPut(cells: map<Place, byte>, p: Place, b: byte)
    requires p.0 >= 0
    ensures Below(cells[p := b]) == Below(cells)[p := b]
    ensures Above(cells[p := b]) == Above(cells)
  {
  }
}
