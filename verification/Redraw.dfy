// What the two redraw procedures of the line editor emit, and what the terminal shows
// afterwards.

module Redraw {
  import opened ByteStrings
  import opened Terminals

  // ---------- single line ----------

  // The part of the text that is shown: how many bytes are skipped on the left so that
  // the cursor fits the row, and how many follow.
  function Offset(plen: nat, pos: nat, cols: nat): nat
    requires plen < cols
  {
    if plen + pos >= cols then plen + pos - cols + 1 else 0
  }

  function Width(plen: nat, len: nat, pos: nat, cols: nat): nat
    requires plen < cols && pos <= len
  {
    Min(len - Offset(plen, pos, cols), cols - plen)
  }

  // The two trimming loops.
  method TrimWindow(plen: nat, len: nat, pos: nat, cols: nat) returns (start: nat, len': nat, pos': nat)
    requires plen < cols && pos <= len
    ensures start == Offset(plen, pos, cols) && len' == Width(plen, len, pos, cols)
    ensures start <= pos <= start + len' <= len && pos' == pos - start
    ensures plen + pos' < cols && plen + len' <= cols
  {
    start, len', pos' := 0, len, pos;
    while plen + pos' >= cols
      invariant start <= Offset(plen, pos, cols) && pos' == pos - start && len' == len - start
      decreases pos'
    {
      start := start + 1;
      len' := len' - 1;
      pos' := pos' - 1;
    }
    while plen + len' > cols
      invariant Width(plen, len, pos, cols) <= len' <= len - start
      decreases len'
    {
      len' := len' - 1;
    }
  }

  // The window skips no more than it must, and shows all that fits.
  lemma WindowExactly(plen: nat, len: nat, pos: nat, cols: nat)
    requires plen < cols && pos <= len
    ensures var start := Offset(plen, pos, cols);
            && plen + (pos - start) < cols && (start > 0 ==> plen + (pos - start) == cols - 1)
    ensures var start, shown := Offset(plen, pos, cols), Width(plen, len, pos, cols);
            && plen + shown <= cols && start + shown <= len
            && (plen + shown == cols || start + shown == len)
  {
  }

  // Prompt and window, as printed.
  function Printed(prompt: Bytes, text: Bytes, pos: nat, cols: nat): (r: Bytes)
    requires |prompt| < cols && pos <= |text|
    ensures |prompt| <= |r| <= cols
  {
    var start := Offset(|prompt|, pos, cols);
    prompt + text[start..start + Width(|prompt|, |text|, pos, cols)]
  }

  function CursorColumn(plen: nat, pos: nat, cols: nat): nat
    requires plen < cols
  {
    plen + pos - Offset(plen, pos, cols)
  }

  function SingleOps(prompt: Bytes, text: Bytes, pos: nat, cols: nat): seq<Op>
    requires |prompt| < cols && pos <= |text|
  {
    [CHA(0)] + Puts(Printed(prompt, text, pos, cols))
    + [EL, CHA(0), CUF(CursorColumn(|prompt|, pos, cols))]
  }

  // What is left on the row: a full row loses its last byte, because after printing in
  // the last column the cursor still stands on it when the rest of the line is erased.
  function Remaining(printed: Bytes, cols: nat): Bytes
    requires 0 < cols && |printed| <= cols
  {
    if |printed| < cols then printed else printed[..cols - 1]
  }

  // A row holds a text from its left edge and nothing else.
  ghost predicate RowShows(cells: map<Place, byte>, row: int, text: Bytes) {
    && (forall c: int :: (row, c) in cells <==> 0 <= c < |text|)
    && (forall c :: 0 <= c < |text| ==> cells[(row, c)] == text[c])
  }

  ghost predicate SameElsewhere(cells: map<Place, byte>, cells': map<Place, byte>, row: int) {
    forall p: Place :: p.0 != row ==> (p in cells <==> p in cells') && (p in cells ==> cells[p] == cells'[p])
  }

  // Printing over the beginning of a row.
  ghost predicate Overprinted(cells: map<Place, byte>, cells': map<Place, byte>, row: int, text: Bytes) {
    && SameElsewhere(cells, cells', row)
    && (forall c :: 0 <= c < |text| ==> (row, c) in cells' && cells'[(row, c)] == text[c])
    && (forall c: int :: c < 0 || c >= |text| ==> ((row, c) in cells <==> (row, c) in cells'))
  }

  lemma NothingPrinted(cells: map<Place, byte>, row: int)
    ensures Overprinted(cells, cells, row, [])
  {
  }

  lemma OnePrinted(cells: map<Place, byte>, cells': map<Place, byte>, row: int, text: Bytes, b: byte)
    requires Overprinted(cells, cells', row, text)
    ensures Overprinted(cells, cells'[(row, |text|) := b], row, text + [b])
  {
  }

  lemma {:induction false} PrintInRow(cols: nat, s: Screen, text: Bytes)
    requires 0 < cols && |text| <= cols && s.col == 0 && !s.wrap
    ensures var t := Play(cols, s, Puts(text));
            && t.row == s.row && t.home == s.home && Overprinted(s.cells, t.cells, s.row, text)
            && t.wrap == (|text| == cols) && t.col == if |text| == cols then cols - 1 else |text|
  {
    hide Overprinted;
    if text == [] {
      NothingPrinted(s.cells, s.row);
    } else {
      var n := |text| - 1;
      var front := text[..n];
      PrintInRow(cols, s, front);
      assert Puts(text)[..n] == Puts(front) && Puts(text)[n] == Put(text[n]);
      OnePrinted(s.cells, Play(cols, s, Puts(front)).cells, s.row, front, text[n]);
      assert front + [text[n]] == text;
    }
  }

  // The row after a single-line redraw, for every text, cursor and terminal width.
  lemma SingleRefresh(cols: nat, s: Screen, prompt: Bytes, text: Bytes, pos: nat)
    requires |prompt| < cols && pos <= |text| && InColumns(cols, s)
    ensures var t := Play(cols, s, SingleOps(prompt, text, pos, cols));
            var column := CursorColumn(|prompt|, pos, cols);
            && t.row == s.row && t.home == s.home && !t.wrap && SameElsewhere(s.cells, t.cells, s.row)
            && RowShows(t.cells, t.row, Remaining(Printed(prompt, text, pos, cols), cols))
            && t.col == (if column == 0 then Min(1, cols - 1) else column)
            && InColumns(cols, t)
  {
    hide Play, Printed, Puts, Overprinted, SameElsewhere, RowShows, Remaining;
    var printed := Printed(prompt, text, pos, cols);
    var column := CursorColumn(|prompt|, pos, cols);
    var head, tail := [CHA(0)], [EL, CHA(0), CUF(column)];
    var s1 := Act(cols, s, CHA(0));
    var s2 := Play(cols, s1, Puts(printed));
    PlayOne(cols, s, CHA(0));
    PlayConcat(cols, s, head, Puts(printed));
    PlayConcat(cols, s, head + Puts(printed), tail);
    PrintInRow(cols, s1, printed);
    PlayTriple(cols, s2, EL, CHA(0), CUF(column));
    var t := Play(cols, s, SingleOps(prompt, text, pos, cols));
    assert t.cells == EraseRight(s2.cells, s2.row, s2.col);
    RowErased(cols, s.cells, s2.cells, s2.row, printed);
  }

  // Erasing from where printing a row's text left the cursor.
  lemma RowErased(cols: nat, cells: map<Place, byte>, cells': map<Place, byte>, row: int, text: Bytes)
    requires 0 < cols && |text| <= cols && Overprinted(cells, cells', row, text)
    requires forall p <- cells :: 0 <= p.1 < cols
    ensures var erased := EraseRight(cells', row, if |text| == cols then cols - 1 else |text|);
            && SameElsewhere(cells, erased, row) && RowShows(erased, row, Remaining(text, cols))
            && (forall p <- erased :: 0 <= p.1 < cols)
  {
    var erased := EraseRight(cells', row, if |text| == cols then cols - 1 else |text|);
    assert forall p: Place :: p.0 == row ==> p == (row, p.1);
  }

  // The redraw keeps the whole window visible exactly when it does not fill the row,
  // and puts the cursor on its column exactly when that column is not the first, unless
  // the terminal has only one.
  lemma SingleRefreshFaithful(cols: nat, s: Screen, prompt: Bytes, text: Bytes, pos: nat)
    requires |prompt| < cols && pos <= |text| && InColumns(cols, s)
    ensures var t := Play(cols, s, SingleOps(prompt, text, pos, cols));
            var printed := Printed(prompt, text, pos, cols);
            && (RowShows(t.cells, t.row, printed)
                <==> |prompt| + |text| - Offset(|prompt|, pos, cols) < cols)
            && (t.col == CursorColumn(|prompt|, pos, cols)
                <==> prompt != [] || pos > 0 || cols == 1)
  {
    hide Play, SingleOps;
    SingleRefresh(cols, s, prompt, text, pos);
    var t := Play(cols, s, SingleOps(prompt, text, pos, cols));
    var printed := Printed(prompt, text, pos, cols);
    if |printed| == cols {
      assert (t.row, cols - 1) !in t.cells;
    }
  }

  // Appending at the end of a line that does not fill the row: printing just the new
  // byte leaves the screen a full redraw would, exactly when the cursor stood at the end.
  lemma FastAppend(cols: nat, s: Screen, prompt: Bytes, text: Bytes, b: byte)
    requires |prompt| + |text| + 1 < cols && InColumns(cols, s)
    requires RowShows(s.cells, s.row, prompt + text) && !s.wrap
    ensures var t := Act(cols, s, Put(b));
            var u := Play(cols, s, SingleOps(prompt, text + [b], |text| + 1, cols));
            && (t == u <==> s.col == |prompt| + |text|)
            && (RowShows(t.cells, t.row, prompt + text + [b]) <==> s.col == |prompt| + |text|)
  {
    hide Play, SingleOps, SameElsewhere, RowShows, InColumns, Printed;
    SingleRefresh(cols, s, prompt, text + [b], |text| + 1);
    var t := Act(cols, s, Put(b));
    var u := Play(cols, s, SingleOps(prompt, text + [b], |text| + 1, cols));
    WholePrinted(prompt, text + [b], cols);
    ColumnWithin(cols, s);
    RowExtended(s.cells, s.row, s.col, prompt + text, b);
    assert prompt + (text + [b]) == prompt + text + [b];
    if s.col == |prompt| + |text| {
      SameCells(s.cells, t.cells, u.cells, s.row, prompt + text + [b]);
    }
  }

  // A short line is shown whole.
  lemma WholePrinted(prompt: Bytes, text: Bytes, cols: nat)
    requires |prompt| + |text| < cols
    ensures Printed(prompt, text, |text|, cols) == prompt + text
    ensures Remaining(prompt + text, cols) == prompt + text
    ensures CursorColumn(|prompt|, |text|, cols) == |prompt| + |text|
  {
  }

  lemma ColumnWithin(cols: nat, s: Screen)
    requires InColumns(cols, s)
    ensures 0 <= s.col < cols
  {
  }

  // After a full redraw the cursor is at the end except on an empty row: there, and only
  // there, the new byte goes to the wrong place.
  lemma FastAppendAfterRedraw(cols: nat, s: Screen, prompt: Bytes, text: Bytes, b: byte)
    requires |prompt| + |text| + 1 < cols && InColumns(cols, s)
    ensures var drawn := Play(cols, s, SingleOps(prompt, text, |text|, cols));
            Act(cols, drawn, Put(b)) == Play(cols, drawn, SingleOps(prompt, text + [b], |text| + 1, cols))
            <==> prompt + text != []
  {
    hide Play, SingleOps, RowShows, Printed, Remaining;
    SingleRefresh(cols, s, prompt, text, |text|);
    WholePrinted(prompt, text, cols);
    FastAppend(cols, Play(cols, s, SingleOps(prompt, text, |text|, cols)), prompt, text, b);
  }

  // With an empty prompt: a byte typed, deleted, and another typed in its place.
  lemma EmptyPromptDrifts(cols: nat, s: Screen, a: byte, b: byte)
    requires 1 < cols && InColumns(cols, s)
    requires RowShows(s.cells, s.row, []) && s.col == 0 && !s.wrap
    ensures var typed := Act(cols, s, Put(a));
            var deleted := Play(cols, typed, SingleOps([], [], 0, cols));
            var retyped := Act(cols, deleted, Put(b));
            && RowShows(typed.cells, typed.row, [a]) && RowShows(deleted.cells, deleted.row, [])
            && !RowShows(retyped.cells, retyped.row, [b])
            && (s.row, 0) !in retyped.cells && (s.row, 1) in retyped.cells && retyped.cells[(s.row, 1)] == b
  {
    hide Play, SingleOps;
    var typed := Act(cols, s, Put(a));
    SingleRefresh(cols, typed, [], [], 0);
    assert Printed([], [], 0, cols) == [];
    var deleted := Play(cols, typed, SingleOps([], [], 0, cols));
    var retyped := Act(cols, deleted, Put(b));
    assert deleted.col == 1 && retyped.cells == deleted.cells[(s.row, 1) := b];
  }

  // A prompt and text that fill the row, cursor not at the end: the last byte is erased.
  lemma FullRowLosesItsLastByte(cols: nat, s: Screen, prompt: Bytes, text: Bytes, pos: nat)
    requires |prompt| < cols == |prompt| + |text| && pos < |text| && InColumns(cols, s)
    ensures var t := Play(cols, s, SingleOps(prompt, text, pos, cols));
            RowShows(t.cells, t.row, (prompt + text)[..cols - 1]) && !RowShows(t.cells, t.row, prompt + text)
  {
    hide Play, SingleOps;
    SingleRefresh(cols, s, prompt, text, pos);
    assert Printed(prompt, text, pos, cols) == prompt + text;
    var t := Play(cols, s, SingleOps(prompt, text, pos, cols));
    assert (t.row, cols - 1) !in t.cells;
  }

  lemma RowExtended(cells: map<Place, byte>, row: int, col: nat, text: Bytes, b: byte)
    requires RowShows(cells, row, text)
    ensures var longer := cells[(row, col) := b];
            (RowShows(longer, row, text + [b]) <==> col == |text|) && SameElsewhere(cells, longer, row)
  {
    if col != |text| {
      assert (row, |text|) !in cells[(row, col) := b];
    }
  }

  lemma SameCells(base: map<Place, byte>, a: map<Place, byte>, b: map<Place, byte>, row: int, text: Bytes)
    requires RowShows(a, row, text) && RowShows(b, row, text)
    requires SameElsewhere(base, a, row) && SameElsewhere(base, b, row)
    ensures a == b
  {
    forall p: Place
      ensures p in a <==> p in b
      ensures p in a && p in b ==> a[p] == b[p]
    {
      var q := (row, p.1);
      assert q in a <==> 0 <= p.1 < |text|;
      assert q in b <==> 0 <= p.1 < |text|;
      assert p.0 == row ==> p == q;
    }
  }
}
