// The multi-line redraw: over any run of refreshes the terminal shows exactly the
// prompt and the buffer wrapped at the right edge.

module MultiRedraw {
  import opened ByteStrings
  import opened Terminals

  function Max(a: int, b: int): int {
    if a > b then a else b
  }

  // The escape sequences that clear the region from its last row up to its first.
  function ClearUp(n: nat): seq<Op> {
    if n == 0 then [] else ClearUp(n - 1) + [CHA(0), EL, CUU(1)]
  }

  // The numbers the editor computes.
  function Rows(cols: nat, n: nat): nat
    requires cols > 0
  {
    (n + cols - 1) / cols
  }

  function CursorRow(cols: nat, n: nat): nat
    requires cols > 0
  {
    (n + cols) / cols
  }

  // The cursor is past the last byte and that byte ends a row.
  predicate NeedsNewline(cols: nat, plen: nat, len: nat, pos: nat)
    requires cols > 0
  {
    pos != 0 && pos == len && (pos + plen) % cols == 0
  }

  function UsedRows(cols: nat, plen: nat, len: nat, pos: nat): nat
    requires cols > 0
  {
    Rows(cols, plen + len) + if NeedsNewline(cols, plen, len, pos) then 1 else 0
  }

  function Down(oldRows: nat, rpos: nat): seq<Op> {
    if oldRows > rpos then [CUD(oldRows - rpos)] else []
  }

  function Up(rows: nat, rpos: nat): seq<Op> {
    if rows > rpos then [CUU(rows - rpos)] else []
  }

  function Newline(needed: bool): seq<Op> {
    if needed then [LineFeed, CHA(0)] else []
  }

  // The first step of refreshMultiLine: down to the last row, then clear upwards.
  function ClearOps(maxrows: nat, rpos: nat): seq<Op> {
    Down(maxrows, rpos) + ClearUp(if maxrows > 0 then maxrows - 1 else 0) + [CHA(0), EL]
  }

  // The last step: from after the last byte printed to the cursor's place.
  function PlaceOps(cols: nat, plen: nat, len: nat, pos: nat): seq<Op>
    requires cols > 0
  {
    Newline(NeedsNewline(cols, plen, len, pos))
    + Up(UsedRows(cols, plen, len, pos), CursorRow(cols, plen + pos))
    + [CHA(1 + (plen + pos) % cols)]
  }

  // Everything refreshMultiLine emits.
  function MultiOps(cols: nat, prompt: Bytes, text: Bytes, pos: nat, oldpos: nat, maxrows: nat): seq<Op>
    requires cols > 0 && pos <= |text|
  {
    ClearOps(maxrows, CursorRow(cols, |prompt| + oldpos))
    + Puts(prompt + text)
    + PlaceOps(cols, |prompt|, |text|, pos)
  }

  // The terminal shows the prompt and a text, wrapped, from row 0 down; nothing else is
  // there; and the cursor is on the byte at pos.
  ghost predicate Shows(cols: nat, s: Screen, prompt: Bytes, text: Bytes, pos: nat)
    requires cols > 0
  {
    && Below(s.cells) == Wrapped(cols, prompt + text)
    && (s.row, s.col) == CellOf(cols, |prompt| + pos) && !s.wrap
  }

  // The rows in use, and the cursor's, are within what the editor remembers as its
  // maximum; before the first refresh only the prompt's own row is in use.
  ghost predicate Bounded(cols: nat, prompt: Bytes, text: Bytes, pos: nat, maxrows: nat)
    requires cols > 0
  {
    && CellOf(cols, |prompt| + pos).0 < Max(maxrows, 1)
    && Rows(cols, |prompt + text|) <= Max(maxrows, 1)
  }

  // Without the rows after the first given, up to the second.
  function EraseRows(cells: map<Place, byte>, above: int, last: int): map<Place, byte> {
    map p | p in cells && !(above < p.0 <= last) :: cells[p]
  }

  lemma OneMoreErased(cells: map<Place, byte>, above: int, last: int)
    requires above <= last && forall p <- cells :: 0 <= p.1
    ensures EraseRight(EraseRows(cells, above, last), above, 0) == EraseRows(cells, above - 1, last)
  {
  }

  lemma NoneErased(cells: map<Place, byte>, row: int)
    ensures EraseRows(cells, row, row) == cells
  {
  }

  // Erasing row after row upwards.
  lemma {:induction false} ClearUpErases(cols: nat, s: Screen, n: nat)
    requires cols > 0 && InColumns(cols, s) && n <= s.row
    ensures var t := Play(cols, s, ClearUp(n));
            && t.row == s.row - n
            && (n > 0 ==> t.col == 0 && !t.wrap) && (n == 0 ==> t == s)
            && t.cells == EraseRows(s.cells, t.row, s.row)
            && InColumns(cols, t)
  {
    hide Play, EraseRows, EraseRight;
    if n == 0 {
      PlayNone(cols, s);
      NoneErased(s.cells, s.row);
    } else {
      ClearUpErases(cols, s, n - 1);
      var u := Play(cols, s, ClearUp(n - 1));
      PlayConcat(cols, s, ClearUp(n - 1), [CHA(0), EL, CUU(1)]);
      PlayTriple(cols, u, CHA(0), EL, CUU(1));
      OneMoreErased(s.cells, u.row, s.row);
      ErasedWithin(u.cells, u.row, 0);
    }
  }

  lemma ErasedWithin(cells: map<Place, byte>, row: int, col: int)
    ensures forall p <- EraseRight(cells, row, col) :: p in cells
  {
  }

  // A blank region with the cursor in its top left corner.
  ghost predicate Blank(s: Screen) {
    Below(s.cells) == map[] && s.row == 0 && s.col == 0 && !s.wrap
  }

  // First phase: the region is cleared and the cursor is in its top left corner.
  lemma ClearPhase(cols: nat, s: Screen, prompt: Bytes, text: Bytes, oldpos: nat, maxrows: nat)
    requires cols > 0 && InColumns(cols, s)
    requires Shows(cols, s, prompt, text, oldpos) && Bounded(cols, prompt, text, oldpos, maxrows)
    ensures var t := Play(cols, s, ClearOps(maxrows, CursorRow(cols, |prompt| + oldpos)));
            Blank(t) && Above(t.cells) == Above(s.cells) && InColumns(cols, t)
  {
    hide Play, CellOf, CursorRow, Rows, Wrapped, ClearUp;
    PlayNone(cols, s);
    var n := if maxrows > 0 then maxrows - 1 else 0;
    var down := Down(maxrows, CursorRow(cols, |prompt| + oldpos));
    CursorRowIs(cols, |prompt| + oldpos);
    var s1 := Play(cols, s, down);
    if down != [] {
      PlayOne(cols, s, down[0]);
    }
    assert s1.row == n && s1.cells == s.cells && InColumns(cols, s1);
    ClearUpErases(cols, s1, n);
    var s2 := Play(cols, s1, ClearUp(n));
    PlayConcat(cols, s, down, ClearUp(n));
    PlayConcat(cols, s, down + ClearUp(n), [CHA(0), EL]);
    PlayPair(cols, s2, CHA(0), EL);
    TextRows(cols, prompt + text);
    var t := Play(cols, s2, [CHA(0), EL]);
    assert forall p <- Below(s.cells) :: p.0 <= n;
    Erased(s.cells, s2.cells, t.cells, n);
  }

  lemma CursorRowIs(cols: nat, n: nat)
    requires cols > 0
    ensures CursorRow(cols, n) == CellOf(cols, n).0 + 1
  {
    CellDivMod(cols, n);
  }

  // A wrapped text stays within the rows the editor computes for it.
  lemma TextRows(cols: nat, text: Bytes)
    requires cols > 0
    ensures forall p <- Wrapped(cols, text) :: p.0 < Rows(cols, |text|)
  {
    CellDivMod(cols, |text|);
    WrappedRows(cols, text);
  }

  lemma Erased(before: map<Place, byte>, middle: map<Place, byte>, after: map<Place, byte>, n: nat)
    requires middle == EraseRows(before, 0, n)
    requires after == EraseRight(middle, 0, 0)
    requires forall p <- Below(before) :: p.0 <= n && p.1 >= 0
    ensures Below(after) == map[] && Above(after) == Above(before)
  {
  }

  // Last phase: from just after the last byte printed to the cursor's place.
  lemma PlacePhase(cols: nat, s: Screen, plen: nat, len: nat, pos: nat)
    requires plen < cols && pos <= len && AfterPrinting(cols, s, plen + len) && InColumns(cols, s)
    ensures var t := Play(cols, s, PlaceOps(cols, plen, len, pos));
            && t.cells == s.cells && (t.row, t.col) == CellOf(cols, plen + pos) && !t.wrap
    ensures CellOf(cols, plen + pos).0 < Max(UsedRows(cols, plen, len, pos), 1)
  {
    hide Play, CellOf, UsedRows, CursorRow, NeedsNewline;
    var newline := Newline(NeedsNewline(cols, plen, len, pos));
    var up := Up(UsedRows(cols, plen, len, pos), CursorRow(cols, plen + pos));
    var column := CHA(1 + (plen + pos) % cols);
    CursorFacts(cols, plen, len, pos);
    var s1 := Play(cols, s, newline);
    PlayNone(cols, s);
    if newline != [] {
      PlayPair(cols, s, LineFeed, CHA(0));
    }
    var s2 := Play(cols, s1, up);
    PlayNone(cols, s1);
    if up != [] {
      PlayOne(cols, s1, up[0]);
    }
    PlayConcat(cols, s, newline, up);
    PlayConcat(cols, s, newline + up, [column]);
    PlayOne(cols, s2, column);
  }

  // How the editor's row arithmetic relates to the cells of the last byte and the cursor.
  lemma CursorFacts(cols: nat, plen: nat, len: nat, pos: nat)
    requires plen < cols && pos <= len
    ensures CursorRow(cols, plen + pos) == CellOf(cols, plen + pos).0 + 1
    ensures CellOf(cols, plen + pos).1 == (plen + pos) % cols
    ensures UsedRows(cols, plen, len, pos)
            == CellOf(cols, plen + len).0
               + if CellOf(cols, plen + len).1 == 0 && !NeedsNewline(cols, plen, len, pos) then 0 else 1
    ensures NeedsNewline(cols, plen, len, pos) ==>
              pos == len && plen + len > 0 && CellOf(cols, plen + len).1 == 0
    ensures CellOf(cols, plen + pos).0 <= CellOf(cols, plen + len).0
    ensures CellOf(cols, plen + len).1 == 0 && plen + len > 0 && !NeedsNewline(cols, plen, len, pos) ==>
              CellOf(cols, plen + pos).0 < CellOf(cols, plen + len).0
    ensures plen + len == 0 ==> CellOf(cols, plen + pos) == (0, 0)
  {
    hide CellOf;
    CellDivMod(cols, plen + len);
    CellDivMod(cols, plen + pos);
    FirstCells(cols, plen);
    FirstCells(cols, 0);
    CellOrder(cols, plen + pos, plen + len);
  }

  lemma {:induction false} FirstCells(cols: nat, i: nat)
    requires i < cols
    ensures CellOf(cols, i) == (0, i)
  {
    if i > 0 {
      FirstCells(cols, i - 1);
    }
  }

  // An earlier byte is on an earlier row, or on the same row further left.
  lemma {:induction false} CellOrder(cols: nat, i: nat, j: nat)
    requires cols > 0 && i <= j
    ensures i < j ==> CellOf(cols, i).0 < CellOf(cols, j).0
                      || (CellOf(cols, i).0 == CellOf(cols, j).0 && CellOf(cols, i).1 < CellOf(cols, j).1)
    decreases j - i
  {
    if i < j {
      CellOrder(cols, i, j - 1);
    }
  }

  // The rest of a redraw, once the region is clear.
  lemma DrawPhase(cols: nat, s: Screen, prompt: Bytes, text: Bytes, pos: nat)
    requires |prompt| < cols && pos <= |text| && InColumns(cols, s) && Blank(s)
    ensures var t := Play(cols, s, Puts(prompt + text) + PlaceOps(cols, |prompt|, |text|, pos));
            && Shows(cols, t, prompt, text, pos) && InColumns(cols, t)
            && Above(t.cells) == Above(s.cells)
    ensures CellOf(cols, |prompt| + pos).0 < Max(UsedRows(cols, |prompt|, |text|, pos), 1)
  {
    hide Play, CellOf, Wrapped, Puts, PlaceOps;
    PrintWrapped(cols, s, prompt + text);
    PrintStaysInColumns(cols, s, prompt + text);
    PlacePhase(cols, Play(cols, s, Puts(prompt + text)), |prompt|, |text|, pos);
    PlayConcat(cols, s, Puts(prompt + text), PlaceOps(cols, |prompt|, |text|, pos));
  }

  // One refresh: whatever text and cursor it starts from, the terminal shows the new
  // ones, everything above the prompt is untouched, and the remembered maximum again
  // bounds the rows in use.
  lemma MultiRefresh(
    cols: nat, s: Screen, prompt: Bytes, shown: Bytes, oldpos: nat, maxrows: nat, text: Bytes, pos: nat)
    requires |prompt| < cols && pos <= |text| && InColumns(cols, s)
    requires Shows(cols, s, prompt, shown, oldpos) && Bounded(cols, prompt, shown, oldpos, maxrows)
    ensures var t := Play(cols, s, MultiOps(cols, prompt, text, pos, oldpos, maxrows));
            && Shows(cols, t, prompt, text, pos) && InColumns(cols, t)
            && Above(t.cells) == Above(s.cells)
    ensures Bounded(cols, prompt, text, pos, Max(maxrows, UsedRows(cols, |prompt|, |text|, pos)))
  {
    hide Play, ClearOps, PlaceOps, CellOf, Shows, Puts;
    ClearPhase(cols, s, prompt, shown, oldpos, maxrows);
    AfterClearing(cols, s, prompt, oldpos, maxrows, text, pos);
  }

  // The same once the screen has been cleared, whatever rows the editor still has in mind.
  lemma MultiRefreshCleared(
    cols: nat, s: Screen, prompt: Bytes, oldpos: nat, maxrows: nat, text: Bytes, pos: nat)
    requires |prompt| < cols && pos <= |text| && Cleared(s)
    ensures var t := Play(cols, s, MultiOps(cols, prompt, text, pos, oldpos, maxrows));
            && Shows(cols, t, prompt, text, pos) && InColumns(cols, t)
            && Above(t.cells) == map[]
    ensures Bounded(cols, prompt, text, pos, Max(maxrows, UsedRows(cols, |prompt|, |text|, pos)))
  {
    hide Play, ClearOps, PlaceOps, CellOf, Shows, Puts;
    StaysCleared(cols, s, |prompt| + oldpos, maxrows);
    AfterClearing(cols, s, prompt, oldpos, maxrows, text, pos);
  }

  lemma AfterClearing(cols: nat, s: Screen, prompt: Bytes, oldpos: nat, maxrows: nat, text: Bytes, pos: nat)
    requires |prompt| < cols && pos <= |text|
    requires var s1 := Play(cols, s, ClearOps(maxrows, CursorRow(cols, |prompt| + oldpos)));
             Blank(s1) && InColumns(cols, s1) && Above(s1.cells) == Above(s.cells)
    ensures var t := Play(cols, s, MultiOps(cols, prompt, text, pos, oldpos, maxrows));
            && Shows(cols, t, prompt, text, pos) && InColumns(cols, t)
            && Above(t.cells) == Above(s.cells)
    ensures Bounded(cols, prompt, text, pos, Max(maxrows, UsedRows(cols, |prompt|, |text|, pos)))
  {
    hide Play, ClearOps, PlaceOps, CellOf, Shows, Puts, CursorRow, Blank, InColumns;
    var clear := ClearOps(maxrows, CursorRow(cols, |prompt| + oldpos));
    var draw := Puts(prompt + text) + PlaceOps(cols, |prompt|, |text|, pos);
    DrawPhase(cols, Play(cols, s, clear), prompt, text, pos);
    PlayConcat(cols, s, clear, draw);
    assert MultiOps(cols, prompt, text, pos, oldpos, maxrows) == clear + draw;
    WithinRows(cols, prompt, text, pos, maxrows);
  }

  lemma WithinRows(cols: nat, prompt: Bytes, text: Bytes, pos: nat, maxrows: nat)
    requires cols > 0 && CellOf(cols, |prompt| + pos).0 < Max(UsedRows(cols, |prompt|, |text|, pos), 1)
    ensures Bounded(cols, prompt, text, pos, Max(maxrows, UsedRows(cols, |prompt|, |text|, pos)))
  {
    hide CellOf, Rows;
  }

  // The screen after it was cleared.
  ghost predicate Cleared(s: Screen) {
    s.cells == map[] && s.row == 0 && s.col == 0 && !s.wrap && s.home
  }

  lemma {:induction false} ClearUpFrom(cols: nat, s: Screen, n: nat)
    requires cols > 0 && Cleared(s.(row := 0)) && 0 <= s.row
    ensures Play(cols, s, ClearUp(n)) == s.(row := Max(s.row - n, 0))
  {
    hide Play;
    if n == 0 {
      PlayNone(cols, s);
    } else {
      ClearUpFrom(cols, s, n - 1);
      PlayConcat(cols, s, ClearUp(n - 1), [CHA(0), EL, CUU(1)]);
      PlayTriple(cols, Play(cols, s, ClearUp(n - 1)), CHA(0), EL, CUU(1));
    }
  }

  lemma StaysCleared(cols: nat, s: Screen, n: nat, maxrows: nat)
    requires cols > 0 && Cleared(s)
    ensures Cleared(Play(cols, s, ClearOps(maxrows, CursorRow(cols, n))))
  {
    hide Play, ClearUp, CursorRow;
    CursorRowIs(cols, n);
    var up, down := if maxrows > 0 then maxrows - 1 else 0, Down(maxrows, CursorRow(cols, n));
    var s1 := Play(cols, s, down);
    PlayNone(cols, s);
    if down != [] {
      PlayOne(cols, s, down[0]);
    }
    ClearUpFrom(cols, s1, up);
    var s2 := Play(cols, s1, ClearUp(up));
    PlayConcat(cols, s, down, ClearUp(up));
    PlayConcat(cols, s, down + ClearUp(up), [CHA(0), EL]);
    PlayPair(cols, s2, CHA(0), EL);
  }

  lemma {:induction false} PrintStaysInColumns(cols: nat, s: Screen, text: Bytes)
    requires cols > 0 && InColumns(cols, s)
    ensures InColumns(cols, Play(cols, s, Puts(text)))
  {
    if text != [] {
      PrintStaysInColumns(cols, s, text[..|text| - 1]);
      assert Puts(text)[..|text| - 1] == Puts(text[..|text| - 1]);
    }
  }

  // ---------- whole runs ----------

  // What a redraw shows, and whether the screen was cleared just before.
  datatype Frame = Frame(text: Bytes, pos: nat, clear: bool)

  // One redraw, from the cursor and maximum the one before left.
  function Redrawn(cols: nat, s: Screen, prompt: Bytes, oldpos: nat, maxrows: nat, f: Frame): Screen
    requires |prompt| < cols && f.pos <= |f.text|
  {
    Play(cols, if f.clear then Act(cols, s, Clear) else s, MultiOps(cols, prompt, f.text, f.pos, oldpos, maxrows))
  }

  function Refreshes(cols: nat, s: Screen, prompt: Bytes, oldpos: nat, maxrows: nat, frames: seq<Frame>): Screen
    requires |prompt| < cols && forall i :: 0 <= i < |frames| ==> frames[i].pos <= |frames[i].text|
    decreases |frames|
  {
    if frames == [] then s
    else
      var f := frames[0];
      Refreshes(cols, Redrawn(cols, s, prompt, oldpos, maxrows, f), prompt, f.pos,
                Max(maxrows, UsedRows(cols, |prompt|, |f.text|, f.pos)), frames[1..])
  }

  lemma RedrawnShows(
    cols: nat, s: Screen, prompt: Bytes, shown: Bytes, oldpos: nat, maxrows: nat, f: Frame)
    requires |prompt| < cols && f.pos <= |f.text| && InColumns(cols, s)
    requires Shows(cols, s, prompt, shown, oldpos) && Bounded(cols, prompt, shown, oldpos, maxrows)
    ensures var t := Redrawn(cols, s, prompt, oldpos, maxrows, f);
            && Shows(cols, t, prompt, f.text, f.pos) && InColumns(cols, t)
            && Above(t.cells) == if f.clear then map[] else Above(s.cells)
    ensures Bounded(cols, prompt, f.text, f.pos, Max(maxrows, UsedRows(cols, |prompt|, |f.text|, f.pos)))
  {
    hide Play, MultiOps, UsedRows;
    if f.clear {
      MultiRefreshCleared(cols, Act(cols, s, Clear), prompt, oldpos, maxrows, f.text, f.pos);
    } else {
      MultiRefresh(cols, s, prompt, shown, oldpos, maxrows, f.text, f.pos);
    }
  }

  lemma {:induction false} RefreshesShow(
    cols: nat, s: Screen, prompt: Bytes, shown: Bytes, oldpos: nat, maxrows: nat, frames: seq<Frame>)
    requires |prompt| < cols && InColumns(cols, s)
    requires forall i :: 0 <= i < |frames| ==> frames[i].pos <= |frames[i].text|
    requires Shows(cols, s, prompt, shown, oldpos) && Bounded(cols, prompt, shown, oldpos, maxrows)
    ensures var t := Refreshes(cols, s, prompt, oldpos, maxrows, frames);
            && ((forall i :: 0 <= i < |frames| ==> !frames[i].clear) ==> Above(t.cells) == Above(s.cells))
            && (frames != [] ==> Shows(cols, t, prompt, frames[|frames| - 1].text, frames[|frames| - 1].pos))
    decreases |frames|
  {
    hide Redrawn, Shows, Bounded, UsedRows, Above, InColumns;
    if frames != [] {
      var f := frames[0];
      RedrawnShows(cols, s, prompt, shown, oldpos, maxrows, f);
      RefreshesShow(cols, Redrawn(cols, s, prompt, oldpos, maxrows, f), prompt, f.text,
                    f.pos, Max(maxrows, UsedRows(cols, |prompt|, |f.text|, f.pos)), frames[1..]);
    }
  }

  // From a freshly written prompt, whatever is edited and however often the screen is
  // cleared, the terminal shows the last text, wrapped, with the cursor in place and
  // nothing else; and what was above the prompt stays there until a clearing.
  lemma EditingShows(cols: nat, s: Screen, prompt: Bytes, frames: seq<Frame>)
    requires |prompt| < cols && InColumns(cols, s)
    requires Below(s.cells) == Wrapped(cols, prompt) && s.row == 0 && s.col == |prompt| && !s.wrap
    requires frames != [] && forall i :: 0 <= i < |frames| ==> frames[i].pos <= |frames[i].text|
    ensures var t := Refreshes(cols, s, prompt, 0, 0, frames);
            var last := frames[|frames| - 1];
            && Shows(cols, t, prompt, last.text, last.pos)
            && ((forall i :: 0 <= i < |frames| ==> !frames[i].clear) ==> Above(t.cells) == Above(s.cells))
  {
    hide Refreshes, Shows, Bounded, Wrapped;
    StartShows(cols, s, prompt);
    RefreshesShow(cols, s, prompt, [], 0, 0, frames);
  }

  lemma StartShows(cols: nat, s: Screen, prompt: Bytes)
    requires |prompt| < cols
    requires Below(s.cells) == Wrapped(cols, prompt) && s.row == 0 && s.col == |prompt| && !s.wrap
    ensures Shows(cols, s, prompt, [], 0) && Bounded(cols, prompt, [], 0, 0)
  {
    assert prompt + [] == prompt;
    FirstCells(cols, |prompt|);
    CellDivMod(cols, |prompt|);
  }
}
