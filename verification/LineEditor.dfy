// The line editor over its byte buffer: every operation in place is the zipper
// operation, and the terminal keeps showing the line.

module LineEditors {
  import opened ByteStrings
  import opened Terminals
  import opened Redraw
  import opened MultiRedraw
  import opened Histories
  import opened EditorModel

  // memmove(a + dst, a + src, n)
  method MemMove(a: array<byte>, dst: nat, src: nat, n: nat)
    requires src + n <= a.Length && dst + n <= a.Length
    modifies a
    ensures a[dst..dst + n] == old(a[src..src + n])
    ensures forall i :: 0 <= i < a.Length && !(dst <= i < dst + n) ==> a[i] == old(a[i])
  {
    var moved := a[src..src + n];
    for i := 0 to n
      invariant forall j :: 0 <= j < i ==> a[dst + j] == moved[j]
      invariant forall j :: 0 <= j < a.Length && !(dst <= j < dst + i) ==> a[j] == old(a[j])
    {
      a[dst + i] := moved[i];
    }
  }

  // A freshly written prompt is what both redraws show for an empty line.
  lemma FirstDisplay(cols: nat, before: Screen, prompt: Bytes)
    requires |prompt| < cols && InColumns(cols, before)
    requires Below(before.cells) == map[] && before.row == before.col == 0 && !before.wrap
    ensures var s := Play(cols, before, Puts(prompt));
            && Shows(cols, s, prompt, [], 0) && Bounded(cols, prompt, [], 0, 0)
            && RowShows(s.cells, s.row, Remaining(Printed(prompt, [], 0, cols), cols))
            && s.col == CursorColumn(|prompt|, 0, cols) && !s.wrap
  {
    PrintInRow(cols, before, prompt);
    PrintWrapped(cols, before, prompt);
    StartShows(cols, Play(cols, before, Puts(prompt)), prompt);
    assert Printed(prompt, [], 0, cols) == prompt;
    assert forall c: int :: (0, c) in before.cells ==> (0, c) in Below(before.cells);
  }

  // The cursor is on its column, except that the first one may be missed by one.
  predicate InPlace(col: int, column: nat, cols: nat) {
    col == column || (column == 0 && col == Min(1, cols - 1))
  }

  class LineEditor {
    const buf: array<byte>     // one cell more than the text may take
    const buflen: nat
    const prompt: Bytes
    const cols: nat
    const multi: bool          // multi-line mode
    const history: History
    var pos: nat
    var oldpos: nat
    var len: nat
    var maxrows: nat
    var historyIndex: int
    var screen: Screen         // the terminal, as all output so far has left it
    ghost var drifted: bool    // bytes were appended one column off, on an empty row

    ghost predicate Valid()
      reads this, buf
    {
      && buf.Length == buflen + 1 && 0 < buflen
      && |prompt| < cols
      && pos <= len <= buflen && buf[len] == 0
      && (forall i :: 0 <= i < len ==> buf[i] != 0)
      && InColumns(cols, screen)
      && (drifted ==> prompt == [] && !multi)
    }

    ghost function Current(): Line
      requires pos <= len < buf.Length
      reads this, buf
    {
      Line(buf[..pos], buf[pos..len])
    }

    // The terminal shows the line with the cursor in place. In single-line mode a redraw
    // of an empty row leaves the cursor one column off, and appending there drifts until
    // the next redraw.
    ghost predicate Displayed()
      requires Valid()
      reads this, buf
    {
      ShowsText(Text(Current()), pos)
    }

    ghost predicate ShowsText(text: Bytes, at: nat)
      requires |prompt| < cols && at <= |text|
      reads this
    {
      if multi then
        Shows(cols, screen, prompt, text, oldpos) && Bounded(cols, prompt, text, oldpos, maxrows) && at == oldpos
      else
        !drifted ==>
          && RowShows(screen.cells, screen.row, Remaining(Printed(prompt, text, at, cols), cols))
          && !screen.wrap && InPlace(screen.col, CursorColumn(|prompt|, at, cols), cols)
    }

    // The set-up of linenoiseEdit: an empty buffer of the given size, and the prompt
    // written where the cursor is, which becomes row 0.
    constructor (size: nat, prompt: Bytes, cols: nat, multi: bool, history: History, before: Screen)
      requires 1 < size && |prompt| < cols && InColumns(cols, before)
      ensures Valid() && fresh(buf) && buflen == size - 1 && Current() == Line([], []) && historyIndex == 0
      ensures this.prompt == prompt && this.cols == cols && this.multi == multi && this.history == history
      ensures !drifted && oldpos == 0 && maxrows == 0
      ensures Below(before.cells) == map[] && before.row == before.col == 0 && !before.wrap ==> Displayed()
    {
      hide Play;
      var a := new byte[size];
      a[0] := 0;
      buf, buflen := a, size - 1;
      this.prompt, this.cols, this.multi, this.history := prompt, cols, multi, history;
      pos, oldpos, len, maxrows, historyIndex := 0, 0, 0, 0, 0;
      drifted := false;
      PrintStaysInColumns(cols, before, prompt);
      screen := Play(cols, before, Puts(prompt));
      new;
      if Below(before.cells) == map[] && before.row == before.col == 0 && !before.wrap {
        FirstDisplay(cols, before, prompt);
      }
    }

    // ---------- output ----------

    method Write(ops: seq<Op>)
      requires cols > 0
      modifies this`screen
      ensures screen == Play(cols, old(screen), ops)
    {
      screen := Play(cols, screen, ops);
    }

    method RefreshSingleLine()
      requires Valid()
      modifies this`screen
      ensures screen == Play(cols, old(screen), SingleOps(prompt, Text(Current()), pos, cols))
    {
      hide Play, SingleOps;
      var ab := ComposeRow(prompt, buf[..len], cols, pos);
      assert Text(Current()) == buf[..len];
      Write(ab);
    }

    // The output refreshSingleLine collects.
    static method ComposeRow(prompt: Bytes, text: Bytes, cols: nat, pos: nat) returns (ab: seq<Op>)
      requires |prompt| < cols && pos <= |text|
      ensures ab == SingleOps(prompt, text, pos, cols)
    {
      hide Puts;
      var plen := |prompt|;
      var start, shown, at := TrimWindow(plen, |text|, pos, cols);
      var window := text[start..start + shown];
      ab := [CHA(0)];
      ab := ab + Puts(prompt);
      ab := ab + Puts(window);
      PutsConcat([CHA(0)], prompt, window);
      ghost var printed := ab;
      ab := ab + [EL];
      ab := ab + [CHA(0), CUF(at + plen)];
      assert ab == printed + [EL, CHA(0), CUF(at + plen)];
    }

    method RefreshMultiLine()
      requires Valid()
      modifies this`screen, this`oldpos, this`maxrows
      ensures screen == Play(cols, old(screen),
                             MultiOps(cols, prompt, Text(Current()), pos, old(oldpos), old(maxrows)))
      ensures oldpos == pos && maxrows == Max(old(maxrows), UsedRows(cols, |prompt|, len, pos))
    {
      hide Play, MultiOps, UsedRows, InColumns;
      var ab, rows := Compose(prompt, buf[..len], cols, pos, oldpos, maxrows);
      assert Text(Current()) == buf[..len];
      maxrows := rows;
      oldpos := pos;
      Write(ab);
    }

    // The output refreshMultiLine collects, and the maximum it remembers.
    static method Compose(prompt: Bytes, text: Bytes, cols: nat, pos: nat, oldpos: nat, maxrows: nat)
      returns (ab: seq<Op>, maxrows': nat)
      requires cols > 0 && pos <= |text|
      ensures ab == MultiOps(cols, prompt, text, pos, oldpos, maxrows)
      ensures maxrows' == Max(maxrows, UsedRows(cols, |prompt|, |text|, pos))
    {
      hide Play, Puts, UsedRows, NeedsNewline, CursorRow, Down, ClearUp;
      var plen, len := |prompt|, |text|;
      RowsAre(cols, plen, len, pos, oldpos);
      var rows := (plen + len + cols - 1) / cols;
      var rpos := (plen + oldpos + cols) / cols;
      maxrows' := if rows > maxrows then rows else maxrows;
      ab := ClearRegion(maxrows, rpos);
      PutsConcat(ab, prompt, text);
      ab := ab + Puts(prompt);
      ab := ab + Puts(text);
      var newline := pos != 0 && pos == len && (pos + plen) % cols == 0;
      ghost var printed := ab;
      if newline {
        ab := ab + [LineFeed];
        ab := ab + [CHA(0)];
        rows := rows + 1;
        maxrows' := if rows > maxrows' then rows else maxrows';
      }
      assert ab == printed + Newline(newline);
      var rpos2 := (plen + pos + cols) / cols;
      ghost var fed := ab;
      if rows > rpos2 {
        ab := ab + [CUU(rows - rpos2)];
      }
      assert ab == fed + Up(rows, rpos2);
      ab := ab + [CHA(1 + (plen + pos) % cols)];
    }

    // The first step of refreshMultiLine: down to the last row, then clear upwards.
    static method ClearRegion(oldRows: nat, rpos: nat) returns (ab: seq<Op>)
      ensures ab == Down(oldRows, rpos) + ClearUp(if oldRows > 0 then oldRows - 1 else 0) + [CHA(0), EL]
    {
      ab := [];
      if oldRows > rpos {
        ab := ab + [CUD(oldRows - rpos)];
      }
      assert ab == Down(oldRows, rpos) + ClearUp(0);
      var j := 0;
      while j + 1 < oldRows
        invariant 0 <= j <= if oldRows > 0 then oldRows - 1 else 0
        invariant ab == Down(oldRows, rpos) + ClearUp(j)
      {
        ab := ab + [CHA(0), EL, CUU(1)];
        j := j + 1;
      }
      ab := ab + [CHA(0), EL];
    }

    // Since a text was shown nothing has been output, or only a clearing of the screen.
    ghost predicate Behind(shown: Bytes)
      requires |prompt| < cols
      reads this
    {
      multi && !Cleared(screen) ==>
        Shows(cols, screen, prompt, shown, oldpos) && Bounded(cols, prompt, shown, oldpos, maxrows)
    }

    method RefreshLine(ghost shown: Bytes)
      requires Valid() && Behind(shown)
      modifies this`screen, this`oldpos, this`maxrows, this`drifted
      ensures Valid() && Displayed() && !drifted
    {
      hide Play, SingleOps, MultiOps, RowShows, Shows, Bounded, Printed, Remaining, UsedRows, Cleared;
      ghost var text := Text(Current());
      drifted := false;
      if multi {
        MultiInColumns(cols, screen, prompt, text, pos, oldpos, maxrows);
        if Cleared(screen) {
          MultiRefreshCleared(cols, screen, prompt, oldpos, maxrows, text, pos);
        } else {
          MultiRefresh(cols, screen, prompt, shown, oldpos, maxrows, text, pos);
        }
        RefreshMultiLine();
      } else {
        SingleRefresh(cols, screen, prompt, text, pos);
        RefreshSingleLine();
      }
    }

    // ---------- editing ----------

    // The text between two known parts holds no terminator.
    lemma NoTerminator(left: Bytes, right: Bytes)
      requires pos <= len < buf.Length && buf[..pos] == left && buf[pos..len] == right
      requires 0 !in left && 0 !in right
      ensures forall i :: 0 <= i < len ==> buf[i] != 0
    {
      assert buf[..len] == left + right;
      assert forall i :: 0 <= i < len ==> buf[i] == (left + right)[i];
    }

    method EditInsert(c: byte)
      requires Valid() && Displayed() && c != 0
      modifies this`pos, this`len, this`screen, this`oldpos, this`maxrows, this`drifted, buf
      ensures Valid() && Displayed() && Current() == Insert(old(Current()), c, buflen)
      ensures drifted && !old(drifted) ==>
                && old(Current()) == Line([], []) && old(screen.col) == 1
                && !RowShows(screen.cells, screen.row, [c])
    {
      hide Shows, Bounded, RowShows, Printed, Remaining, CursorColumn, Play, InColumns;
      ghost var text, left, right := Text(Current()), buf[..pos], buf[pos..len];
      if len < buflen {
        if len == pos {
          PutLast(c);
          NoTerminator(left + [c], []);
          assert text == left;
          if !multi && |prompt| + len < cols {
            WriteLast(text, c);
          } else {
            RefreshLine(text);
          }
        } else {
          OpenGap(c);
          NoTerminator(left + [c], right);
          RefreshLine(text);
        }
      }
    }

    // Appends one byte to the text in the buffer.
    method PutLast(c: byte)
      requires buf.Length == buflen + 1 && pos == len < buflen
      modifies this`pos, this`len, buf
      ensures pos == len == old(len) + 1 && buf[len] == 0
      ensures buf[..pos] == old(buf[..pos]) + [c] && buf[pos..len] == []
    {
      buf[pos] := c;
      pos := pos + 1;
      len := len + 1;
      buf[len] := 0;
    }

    // The trivial case: only the byte just appended is written to the terminal.
    method WriteLast(ghost text: Bytes, c: byte)
      requires Valid() && !multi && ShowsText(text, |text|)
      requires Current() == Line(text + [c], []) && |prompt| + len < cols
      modifies this`screen, this`drifted
      ensures Valid() && Displayed()
      ensures drifted && !old(drifted) ==>
                text == [] && old(screen.col) == 1 && !RowShows(screen.cells, screen.row, [c])
    {
      hide RowShows, Printed, Remaining, CursorColumn, Play, InColumns;
      FastPath(cols, screen, prompt, text, c);
      assert Text(Current()) == text + [c];
      PlayOne(cols, screen, Put(c));
      drifted := drifted || screen.col != |prompt| + |text|;
      Write([Put(c)]);
    }

    // Makes room for one byte at the cursor, in the middle of the line.
    method OpenGap(c: byte)
      requires buf.Length == buflen + 1 && pos <= len < buflen
      modifies this`pos, this`len, buf
      ensures pos == old(pos) + 1 && len == old(len) + 1 && buf[len] == 0
      ensures buf[..pos] == old(buf[..pos]) + [c] && buf[pos..len] == old(buf[pos..len])
    {
      MemMove(buf, pos + 1, pos, len - pos);
      buf[pos] := c;
      len := len + 1;
      pos := pos + 1;
      buf[len] := 0;
      assert buf[..pos] == old(buf[..pos]) + [c] && buf[pos..len] == old(buf[pos..len]);
    }

    method EditMoveLeft()
      requires Valid() && Displayed()
      modifies this`pos, this`screen, this`oldpos, this`maxrows, this`drifted
      ensures Valid() && Displayed() && Current() == MoveLeft(old(Current()))
    {
      hide Shows, Bounded, RowShows, Printed, Remaining, CursorColumn, InColumns;
      ghost var text := Text(Current());
      if pos > 0 {
        pos := pos - 1;
        RefreshLine(text);
        assert buf[..pos] == Front(old(buf[..pos]));
        assert buf[pos..len] == [Last(old(buf[..pos]))] + old(buf[pos..len]);
      }
    }

    method EditMoveRight()
      requires Valid() && Displayed()
      modifies this`pos, this`screen, this`oldpos, this`maxrows, this`drifted
      ensures Valid() && Displayed() && Current() == MoveRight(old(Current()))
    {
      hide Shows, Bounded, RowShows, Printed, Remaining, CursorColumn, InColumns;
      ghost var text := Text(Current());
      if pos != len {
        pos := pos + 1;
        RefreshLine(text);
        assert buf[..pos] == old(buf[..pos]) + [old(buf[pos..len])[0]];
      }
    }

    method EditMoveHome()
      requires Valid() && Displayed()
      modifies this`pos, this`screen, this`oldpos, this`maxrows, this`drifted
      ensures Valid() && Displayed() && Current() == MoveHome(old(Current()))
    {
      hide Shows, Bounded, RowShows, Printed, Remaining, CursorColumn, InColumns;
      ghost var text := Text(Current());
      assert text == buf[..len];
      if pos != 0 {
        pos := 0;
        RefreshLine(text);
      }
    }

    method EditMoveEnd()
      requires Valid() && Displayed()
      modifies this`pos, this`screen, this`oldpos, this`maxrows, this`drifted
      ensures Valid() && Displayed() && Current() == MoveEnd(old(Current()))
    {
      hide Shows, Bounded, RowShows, Printed, Remaining, CursorColumn, InColumns;
      ghost var text := Text(Current());
      assert text == buf[..len];
      if pos != len {
        pos := len;
        RefreshLine(text);
      }
    }

    method EditDelete()
      requires Valid() && Displayed()
      modifies this`len, this`screen, this`oldpos, this`maxrows, this`drifted, buf
      ensures Valid() && Displayed() && Current() == Delete(old(Current()))
    {
      hide Shows, Bounded, RowShows, Printed, Remaining, CursorColumn, InColumns;
      ghost var text, left, right := Text(Current()), buf[..pos], buf[pos..len];
      if len > 0 && pos < len {
        RemoveAt(pos);
        assert buf[pos..len] == right[1..];
        NoTerminator(left, right[1..]);
        RefreshLine(text);
      }
    }

    method EditBackspace()
      requires Valid() && Displayed()
      modifies this`pos, this`len, this`screen, this`oldpos, this`maxrows, this`drifted, buf
      ensures Valid() && Displayed() && Current() == Backspace(old(Current()))
    {
      hide Shows, Bounded, RowShows, Printed, Remaining, CursorColumn, InColumns;
      ghost var text, left, right := Text(Current()), buf[..pos], buf[pos..len];
      if pos > 0 && len > 0 {
        RemoveAt(pos - 1);
        pos := pos - 1;
        assert buf[..pos] == Front(left);
        NoTerminator(Front(left), right);
        RefreshLine(text);
      }
    }

    // Moves the text after one byte over it.
    method RemoveAt(at: nat)
      requires at < len < buf.Length
      modifies this`len, buf
      ensures len == old(len) - 1 && buf[len] == 0
      ensures buf[..at] == old(buf[..at]) && buf[at..len] == old(buf[at + 1..len])
    {
      MemMove(buf, at, at + 1, len - at - 1);
      len := len - 1;
      buf[len] := 0;
      assert buf[at..len] == old(buf[at + 1..len]);
    }

    method EditDeletePrevWord()
      requires Valid() && Displayed()
      modifies this`pos, this`len, this`screen, this`oldpos, this`maxrows, this`drifted, buf
      ensures Valid() && Displayed() && Current() == DeletePrevWord(old(Current()))
    {
      hide Shows, Bounded, RowShows, Printed, Remaining, CursorColumn, InColumns;
      ghost var text, left, right := Text(Current()), buf[..pos], buf[pos..len];
      var oldPos := pos;
      pos := BeforeWord(pos);
      var diff := oldPos - pos;
      CloseGap(pos, oldPos, len);
      len := len - diff;
      NoTerminator(left[..pos], right);
      RefreshLine(text);
    }

    // Moves the text from one position to an earlier one, terminator included.
    method CloseGap(to: nat, from: nat, end: nat)
      requires to <= from <= end < buf.Length && buf[end] == 0
      modifies buf
      ensures buf[..to] == old(buf[..to]) && buf[to..to + end - from] == old(buf[from..end])
      ensures buf[to + end - from] == 0
    {
      ghost var tail := buf[from..end + 1];
      MemMove(buf, to, from, end - from + 1);
      assert buf[to..to + end - from + 1] == tail;
      assert buf[to..to + end - from] == tail[..end - from] == old(buf[from..end]);
      assert buf[to + end - from] == tail[end - from];
    }

    // The two loops that look for the start of the previous word.
    method BeforeWord(from: nat) returns (p: nat)
      requires from <= buf.Length
      ensures p <= from && buf[..p] == DropWord(DropSpaces(buf[..from]))
    {
      p := from;
      while p > 0 && buf[p - 1] == SPACE
        invariant p <= from && DropSpaces(buf[..from]) == DropSpaces(buf[..p])
      {
        assert Front(buf[..p]) == buf[..p - 1];
        p := p - 1;
      }
      ghost var spaceless := DropSpaces(buf[..from]);
      while p > 0 && buf[p - 1] != SPACE
        invariant p <= from && DropWord(spaceless) == DropWord(buf[..p])
      {
        assert Front(buf[..p]) == buf[..p - 1];
        p := p - 1;
      }
    }

    // Ctrl-T.
    method EditTranspose()
      requires Valid() && Displayed()
      modifies this`pos, this`screen, this`oldpos, this`maxrows, this`drifted, buf
      ensures Valid() && Displayed() && Current() == Transpose(old(Current()))
    {
      hide Shows, Bounded, RowShows, Printed, Remaining, CursorColumn, InColumns;
      ghost var text := Text(Current());
      if pos > 0 && pos < len {
        ExchangeBytes();
        NoTerminator(buf[..pos], buf[pos..len]);
        RefreshLine(text);
      }
    }

    // The bytes around the cursor, and the step right unless on the last byte.
    method ExchangeBytes()
      requires 0 < pos < len < buf.Length && 0 !in buf[..len]
      modifies this`pos, buf
      ensures pos <= len && buf[len] == old(buf[len]) && 0 !in buf[..pos] && 0 !in buf[pos..len]
      ensures Current() == Transpose(old(Current()))
    {
      ghost var left, right := buf[..pos], buf[pos..len];
      var aux := buf[pos - 1];
      buf[pos - 1] := buf[pos];
      buf[pos] := aux;
      assert buf[..pos] == Front(left) + [right[0]];
      assert buf[pos..len] == [Last(left)] + right[1..];
      assert left[|left| - 1] == old(buf[..len])[pos - 1];
      if pos != len - 1 {
        pos := pos + 1;
        assert buf[..pos] == Front(left) + [right[0]] + [Last(left)];
        assert buf[pos..len] == right[1..];
      }
    }

    // Ctrl-U.
    method EditKillLine()
      requires Valid() && Displayed()
      modifies this`pos, this`len, this`screen, this`oldpos, this`maxrows, this`drifted, buf
      ensures Valid() && Displayed() && Current() == KillLine(old(Current()))
    {
      hide Shows, Bounded, RowShows, Printed, Remaining, CursorColumn, InColumns;
      ghost var text := Text(Current());
      buf[0] := 0;
      pos, len := 0, 0;
      RefreshLine(text);
    }

    // Ctrl-K.
    method EditKillRight()
      requires Valid() && Displayed()
      modifies this`len, this`screen, this`oldpos, this`maxrows, this`drifted, buf
      ensures Valid() && Displayed() && Current() == KillRight(old(Current()))
    {
      hide Shows, Bounded, RowShows, Printed, Remaining, CursorColumn, InColumns;
      ghost var text, left := Text(Current()), buf[..pos];
      buf[pos] := 0;
      len := pos;
      assert buf[..pos] == left;
      RefreshLine(text);
    }

    // Ctrl-L.
    method EditClearScreen()
      requires Valid() && Displayed()
      modifies this`screen, this`oldpos, this`maxrows, this`drifted
      ensures Valid() && Displayed() && Current() == old(Current())
    {
      hide Shows, Bounded, RowShows, Printed, Remaining, CursorColumn;
      ghost var text := Text(Current());
      PlayOne(cols, screen, Clear);
      Write([Clear]);
      RefreshLine(text);
    }

    // ---------- history ----------

    ghost function SessionNow(): Session
      requires Valid() && history.Valid()
      reads this, buf, history, history.entries
    {
      Session(Current(), history.Contents(), historyIndex)
    }

    // A session is under way, over history lines that are C strings.
    ghost predicate InSession()
      reads this, buf, history, history.entries
    {
      && Valid() && history.Valid() && InRange(SessionNow())
      && (forall i :: 0 <= i < history.len ==> 0 !in history.Contents()[i])
    }

    // strncpy, a forced terminator, and strlen.
    method LoadLine(line: Bytes)
      requires buf.Length == buflen + 1 && 0 < buflen && 0 !in line
      modifies this`pos, this`len, buf
      ensures pos == len && len <= buflen && buf[len] == 0 && buf[..len] == Clip(line, buflen - 1)
    {
      for i := 0 to buflen
        invariant forall j :: 0 <= j < i ==> buf[j] == if j < |line| then line[j] else 0
      {
        buf[i] := if i < |line| then line[i] else 0;
      }
      buf[buflen - 1] := 0;
      ghost var clipped := Clip(line, buflen - 1);
      assert forall j :: 0 <= j < |clipped| ==> buf[j] == clipped[j] && buf[j] in line;
      var n := 0;
      while buf[n] != 0
        invariant n <= |clipped|
        decreases |clipped| - n
      {
        n := n + 1;
      }
      len := n;
      pos := n;
    }

    method EditHistoryNext(back: bool)
      requires InSession() && Displayed()
      modifies this`pos, this`len, this`screen, this`oldpos, this`maxrows, this`drifted, this`historyIndex
      modifies buf, history.entries
      ensures InSession() && Displayed()
      ensures SessionNow() == Navigate(old(SessionNow()), back, buflen - 1)
    {
      hide Shows, Bounded, RowShows, Printed, Remaining, CursorColumn, InColumns;
      ghost var text := Text(Current());
      if history.len > 1 {
        StoreLine();
        ghost var stored := history.Contents();
        historyIndex := historyIndex + if back then 1 else -1;
        if historyIndex < 0 {
          historyIndex := 0;
          return;
        } else if historyIndex >= history.len {
          historyIndex := history.len - 1;
          return;
        }
        var line := history.entries[history.len - 1 - historyIndex];
        assert line == stored[history.len - 1 - historyIndex];
        ShowLine(line, text);
      }
    }

    // Copies the line being edited into its history entry.
    method StoreLine()
      requires InSession()
      modifies history.entries
      ensures InSession() && history.Contents() == Sheet(old(SessionNow()))
    {
      hide InColumns;
      assert Text(Current()) == buf[..len];
      history.Replace(history.len - 1 - historyIndex, buf[..len]);
      ghost var stored := history.Contents();
      assert forall i :: 0 <= i < |stored| ==> 0 !in stored[i];
    }

    // Puts another line in the buffer and on the terminal.
    method ShowLine(line: Bytes, ghost shown: Bytes)
      requires Valid() && Behind(shown) && 0 !in line
      modifies this`pos, this`len, this`screen, this`oldpos, this`maxrows, this`drifted, buf
      ensures Valid() && Displayed() && Current() == Line(Clip(line, buflen - 1), [])
    {
      hide Shows, Bounded, RowShows, Printed, Remaining, CursorColumn, InColumns;
      LoadLine(line);
      NoTerminator(Clip(line, buflen - 1), []);
      RefreshLine(shown);
      assert Current() == Line(Clip(line, buflen - 1), []);
    }

    // ---------- the session ----------

    // The dispatch of one key that neither navigates nor ends the session.
    method EditKey(key: Key)
      requires Valid() && Displayed() && !Navigates(key) && (key.Self? ==> key.c != 0)
      modifies this, buf
      ensures Valid() && Displayed() && Current() == Edited(old(Current()), key, buflen)
      ensures historyIndex == old(historyIndex)
    {
      hide Insert, Backspace, Delete, MoveLeft, MoveRight, MoveHome, MoveEnd, Transpose, DeletePrevWord;
      hide Displayed, Valid;
      match key
      case BackspaceKey => EditBackspace();
      case CtrlD => EditDelete();
      case DeleteKey => EditDelete();
      case CtrlT => EditTranspose();
      case LeftKey => EditMoveLeft();
      case RightKey => EditMoveRight();
      case HomeKey => EditMoveHome();
      case EndKey => EditMoveEnd();
      case CtrlU => EditKillLine();
      case CtrlK => EditKillRight();
      case CtrlL => EditClearScreen();
      case CtrlW => EditDeletePrevWord();
      case Self(c) => EditInsert(c);
      case _ =>
    }

    // The dispatch of one key that does not end the session.
    method PressKey(key: Key)
      requires InSession() && Displayed() && (key.Self? ==> key.c != 0)
      modifies this, buf, history.entries
      ensures InSession() && Displayed()
      ensures SessionNow() == Press(old(SessionNow()), key, buflen)
      ensures history.entries == old(history.entries)
    {
      hide Displayed, Navigate, Edited, InColumns;
      if Navigates(key) {
        EditHistoryNext(key.Previous?);
      } else {
        EditKey(key);
      }
    }

    // The loop of linenoiseEdit over the keys of an input.
    method Edit(input: Bytes) returns (outcome: Outcome)
      requires InSession() && Displayed() && 0 !in input
      modifies this, buf, history, history.entries
      ensures Valid() && history.Valid() && Displayed()
      ensures (SessionNow(), outcome) == EditorModel.Edit(old(SessionNow()), input, buflen)
    {
      hide Displayed, InColumns, Press, NextKey, EditorModel.Edit;
      ghost var start := SessionNow();
      var rest := input;
      while true
        invariant InSession() && Displayed() && 0 !in rest
        invariant history.entries == old(history.entries)
        invariant EditorModel.Edit(start, input, buflen) == EditorModel.Edit(SessionNow(), rest, buflen)
        decreases |rest|
      {
        EditStep(SessionNow(), rest, buflen);
        var next := NextKey(rest);
        if next.None? {
          return Unfinished;
        }
        var key, n := next.value.0, next.value.1;
        if key.Enter? {
          history.DropNewest();
          assert buf[..len] == Text(Current());
          return Entered(buf[..len]);
        } else if key.CtrlC? {
          return Interrupted;
        } else if key.CtrlD? && len == 0 {
          history.DropNewest();
          return EndOfInput;
        }
        PressKey(key);
        rest := rest[n..];
      }
    }
  }

  // linenoiseEdit: a fresh buffer, a scratch entry in the history, and the session.
  method Linenoise(size: nat, prompt: Bytes, cols: nat, multi: bool, history: History, before: Screen, input: Bytes)
    returns (editor: LineEditor, outcome: Outcome)
    requires 1 < size && |prompt| < cols && InColumns(cols, before)
    requires Below(before.cells) == map[] && before.row == before.col == 0 && !before.wrap
    requires history.Valid() && 0 !in input
    requires forall i :: 0 <= i < history.len ==> 0 !in history.Contents()[i]
    modifies history, history.entries
    ensures editor.Valid() && editor.history == history && history.Valid() && editor.Displayed()
    ensures var start := Session(Line([], []), Added(old(history.Contents()), old(history.maxLen), []), 0);
            (editor.SessionNow(), outcome) == EditorModel.Edit(start, input, size - 1)
  {
    hide Shows, Bounded, RowShows, Printed, Remaining, CursorColumn, InColumns;
    editor := new LineEditor(size, prompt, cols, multi, history, before);
    var _ := history.Add([]);
    ScratchReady(old(history.Contents()), history.maxLen);
    outcome := editor.Edit(input);
  }

  // After adding an empty line the history is not empty, and all its lines were there or
  // are empty.
  lemma ScratchReady(entries: seq<Bytes>, max: nat)
    requires 0 < max
    ensures Added(entries, max, []) != []
    ensures forall i :: 0 <= i < |Added(entries, max, [])| ==>
              Added(entries, max, [])[i] == [] || Added(entries, max, [])[i] in entries
  {
  }

  // A multi-line redraw keeps the cursor and the cells within the columns, whatever was
  // on the screen.
  lemma MultiInColumns(cols: nat, s: Screen, prompt: Bytes, text: Bytes, pos: nat, oldpos: nat, maxrows: nat)
    requires cols > 0 && pos <= |text| && InColumns(cols, s)
    ensures InColumns(cols, Play(cols, s, MultiOps(cols, prompt, text, pos, oldpos, maxrows)))
  {
    AlwaysInColumns(cols, s, MultiOps(cols, prompt, text, pos, oldpos, maxrows));
  }

  lemma {:induction false} AlwaysInColumns(cols: nat, s: Screen, ops: seq<Op>)
    requires cols > 0 && InColumns(cols, s)
    ensures InColumns(cols, Play(cols, s, ops))
  {
    hide Act, InColumns;
    if ops != [] {
      AlwaysInColumns(cols, s, ops[..|ops| - 1]);
      OneInColumns(cols, Play(cols, s, ops[..|ops| - 1]), ops[|ops| - 1]);
    }
  }

  lemma OneInColumns(cols: nat, s: Screen, op: Op)
    requires cols > 0 && InColumns(cols, s)
    ensures InColumns(cols, Act(cols, s, op))
  {
  }

  // Printing just the appended byte, in terms of what the editor displays: right from the
  // end of the row, and wrong from where a redraw leaves the cursor on an empty one.
  lemma FastPath(cols: nat, s: Screen, prompt: Bytes, text: Bytes, b: byte)
    requires |prompt| + |text| + 1 < cols && InColumns(cols, s)
    ensures InColumns(cols, Act(cols, s, Put(b)))
    ensures RowShows(s.cells, s.row, Remaining(Printed(prompt, text, |text|, cols), cols)) && !s.wrap
            && InPlace(s.col, CursorColumn(|prompt|, |text|, cols), cols) ==>
              var t := Act(cols, s, Put(b));
              var shown := RowShows(t.cells, t.row, Remaining(Printed(prompt, text + [b], |text| + 1, cols), cols));
              && (s.col == |prompt| + |text| ==>
                    shown && t.col == CursorColumn(|prompt|, |text| + 1, cols) && !t.wrap)
              && (s.col != |prompt| + |text| ==>
                    prompt == [] && text == [] && s.col == 1 && !RowShows(t.cells, t.row, [b]))
  {
    assert Printed(prompt, text, |text|, cols) == prompt + text;
    assert Printed(prompt, text + [b], |text| + 1, cols) == prompt + text + [b];
    if RowShows(s.cells, s.row, prompt + text) && !s.wrap {
      FastAppend(cols, s, prompt, text, b);
      assert prompt == [] && text == [] ==> prompt + text + [b] == [b];
    }
  }

  // The row numbers the method computes are the ones the specification names.
  lemma RowsAre(cols: nat, plen: nat, len: nat, pos: nat, oldpos: nat)
    requires cols > 0
    ensures CursorRow(cols, plen + oldpos) == (plen + oldpos + cols) / cols
    ensures CursorRow(cols, plen + pos) == (plen + pos + cols) / cols
    ensures NeedsNewline(cols, plen, len, pos) == (pos != 0 && pos == len && (pos + plen) % cols == 0)
    ensures UsedRows(cols, plen, len, pos)
            == (plen + len + cols - 1) / cols + if NeedsNewline(cols, plen, len, pos) then 1 else 0
    ensures (plen + len + cols - 1) / cols >= 0 && (plen + pos + cols) / cols >= 0
    ensures (plen + oldpos + cols) / cols >= 0
  {
    CellDivMod(cols, plen + len);
    CellDivMod(cols, plen + pos);
    CellDivMod(cols, plen + oldpos);
  }
}
