// Line editing as operations on a zipper, and an editing session with its history.

module EditorModel {
  import opened ByteStrings

  // The bytes before the cursor and those from the cursor on.
  datatype Line = Line(left: Bytes, right: Bytes)

  function Text(l: Line): Bytes {
    l.left + l.right
  }

  function Last(s: Bytes): byte
    requires s != []
  {
    s[|s| - 1]
  }

  function Front(s: Bytes): Bytes
    requires s != []
  {
    s[..|s| - 1]
  }

  function Insert(l: Line, c: byte, max: nat): Line {
    if |Text(l)| < max then Line(l.left + [c], l.right) else l
  }

  function Backspace(l: Line): Line {
    if l.left == [] then l else Line(Front(l.left), l.right)
  }

  function Delete(l: Line): Line {
    if l.right == [] then l else Line(l.left, l.right[1..])
  }

  function MoveLeft(l: Line): Line {
    if l.left == [] then l else Line(Front(l.left), [Last(l.left)] + l.right)
  }

  function MoveRight(l: Line): Line {
    if l.right == [] then l else Line(l.left + [l.right[0]], l.right[1..])
  }

  function MoveHome(l: Line): Line {
    Line([], Text(l))
  }

  function MoveEnd(l: Line): Line {
    Line(Text(l), [])
  }

  // Exchanges the bytes around the cursor, then moves right unless on the last byte.
  function Transpose(l: Line): Line {
    if l.left == [] || l.right == [] then l
    else
      var swapped := Line(Front(l.left) + [l.right[0]], [Last(l.left)] + l.right[1..]);
      if |l.right| == 1 then swapped else MoveRight(swapped)
  }

  function KillLine(l: Line): Line {
    Line([], [])
  }

  function KillRight(l: Line): Line {
    Line(l.left, [])
  }

  function DropSpaces(s: Bytes): (r: Bytes)
    ensures r <= s
  {
    if s != [] && Last(s) == SPACE then DropSpaces(Front(s)) else s
  }

  function DropWord(s: Bytes): (r: Bytes)
    ensures r <= s
  {
    if s != [] && Last(s) != SPACE then DropWord(Front(s)) else s
  }

  function DeletePrevWord(l: Line): Line {
    Line(DropWord(DropSpaces(l.left)), l.right)
  }

  // ---------- the operations on the flat text ----------

  // Which text each operation leaves and where the cursor stands in it, told on the text
  // and the cursor's position alone.
  lemma EditsOnText(l: Line, c: byte, max: nat)
    ensures var t, p := Text(l), |l.left|;
            && (var i := Insert(l, c, max);
                if |t| < max then Text(i) == t[..p] + [c] + t[p..] && |i.left| == p + 1 else i == l)
            && (var b := Backspace(l);
                if p > 0 then Text(b) == t[..p - 1] + t[p..] && |b.left| == p - 1 else b == l)
            && (var d := Delete(l);
                if p < |t| then Text(d) == t[..p] + t[p + 1..] && |d.left| == p else d == l)
            && Text(KillRight(l)) == t[..p] && |KillRight(l).left| == p
  {
    var t, p := Text(l), |l.left|;
    assert t[..p] == l.left && t[p..] == l.right;
    if p < |t| {
      assert t[p + 1..] == l.right[1..];
    }
    if p > 0 {
      assert t[..p - 1] == Front(l.left);
    }
  }

  // Transposing exchanges the bytes on both sides of the cursor, when there are two.
  lemma TransposeOnText(l: Line)
    ensures var t, p, x := Text(l), |l.left|, Transpose(l);
            if 0 < p < |t| then
              && Text(x) == t[p - 1 := t[p]][p := t[p - 1]]
              && |x.left| == if p == |t| - 1 then p else p + 1
            else x == l
  {
  }

  // Moving keeps the text; the cursor goes one byte, or to an end.
  lemma MovesOnText(l: Line)
    ensures Text(MoveLeft(l)) == Text(MoveRight(l)) == Text(MoveHome(l)) == Text(MoveEnd(l)) == Text(l)
    ensures l.left != [] ==> |MoveLeft(l).left| == |l.left| - 1 && MoveRight(MoveLeft(l)) == l
    ensures l.right != [] ==> |MoveRight(l).left| == |l.left| + 1 && MoveLeft(MoveRight(l)) == l
  {
    if l.left != [] {
      assert l.left == Front(l.left) + [Last(l.left)];
    }
    if l.right != [] {
      assert l.right == [l.right[0]] + l.right[1..];
      assert Front(l.left + [l.right[0]]) == l.left;
    }
  }

  predicate Blank(s: Bytes) {
    forall i :: 0 <= i < |s| ==> s[i] == SPACE
  }

  lemma {:induction false} SpacesDropped(s: Bytes)
    ensures var kept := DropSpaces(s); Blank(s[|kept|..]) && (kept != [] ==> Last(kept) != SPACE)
  {
    if s != [] && Last(s) == SPACE {
      SpacesDropped(Front(s));
    }
  }

  lemma {:induction false} WordDropped(s: Bytes)
    ensures var kept := DropWord(s); SPACE !in s[|kept|..] && (kept != [] ==> Last(kept) == SPACE)
  {
    if s != [] && Last(s) != SPACE {
      WordDropped(Front(s));
      var kept := DropWord(s);
      assert s[|kept|..] == Front(s)[|kept|..] + [Last(s)];
    }
  }

  // Deleting the previous word removes one word at most and the spaces after it: what is
  // removed is a longest run of other bytes, then a longest run of spaces before the cursor.
  lemma PreviousWordGone(l: Line)
    ensures var kept := DeletePrevWord(l).left;
            && DeletePrevWord(l).right == l.right && kept <= l.left
            && (kept != [] ==> Last(kept) == SPACE)
            && exists n :: |kept| <= n <= |l.left| && SPACE !in l.left[|kept|..n] && Blank(l.left[n..])
                           && (n > 0 ==> l.left[n - 1] != SPACE)
  {
    var spaceless := DropSpaces(l.left);
    SpacesDropped(l.left);
    WordDropped(spaceless);
    var kept, n := DropWord(spaceless), |spaceless|;
    assert l.left[|kept|..n] == spaceless[|kept|..];
  }

  // ---------- keys ----------

  datatype Key =
    | Enter | CtrlC | BackspaceKey | CtrlD | CtrlT | LeftKey | RightKey | Previous | Following
    | DeleteKey | HomeKey | EndKey | CtrlU | CtrlK | CtrlL | CtrlW | Nothing | Self(c: byte)

  const ESC: byte := 27
  const BRACKET: byte := 91   // [
  const LETTER_O: byte := 79  // O
  const TILDE_KEY: byte := 126

  // What an escape sequence of two more bytes means; a digit after the bracket is
  // followed by one byte more.
  function BracketKey(b: byte): Key {
    if b == 65 then Previous
    else if b == 66 then Following
    else if b == 67 then RightKey
    else if b == 68 then LeftKey
    else if b == 72 then HomeKey
    else if b == 70 then EndKey
    else Nothing
  }

  function LetterOKey(b: byte): Key {
    if b == 72 then HomeKey else if b == 70 then EndKey else Nothing
  }

  function ControlKey(c: byte): Key {
    if c == 13 then Enter
    else if c == 3 then CtrlC
    else if c == 127 || c == 8 then BackspaceKey
    else if c == 4 then CtrlD
    else if c == 20 then CtrlT
    else if c == 2 then LeftKey
    else if c == 6 then RightKey
    else if c == 16 then Previous
    else if c == 14 then Following
    else if c == 21 then CtrlU
    else if c == 11 then CtrlK
    else if c == 1 then HomeKey
    else if c == 5 then EndKey
    else if c == 12 then CtrlL
    else if c == 23 then CtrlW
    else Self(c)
  }

  // The next key of the input and how many bytes it takes; None when the input ends
  // before the key does.
  function NextKey(s: Bytes): (r: Option<(Key, nat)>)
    ensures r.Some? ==> 0 < r.value.1 <= |s|
    ensures r.Some? && r.value.0.Self? ==> r.value.0.c == s[0]
  {
    if s == [] then None
    else if s[0] != ESC then Some((ControlKey(s[0]), 1))
    else if |s| < 3 then None
    else if s[1] == BRACKET then
      if 48 <= s[2] <= 57 then
        if |s| < 4 then None
        else Some((if s[3] == TILDE_KEY && s[2] == 51 then DeleteKey else Nothing, 4))
      else Some((BracketKey(s[2]), 3))
    else if s[1] == LETTER_O then Some((LetterOKey(s[2]), 3))
    else Some((Nothing, 3))
  }

  // ---------- sessions ----------

  // The line, the history entries with the session's scratch entry last, and which entry
  // is being edited, counted from the newest.
  datatype Session = Session(line: Line, entries: seq<Bytes>, index: int)

  predicate InRange(s: Session) {
    0 <= s.index < |s.entries|
  }

  function Slot(s: Session): int {
    |s.entries| - 1 - s.index
  }

  // strncpy into the buffer and a forced terminator.
  function Clip(line: Bytes, max: nat): (r: Bytes)
    ensures |r| <= max
  {
    if |line| <= max then line else line[..max]
  }

  // Stores the edited line in its entry, moves by one, and shows the entry reached.
  function Navigate(s: Session, back: bool, max: nat): (r: Session)
    requires InRange(s)
    ensures InRange(r) && |r.entries| == |s.entries|
  {
    if |s.entries| <= 1 then s
    else
      var entries := s.entries[Slot(s) := Text(s.line)];
      var index := if back then s.index + 1 else s.index - 1;
      if index < 0 then Session(s.line, entries, 0)
      else if index >= |entries| then Session(s.line, entries, |entries| - 1)
      else Session(Line(Clip(entries[|entries| - 1 - index], max), []), entries, index)
  }

  predicate Navigates(key: Key) {
    key.Previous? || key.Following?
  }

  // What a key that does not navigate does to the line; size is the room for text.
  function Edited(l: Line, key: Key, size: nat): Line {
    match key
    case BackspaceKey => Backspace(l)
    case CtrlD => Delete(l)
    case DeleteKey => Delete(l)
    case CtrlT => Transpose(l)
    case LeftKey => MoveLeft(l)
    case RightKey => MoveRight(l)
    case HomeKey => MoveHome(l)
    case EndKey => MoveEnd(l)
    case CtrlU => KillLine(l)
    case CtrlK => KillRight(l)
    case CtrlW => DeletePrevWord(l)
    case Self(c) => Insert(l, c, size)
    case _ => l
  }

  // Every key that does not end the session.
  function Press(s: Session, key: Key, size: nat): (r: Session)
    requires InRange(s)
    ensures InRange(r) && |r.entries| == |s.entries|
  {
    if Navigates(key) then Navigate(s, key.Previous?, if size > 0 then size - 1 else 0)
    else s.(line := Edited(s.line, key, size))
  }

  datatype Outcome = Entered(text: Bytes) | Interrupted | EndOfInput | Unfinished

  // A whole session over an input. Finishing the line, and end-of-file on an empty
  // line, remove the scratch entry.
  function Edit(s: Session, input: Bytes, size: nat): (Session, Outcome)
    requires InRange(s)
    decreases |input|
  {
    var next := NextKey(input);
    if next.None? then (s, Unfinished)
    else
      var (key, n) := next.value;
      if key.Enter? then (s.(entries := s.entries[..|s.entries| - 1]), Entered(Text(s.line)))
      else if key.CtrlC? then (s, Interrupted)
      else if key.CtrlD? && Text(s.line) == [] then (s.(entries := s.entries[..|s.entries| - 1]), EndOfInput)
      else Edit(Press(s, key, size), input[n..], size)
  }

  // One key of a session.
  lemma EditStep(s: Session, input: Bytes, size: nat)
    requires InRange(s)
    ensures NextKey(input).None? ==> Edit(s, input, size) == (s, Unfinished)
    ensures NextKey(input).Some? ==>
              var key, n := NextKey(input).value.0, NextKey(input).value.1;
              Edit(s, input, size)
              == if key.Enter? then (s.(entries := s.entries[..|s.entries| - 1]), Entered(Text(s.line)))
                 else if key.CtrlC? then (s, Interrupted)
                 else if key.CtrlD? && Text(s.line) == [] then
                   (s.(entries := s.entries[..|s.entries| - 1]), EndOfInput)
                 else Edit(Press(s, key, size), input[n..], size)
  {
    hide NextKey, Press;
  }

  // ---------- the key code, from the keyboard's side ----------

  function Escape(rest: string): Bytes {
    [ESC] + Ascii(rest)
  }

  // A byte the editor inserts as it is.
  predicate Inserted(c: byte) {
    c !in {1, 2, 3, 4, 5, 6, 8, 11, 12, 13, 14, 16, 20, 21, 23, 27, 127}
  }

  // The byte strings that send each key: Ctrl with the n-th letter sends the byte n.
  function Codes(key: Key): seq<Bytes> {
    match key
    case HomeKey => [[1], Escape("[H"), Escape("OH")]       // Ctrl-A, Home
    case LeftKey => [[2], Escape("[D")]                     // Ctrl-B, Left
    case CtrlC => [[3]]
    case CtrlD => [[4]]
    case EndKey => [[5], Escape("[F"), Escape("OF")]        // Ctrl-E, End
    case RightKey => [[6], Escape("[C")]                    // Ctrl-F, Right
    case BackspaceKey => [[8], [127]]                       // Ctrl-H, Backspace
    case CtrlK => [[11]]
    case CtrlL => [[12]]
    case Enter => [[13]]
    case Following => [[14], Escape("[B")]                  // Ctrl-N, Down
    case Previous => [[16], Escape("[A")]                   // Ctrl-P, Up
    case CtrlT => [[20]]
    case CtrlU => [[21]]
    case CtrlW => [[23]]
    case DeleteKey => [Escape("[3~")]
    case Self(c) => if Inserted(c) then [[c]] else []
    case Nothing => []
  }

  lemma EscapesSpelled()
    ensures Escape("[A") == [27, 91, 65] && Escape("[B") == [27, 91, 66]
    ensures Escape("[C") == [27, 91, 67] && Escape("[D") == [27, 91, 68]
    ensures Escape("[H") == [27, 91, 72] && Escape("[F") == [27, 91, 70]
    ensures Escape("OH") == [27, 79, 72] && Escape("OF") == [27, 79, 70]
    ensures Escape("[3~") == [27, 91, 51, 126]
  {
  }

  // Every code decodes to its key, whatever follows.
  lemma CodesDecode(key: Key, code: Bytes, t: Bytes)
    requires code in Codes(key)
    ensures NextKey(code + t) == Some((key, |code|))
  {
    hide Escape;
    EscapesSpelled();
  }

  // And nothing else does: what is decoded is the code of a key, or an escape sequence of
  // three bytes, four after a digit, that is the code of none.
  lemma DecodedIsCode(s: Bytes)
    requires NextKey(s).Some?
    ensures var (key, n) := NextKey(s).value;
            if key != Nothing then s[..n] in Codes(key)
            else s[0] == ESC
                 && n == (if s[1] == '[' as int as byte && '0' as int <= s[2] as int <= '9' as int then 4 else 3)
                 && forall k :: s[..n] !in Codes(k)
  {
    hide Escape;
    EscapesSpelled();
    var (key, n) := NextKey(s).value;
    assert n == 1 ==> s[..n] == [s[0]];
    assert n == 3 ==> s[..n] == [s[0], s[1], s[2]];
    assert n == 4 ==> s[..n] == [s[0], s[1], s[2], s[3]];
    if key == Nothing {
      forall k
        ensures s[..n] !in Codes(k)
      {
        if s[..n] in Codes(k) {
          CodesDecode(k, s[..n], s[n..]);
          assert s[..n] + s[n..] == s;
          NothingHasNoCode(k, s[..n]);
        }
      }
    }
  }

  lemma NothingHasNoCode(k: Key, code: Bytes)
    requires code in Codes(k)
    ensures k != Nothing
  {
  }

  // The input ends before a key does exactly when it is empty or a cut escape sequence.
  lemma UndecodedExactly(s: Bytes)
    ensures NextKey(s) == None
            <==> || s == []
                 || (s[0] == ESC && |s| < 3)
                 || (|s| == 3 && s[0] == ESC && s[1] == '[' as int as byte && '0' as int <= s[2] as int <= '9' as int)
  {
  }

  predicate Ending(key: Key, s: Session) {
    key.Enter? || key.CtrlC? || (key.CtrlD? && Text(s.line) == [])
  }

  // The bytes of a key that does not end the session press it.
  lemma BytesPress(s: Session, key: Key, code: Bytes, t: Bytes, size: nat)
    requires InRange(s) && code in Codes(key) && !Ending(key, s)
    ensures Edit(s, code + t, size) == Edit(Press(s, key, size), t, size)
  {
    hide Codes, NextKey, Press, Edit;
    CodesDecode(key, code, t);
    EditStep(s, code + t, size);
    assert (code + t)[|code|..] == t;
  }

  // Enter gives the line, Ctrl-C gives up, Ctrl-D on an empty line ends the input.
  lemma BytesEnd(s: Session, t: Bytes, size: nat)
    requires InRange(s)
    ensures Edit(s, [13] + t, size) == (s.(entries := s.entries[..|s.entries| - 1]), Entered(Text(s.line)))
    ensures Edit(s, [3] + t, size) == (s, Interrupted)
    ensures Text(s.line) == [] ==>
              Edit(s, [4] + t, size) == (s.(entries := s.entries[..|s.entries| - 1]), EndOfInput)
    ensures Edit(s, [], size) == (s, Unfinished)
  {
    hide NextKey, Press, Edit;
    CodesDecode(Enter, [13], t);
    CodesDecode(CtrlC, [3], t);
    CodesDecode(CtrlD, [4], t);
    UndecodedExactly([]);
    EditStep(s, [13] + t, size);
    EditStep(s, [3] + t, size);
    EditStep(s, [4] + t, size);
    EditStep(s, [], size);
  }

  // What each key that moves or kills leaves of a text t with the cursor at p, and where it
  // leaves the cursor.
  lemma MovingKeys(s: Session, key: Key, size: nat)
    requires InRange(s) && key in {HomeKey, EndKey, LeftKey, RightKey, CtrlU, CtrlK, CtrlL, Nothing}
    ensures Press(s, key, size).entries == s.entries && Press(s, key, size).index == s.index
    ensures var l, t, p := Press(s, key, size).line, Text(s.line), |s.line.left|;
            && (key.HomeKey? ==> Text(l) == t && |l.left| == 0)
            && (key.EndKey? ==> Text(l) == t && |l.left| == |t|)
            && (key.LeftKey? ==> Text(l) == t && |l.left| == if p > 0 then p - 1 else 0)
            && (key.RightKey? ==> Text(l) == t && |l.left| == if p < |t| then p + 1 else p)
            && (key.CtrlU? ==> Text(l) == [])
            && (key.CtrlK? ==> Text(l) == t[..p] && |l.left| == p)
            && (key.CtrlL? || key.Nothing? ==> l == s.line)
  {
    hide MoveLeft, MoveRight;
    MovesOnText(s.line);
    NoMoves(s.line);
    assert Text(s.line)[..|s.line.left|] == s.line.left;
  }

  // The same for each key that takes away, inserts or exchanges.
  lemma ChangingKeys(s: Session, key: Key, size: nat)
    requires InRange(s) && (key.Self? || key in {BackspaceKey, CtrlD, DeleteKey, CtrlT, CtrlW})
    ensures Press(s, key, size).entries == s.entries && Press(s, key, size).index == s.index
    ensures var l, t, p := Press(s, key, size).line, Text(s.line), |s.line.left|;
            && (key.BackspaceKey? ==>
                  if p > 0 then Text(l) == t[..p - 1] + t[p..] && |l.left| == p - 1 else l == s.line)
            && (key.CtrlD? || key.DeleteKey? ==>
                  if p < |t| then Text(l) == t[..p] + t[p + 1..] && |l.left| == p else l == s.line)
            && (key.Self? ==>
                  if |t| < size then Text(l) == t[..p] + [key.c] + t[p..] && |l.left| == p + 1 else l == s.line)
            && (key.CtrlT? ==>
                  if 0 < p < |t| then
                    && Text(l) == t[p - 1 := t[p]][p := t[p - 1]]
                    && |l.left| == if p == |t| - 1 then p else p + 1
                  else l == s.line)
            && (key.CtrlW? ==> l == DeletePrevWord(s.line))
  {
    hide Insert, Backspace, Delete, Transpose, DeletePrevWord, Text;
    EditsOnText(s.line, if key.Self? then key.c else 0, size);
    TransposeOnText(s.line);
  }

  lemma NoMoves(l: Line)
    ensures l.left == [] ==> MoveLeft(l) == l
    ensures l.right == [] ==> MoveRight(l) == l
  {
  }

  // Up shows the next older line and Down the next newer one, as far as there are any, cut
  // to what the buffer holds with the cursor at the end; the line left is stored first.
  lemma NavigatingKeys(s: Session, key: Key, size: nat)
    requires InRange(s) && Navigates(key) && 0 < size
    ensures |s.entries| <= 1 ==> Press(s, key, size) == s
    ensures |s.entries| > 1 ==>
              var older := |s.entries| - 1 - (s.index + 1);
              var newer := |s.entries| - 1 - (s.index - 1);
              var r := Press(s, key, size);
              && r.entries == s.entries[|s.entries| - 1 - s.index := Text(s.line)]
              && (key.Previous? && older >= 0 ==>
                    r.index == s.index + 1 && r.line.right == [] && Cut(r.line.left, s.entries[older], size - 1))
              && (key.Previous? && older < 0 ==> r.index == s.index && r.line == s.line)
              && (key.Following? && newer < |s.entries| ==>
                    r.index == s.index - 1 && r.line.right == [] && Cut(r.line.left, s.entries[newer], size - 1))
              && (key.Following? && newer >= |s.entries| ==> r.index == s.index && r.line == s.line)
  {
  }

  // As much of a line as fits.
  predicate Cut(shown: Bytes, line: Bytes, max: nat) {
    shown <= line && (|line| <= max ==> shown == line) && (|line| > max ==> |shown| == max)
  }

  // ---------- navigation undoes itself ----------

  // The session as a sheet of lines, the one being edited in its place.
  function Sheet(s: Session): (r: seq<Bytes>)
    requires InRange(s)
    ensures |r| == |s.entries|
  {
    s.entries[Slot(s) := Text(s.line)]
  }

  // The entry a step leads to, when there is one.
  predicate CanMove(s: Session, back: bool) {
    if back then s.index + 1 < |s.entries| else s.index > 0
  }

  function Target(s: Session, back: bool): int {
    if back then s.index + 1 else s.index - 1
  }

  // A step never loses an edit; it changes no line of the sheet exactly when the line
  // it shows fits the buffer.
  lemma NavigateKeepsSheet(s: Session, back: bool, max: nat)
    requires InRange(s) && |s.entries| > 1
    ensures !CanMove(s, back) ==>
              Sheet(Navigate(s, back, max)) == Sheet(s) && Navigate(s, back, max).index == s.index
    ensures CanMove(s, back) ==>
              var t := Navigate(s, back, max);
              && t.index == Target(s, back) && t.line.right == []
              && (Sheet(t) == Sheet(s) <==> |Sheet(s)[|s.entries| - 1 - Target(s, back)]| <= max)
              && t.entries == Sheet(s)
  {
    if CanMove(s, back) {
      var t := Navigate(s, back, max);
      var slot := |s.entries| - 1 - t.index;
      assert t.entries == Sheet(s) && Slot(t) == slot;
      assert Text(t.line) == Clip(Sheet(s)[slot], max);
      assert Sheet(t)[slot] == Clip(Sheet(s)[slot], max);
      if |Sheet(s)[slot]| <= max {
        assert Sheet(t) == Sheet(s);
      }
    }
  }

  // The line a key shows, if it shows another one, fits the buffer.
  predicate ShownFits(s: Session, key: Key, size: nat)
    requires InRange(s)
  {
    Navigates(key) && |s.entries| > 1 && CanMove(s, key.Previous?) ==>
      |Sheet(s)[|s.entries| - 1 - Target(s, key.Previous?)]| < size
  }

  // One key either edits, and then changes only the line being edited, or navigates,
  // and then changes no line exactly when the line it shows fits.
  lemma PressIsLocal(s: Session, key: Key, size: nat)
    requires InRange(s) && 0 < size
    ensures !Navigates(key) ==>
              && Slot(Press(s, key, size)) == Slot(s)
              && Sheet(Press(s, key, size)) == Sheet(s)[Slot(s) := Text(Press(s, key, size).line)]
    ensures Navigates(key) ==> (Sheet(Press(s, key, size)) == Sheet(s) <==> ShownFits(s, key, size))
  {
    hide Navigate, Edited;
    if Navigates(key) {
      if |s.entries| > 1 {
        NavigateKeepsSheet(s, key.Previous?, size - 1);
      } else {
        NowhereToGo(s, key.Previous?, size - 1);
      }
    }
  }

  // ---------- whole sessions ----------

  function PressAll(s: Session, keys: seq<Key>, size: nat): (r: Session)
    requires InRange(s)
    ensures InRange(r) && |r.entries| == |s.entries|
  {
    if keys == [] then s else Press(PressAll(s, keys[..|keys| - 1], size), keys[|keys| - 1], size)
  }

  lemma {:induction false} PressFirst(s: Session, key: Key, keys: seq<Key>, size: nat)
    requires InRange(s)
    ensures PressAll(s, [key] + keys, size) == PressAll(Press(s, key, size), keys, size)
  {
    hide Press;
    var all := [key] + keys;
    if keys == [] {
      assert all[..0] == [] && all == [key];
    } else {
      var n := |keys| - 1;
      assert all[..|all| - 1] == [key] + keys[..n] && all[|all| - 1] == keys[n];
      PressFirst(s, key, keys[..n], size);
    }
  }

  // A whole session is the pressing of the keys of its input, up to the one that ends it;
  // entering the line and end-of-file then drop the scratch entry.
  lemma {:induction false} EditIsPressing(s: Session, input: Bytes, size: nat) returns (keys: seq<Key>)
    requires InRange(s)
    ensures var (t, outcome) := Edit(s, input, size);
            var u := PressAll(s, keys, size);
            && t == (if outcome.Entered? || outcome.EndOfInput? then u.(entries := u.entries[..|u.entries| - 1]) else u)
            && (outcome.Entered? ==> outcome.text == Text(u.line))
    decreases |input|
  {
    hide NextKey, Press, Edit;
    EditStep(s, input, size);
    keys := [];
    var next := NextKey(input);
    if next.Some? {
      var key, n := next.value.0, next.value.1;
      if !(key.Enter? || key.CtrlC? || (key.CtrlD? && Text(s.line) == [])) {
        keys := EditIsPressing(Press(s, key, size), input[n..], size);
        PressFirst(s, key, keys, size);
        keys := [key] + keys;
      }
    }
  }

  // Every line as its last edit left it, or as the session found it.
  function Latest(s: Session, keys: seq<Key>, size: nat): (r: seq<Bytes>)
    requires InRange(s)
    ensures |r| == |s.entries|
  {
    if keys == [] then Sheet(s)
    else
      var before := Latest(s, keys[..|keys| - 1], size);
      if Navigates(keys[|keys| - 1]) then before
      else
        var now := PressAll(s, keys, size);
        before[Slot(now) := Text(now.line)]
  }

  predicate UpToDate(s: Session, keys: seq<Key>, size: nat)
    requires InRange(s)
  {
    Sheet(PressAll(s, keys, size)) == Latest(s, keys, size)
  }

  // At every moment of the session.
  predicate AlwaysUpToDate(s: Session, keys: seq<Key>, size: nat)
    requires InRange(s)
  {
    UpToDate(s, keys, size) && (keys == [] || AlwaysUpToDate(s, keys[..|keys| - 1], size))
  }

  // Every line that navigation shows on the way fits the buffer.
  predicate AllShownFit(s: Session, keys: seq<Key>, size: nat)
    requires InRange(s)
  {
    keys == [] ||
    var front := keys[..|keys| - 1];
    AllShownFit(s, front, size) && ShownFits(PressAll(s, front, size), keys[|keys| - 1], size)
  }

  // All along a session, whatever is edited in between, every entry holds its latest
  // edited text: exactly when every line shown on the way fits the buffer.
  lemma {:induction false} EveryEntryHoldsItsLatest(s: Session, keys: seq<Key>, size: nat)
    requires InRange(s) && 0 < size
    ensures AlwaysUpToDate(s, keys, size) <==> AllShownFit(s, keys, size)
  {
    hide UpToDate, PressAll, ShownFits;
    if keys == [] {
      NothingPressed(s, size);
    } else {
      var front := keys[..|keys| - 1];
      EveryEntryHoldsItsLatest(s, front, size);
      if UpToDate(s, front, size) {
        LatestStep(s, keys, size);
      }
    }
  }

  lemma NothingPressed(s: Session, size: nat)
    requires InRange(s)
    ensures UpToDate(s, [], size)
  {
  }

  // The last key keeps the agreement of sheet and latest texts unless it shows a line cut.
  lemma LatestStep(s: Session, keys: seq<Key>, size: nat)
    requires InRange(s) && 0 < size && keys != []
    requires UpToDate(s, keys[..|keys| - 1], size)
    ensures UpToDate(s, keys, size)
            <==> ShownFits(PressAll(s, keys[..|keys| - 1], size), keys[|keys| - 1], size)
  {
    hide Press, Sheet, ShownFits, Slot;
    var before := PressAll(s, keys[..|keys| - 1], size);
    PressIsLocal(before, keys[|keys| - 1], size);
    if !Navigates(keys[|keys| - 1]) {
      EditsFit(before, keys[|keys| - 1], size);
    }
  }

  lemma EditsFit(s: Session, key: Key, size: nat)
    requires InRange(s) && !Navigates(key)
    ensures ShownFits(s, key, size)
  {
  }

  lemma NowhereToGo(s: Session, back: bool, max: nat)
    requires InRange(s) && |s.entries| <= 1
    ensures Navigate(s, back, max) == s
  {
  }

  function Walk(s: Session, back: bool, k: nat, max: nat): (r: Session)
    requires InRange(s)
    ensures InRange(r) && |r.entries| == |s.entries|
  {
    if k == 0 then s else Navigate(Walk(s, back, k - 1, max), back, max)
  }

  predicate AllFit(lines: seq<Bytes>, max: nat) {
    forall i :: 0 <= i < |lines| ==> |lines[i]| <= max
  }

  lemma {:induction false} WalkIs(s: Session, back: bool, k: nat, max: nat)
    requires InRange(s) && AllFit(Sheet(s), max)
    requires if back then s.index + k < |s.entries| else k <= s.index
    ensures var t := Walk(s, back, k, max);
            && t.index == (if back then s.index + k else s.index - k)
            && Sheet(t) == Sheet(s)
            && (k > 0 ==> t.line == Line(Sheet(s)[Slot(t)], []) && t.entries == Sheet(s))
  {
    hide Navigate;
    if k > 0 {
      WalkIs(s, back, k - 1, max);
      var u := Walk(s, back, k - 1, max);
      NavigateKeepsSheet(u, back, max);
      ShownLine(u, back, max);
    }
  }

  lemma ShownLine(s: Session, back: bool, max: nat)
    requires InRange(s) && |s.entries| > 1 && CanMove(s, back) && AllFit(Sheet(s), max)
    ensures Navigate(s, back, max).line == Line(Sheet(s)[|s.entries| - 1 - Target(s, back)], [])
  {
  }

  // With all lines fitting the buffer, k steps back and k steps forward restore the
  // text, with the cursor at its end, and leave every entry as it was, the edited one
  // now stored.
  lemma ThereAndBack(s: Session, k: nat, max: nat)
    requires InRange(s) && AllFit(Sheet(s), max) && 0 < k && s.index + k < |s.entries|
    ensures var t := Walk(Walk(s, true, k, max), false, k, max);
            t.line == Line(Text(s.line), []) && t.index == s.index && t.entries == Sheet(s)
  {
    WalkIs(s, true, k, max);
    WalkIs(Walk(s, true, k, max), false, k, max);
  }

  // A line that fills the buffer loses its last byte for good by being shown once.
  lemma FullLineLosesAByte(line: Bytes)
    requires line != []
    ensures var s := Session(Line([], []), [line, []], 0);
            var back := Press(s, Previous, |line|);
            && back.line == Line(line[..|line| - 1], [])
            && Press(back, Following, |line|) == Session(Line([], []), [line[..|line| - 1], []], 0)
  {
    var s := Session(Line([], []), [line, []], 0);
    var back := Press(s, Previous, |line|);
    assert Text(s.line) == [] && s.entries[1 := []] == s.entries;
    assert Text(back.line) == line[..|line| - 1];
    assert back.entries[Slot(back) := Text(back.line)] == [line[..|line| - 1], []];
  }
}
