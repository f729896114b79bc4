/** What a line editor with history does, key by key, and the control functions that show it. */
module Editing {
  import opened Common
  import opened Terminal

  const MAX_LINE: nat := 1024

  /** A line split at the cursor. */
  datatype Edit = Edit(before: seq<byte>, after: seq<byte>)

  function Line(text: Edit): seq<byte> {
    text.before + text.after
  }

  /** The line under the cursor, the recorded lines, and which of them is recalled. */
  datatype Editing = Editing(text: Edit, history: seq<seq<byte>>, index: Option<nat>)

  datatype Key = Text(b: byte) | Backspace | Up | Down | Right | Left | Enter | Other

  /** `line` recorded last; a full history forgets its first entry. */
  function Recorded(history: seq<seq<byte>>, line: seq<byte>, limit: nat): seq<seq<byte>> {
    (if |history| >= limit && history != [] then history[1..] else history) + [line]
  }

  function Recalled(s: Editing, history: seq<seq<byte>>, i: nat): Editing
    requires i < |history|
  {
    Editing(Edit(history[i], []), history, Some(i))
  }

  predicate WellIndexed(s: Editing) {
    s.index.Some? ==> s.index.value < |s.history|
  }

  function Press(s: Editing, key: Key): Editing
    requires WellIndexed(s)
  {
    var before, after := s.text.before, s.text.after;
    match key
    case Text(b) => if |Line(s.text)| < MAX_LINE then s.(text := Edit(before + [b], after)) else s
    case Backspace => if before == [] then s else s.(text := Edit(before[..|before| - 1], after))
    case Right => if after == [] then s else s.(text := Edit(before + [after[0]], after[1..]))
    case Left => if before == [] then s else s.(text := Edit(before[..|before| - 1], [before[|before| - 1]] + after))
    case Up => PressUp(s)
    case Down => PressDown(s)
    case Enter => PressEnter(s)
    case Other => s
  }

  /** The first step up records the line being edited and recalls the last entry, which is that line. */
  function PressUp(s: Editing): Editing
    requires WellIndexed(s)
  {
    if s.history == [] then s
    else
      match s.index
      case None =>
        var history := if Line(s.text) == [] then s.history else Recorded(s.history, Line(s.text), 20);
        Recalled(s, history, |history| - 1)
      case Some(i) => if i > 0 then Recalled(s, s.history, i - 1) else s
  }

  function PressDown(s: Editing): Editing
    requires WellIndexed(s)
  {
    match s.index
    case None => s
    case Some(i) =>
      if i < |s.history| - 1 then Recalled(s, s.history, i + 1) else s.(text := Edit([], []), index := None)
  }

  function PressEnter(s: Editing): Editing {
    var line := Line(s.text);
    if line == [] then s
    else
      var history := if s.history == [] || s.history[|s.history| - 1] != line then Recorded(s.history, line, 16) else s.history;
      Editing(Edit([], []), history, None)
  }

  // ----- what every key keeps

  ghost predicate Sound(s: Editing) {
    && WellIndexed(s)
    && |Line(s.text)| <= MAX_LINE
    && |s.history| <= 20
    && (forall i :: 0 <= i < |s.history| ==> |s.history[i]| <= MAX_LINE)
  }

  /** Every key keeps the line within 1024 bytes, the history within 20 such lines, and the recalled
      entry one of them. */
  lemma PressKeepsSound(s: Editing, key: Key)
    requires Sound(s)
    ensures Sound(Press(s, key))
  {
  }

  /** Everything typed or recorded is printable. */
  ghost predicate Clean(s: Editing) {
    && AllPrintable(s.text.before) && AllPrintable(s.text.after)
    && (forall i :: 0 <= i < |s.history| ==> AllPrintable(s.history[i]))
  }

  lemma RecordedClean(history: seq<seq<byte>>, line: seq<byte>, limit: nat)
    requires AllPrintable(line) && forall i :: 0 <= i < |history| ==> AllPrintable(history[i])
    ensures forall i :: 0 <= i < |Recorded(history, line, limit)| ==> AllPrintable(Recorded(history, line, limit)[i])
  {
  }

  lemma PressKeepsClean(s: Editing, key: Key)
    requires WellIndexed(s) && Clean(s) && (key.Text? ==> Printable(key.b))
    ensures Clean(Press(s, key))
  {
    if key.Up? || key.Enter? {
      assert AllPrintable(Line(s.text));
      RecordedClean(s.history, Line(s.text), 20);
      RecordedClean(s.history, Line(s.text), 16);
    }
  }

  // ----- laws of the keys

  /** The left arrow keeps the line, and the right arrow undoes it. */
  lemma LeftKeepsLine(s: Editing)
    requires WellIndexed(s)
    ensures Line(Press(s, Left).text) == Line(s.text)
    ensures s.text.before != [] ==> Press(Press(s, Left), Right) == s
  {
    var before, after := s.text.before, s.text.after;
    if before != [] {
      var init, last := before[..|before| - 1], before[|before| - 1];
      assert init + [last] == before;
      assert init + ([last] + after) == (init + [last]) + after;
      assert ([last] + after)[1..] == after;
    }
  }

  /** The right arrow keeps the line, and the left arrow undoes it. */
  lemma RightKeepsLine(s: Editing)
    requires WellIndexed(s)
    ensures Line(Press(s, Right).text) == Line(s.text)
    ensures s.text.after != [] ==> Press(Press(s, Right), Left) == s
  {
    var before, after := s.text.before, s.text.after;
    if after != [] {
      assert [after[0]] + after[1..] == after;
      assert (before + [after[0]]) + after[1..] == before + ([after[0]] + after[1..]);
      assert (before + [after[0]])[..|before|] == before;
    }
  }

  // ----- runs of keys

  /** The keys in turn. */
  function PressAll(s: Editing, keys: seq<Key>): (s': Editing)
    requires Sound(s)
    ensures Sound(s')
  {
    if keys == [] then s
    else
      var before := PressAll(s, keys[..|keys| - 1]);
      PressKeepsSound(before, keys[|keys| - 1]);
      Press(before, keys[|keys| - 1])
  }

  lemma PressMore(s: Editing, keys: seq<Key>, key: Key)
    requires Sound(s)
    ensures PressAll(s, keys + [key]) == Press(PressAll(s, keys), key)
  {
    assert (keys + [key])[..|keys|] == keys;
  }

  lemma AppendMore(s: Editing, ai: seq<Key>, ab: seq<Key>, u: Editing, init: seq<Key>, b: seq<Key>, last: Key)
    requires Sound(s) && Sound(u) && PressAll(s, ai) == PressAll(u, init)
    requires ab == ai + [last] && b == init + [last]
    ensures PressAll(s, ab) == PressAll(u, b)
  {
    PressMore(s, ai, last);
    PressMore(u, init, last);
  }

  lemma {:induction false} PressAllAppend(s: Editing, a: seq<Key>, b: seq<Key>)
    requires Sound(s)
    ensures PressAll(s, a + b) == PressAll(PressAll(s, a), b)
  {
    if b == [] {
      assert a + b == a;
    } else {
      var init, last := b[..|b| - 1], b[|b| - 1];
      PressAllAppend(s, a, init);
      SplitLast(a, b);
      AppendMore(s, a + init, a + b, PressAll(s, a), init, b, last);
    }
  }

  lemma SplitLast<T>(a: seq<T>, b: seq<T>)
    requires b != []
    ensures a + b == (a + b[..|b| - 1]) + [b[|b| - 1]]
  {}

  function Times(key: Key, k: nat): seq<Key> {
    seq(k, _ => key)
  }

  lemma TimesMore(s: Editing, key: Key, k: nat)
    requires Sound(s) && k > 0
    ensures PressAll(s, Times(key, k)) == Press(PressAll(s, Times(key, k - 1)), key)
  {
    assert Times(key, k) == Times(key, k - 1) + [key];
    PressMore(s, Times(key, k - 1), key);
  }

  function Typed(text: seq<byte>): seq<Key> {
    seq(|text|, i requires 0 <= i < |text| => Text(text[i]))
  }

  /** Text typed where the line has room stands before the cursor. */
  lemma {:induction false} TypeText(s: Editing, text: seq<byte>)
    requires Sound(s) && |Line(s.text)| + |text| <= MAX_LINE
    ensures PressAll(s, Typed(text)) == s.(text := Edit(s.text.before + text, s.text.after))
  {
    if text == [] {
      assert s.text.before + text == s.text.before;
    } else {
      var init, last := text[..|text| - 1], text[|text| - 1];
      TypeText(s, init);
      assert Typed(text) == Typed(init) + [Text(last)];
      PressMore(s, Typed(init), Text(last));
      assert s.text.before + text == s.text.before + init + [last];
    }
  }

  lemma {:induction false} EraseText(s: Editing, k: nat)
    requires Sound(s) && k <= |s.text.before|
    ensures PressAll(s, Times(Backspace, k)) == s.(text := Edit(s.text.before[..|s.text.before| - k], s.text.after))
  {
    var before := s.text.before;
    if k == 0 {
      assert before[..|before|] == before;
    } else {
      EraseText(s, k - 1);
      TimesMore(s, Backspace, k);
      assert before[..|before| - (k - 1)][..|before| - k] == before[..|before| - k];
    }
  }

  /** As many backspaces as bytes were typed restore the line, the cursor and the history. */
  lemma TypedIsErased(s: Editing, text: seq<byte>)
    requires Sound(s) && |Line(s.text)| + |text| <= MAX_LINE
    ensures PressAll(s, Typed(text) + Times(Backspace, |text|)) == s
  {
    PressAllAppend(s, Typed(text), Times(Backspace, |text|));
    TypeText(s, text);
    EraseText(PressAll(s, Typed(text)), |text|);
    assert (s.text.before + text)[..|s.text.before|] == s.text.before;
  }

  predicate IsIdle(s: Editing) {
    s.text == Edit([], []) && s.index.None?
  }

  lemma UpOnce(s: Editing, k: nat)
    requires 1 < k <= |s.history|
    ensures Press(Recalled(s, s.history, |s.history| - k + 1), Up) == Recalled(s, s.history, |s.history| - k)
  {
  }

  lemma {:induction false} UpRun(s: Editing, k: nat)
    requires Sound(s) && IsIdle(s) && 0 < k <= |s.history|
    ensures PressAll(s, Times(Up, k)) == Recalled(s, s.history, |s.history| - k)
  {
    TimesMore(s, Up, k);
    if k == 1 {
      assert Times(Up, 0) == [];
      assert PressAll(s, []) == s;
    } else {
      UpRun(s, k - 1);
      UpOnce(s, k);
    }
  }

  lemma {:induction false} DownRun(s: Editing, i: nat, d: nat)
    requires Sound(s) && i + d < |s.history| && s == Recalled(s, s.history, i)
    ensures PressAll(s, Times(Down, d)) == Recalled(s, s.history, i + d)
  {
    if d == 0 {
      assert Times(Down, 0) == [];
    } else {
      DownRun(s, i, d - 1);
      TimesMore(s, Down, d);
    }
  }

  /** From an empty line, k steps up recall the k-th last entry; one step down less comes back to the last
      one, and as many to the empty line. */
  lemma UpsThenDowns(s: Editing, k: nat)
    requires Sound(s) && IsIdle(s) && 0 < k <= |s.history|
    ensures PressAll(s, Times(Up, k)).text == Edit(s.history[|s.history| - k], [])
    ensures PressAll(s, Times(Up, k) + Times(Down, k - 1)).text == Edit(s.history[|s.history| - 1], [])
    ensures PressAll(s, Times(Up, k) + Times(Down, k)) == s
  {
    UpRun(s, k);
    PressAllAppend(s, Times(Up, k), Times(Down, k - 1));
    PressAllAppend(s, Times(Up, k), Times(Down, k));
    DownsBack(s, PressAll(s, Times(Up, k)), k);
  }

  lemma DownsBack(s: Editing, up: Editing, k: nat)
    requires Sound(s) && Sound(up) && IsIdle(s) && 0 < k <= |s.history|
    requires up == Recalled(s, s.history, |s.history| - k)
    ensures PressAll(up, Times(Down, k - 1)).text == Edit(s.history[|s.history| - 1], [])
    ensures PressAll(up, Times(Down, k)) == s
  {
    DownRun(up, |s.history| - k, k - 1);
    TimesMore(up, Down, k);
  }

  /** The lines typed and submitted one after the other. */
  function Submissions(lines: seq<seq<byte>>): seq<Key> {
    if lines == [] then [] else Submissions(lines[..|lines| - 1]) + Typed(lines[|lines| - 1]) + [Enter]
  }

  /** The lines without those that repeat the one before. */
  function Condensed(lines: seq<seq<byte>>): seq<seq<byte>> {
    if lines == [] then []
    else
      var before, line := Condensed(lines[..|lines| - 1]), lines[|lines| - 1];
      if before != [] && before[|before| - 1] == line then before else before + [line]
  }

  function Latest(lines: seq<seq<byte>>): seq<seq<byte>> {
    if |lines| <= 16 then lines else lines[|lines| - 16..]
  }

  ghost predicate Submittable(lines: seq<seq<byte>>) {
    forall i :: 0 <= i < |lines| ==> 0 < |lines[i]| <= MAX_LINE
  }

  /** Submitting a line to a history of the latest ones. */
  lemma EnterLatest(lines: seq<seq<byte>>, line: seq<byte>)
    requires line != []
    ensures
      var s := Editing(Edit(line, []), Latest(lines), None);
      var lines' := if lines != [] && lines[|lines| - 1] == line then lines else lines + [line];
      Press(s, Enter) == Editing(Edit([], []), Latest(lines'), None)
  {
    assert Line(Edit(line, [])) == line;
  }

  /** The editor of a new session. */
  const START := Editing(Edit([], []), [], None)

  /** The history a run of submitted lines leaves: the latest sixteen, no line twice in a row. */
  lemma {:induction false} SubmittedLines(lines: seq<seq<byte>>)
    requires Submittable(lines)
    ensures Sound(START)
    ensures PressAll(START, Submissions(lines)) == Editing(Edit([], []), Latest(Condensed(lines)), None)
  {
    if lines != [] {
      var init, line := lines[..|lines| - 1], lines[|lines| - 1];
      SubmittedLines(init);
      var before := PressAll(START, Submissions(init));
      PressAllAppend(START, Submissions(init), Typed(line));
      TypeText(before, line);
      assert [] + line == line;
      PressMore(START, Submissions(init) + Typed(line), Enter);
      EnterLatest(Condensed(init), line);
    }
  }

  /** After a run of submitted lines, k steps up show the k-th last of them, repeats not counted, as far
      as sixteen back. */
  lemma SubmittedLinesAreRecalled(lines: seq<seq<byte>>, k: nat)
    requires Submittable(lines) && 0 < k <= |Condensed(lines)| && k <= 16
    ensures Sound(START)
    ensures PressAll(START, Submissions(lines) + Times(Up, k)).text
         == Edit(Condensed(lines)[|Condensed(lines)| - k], [])
  {
    SubmittedLines(lines);
    RecallLatest(Submissions(lines), Condensed(lines), k);
  }

  lemma RecallLatest(keys: seq<Key>, lines: seq<seq<byte>>, k: nat)
    requires Sound(START) && PressAll(START, keys) == Editing(Edit([], []), Latest(lines), None)
    requires 0 < k <= |lines| && k <= 16
    ensures PressAll(START, keys + Times(Up, k)).text == Edit(lines[|lines| - k], [])
  {
    LatestAt(lines, k);
    RecalledAfter(START, keys, PressAll(START, keys), k);
  }

  lemma RecalledAfter(s: Editing, keys: seq<Key>, s': Editing, k: nat)
    requires Sound(s) && PressAll(s, keys) == s' && IsIdle(s') && 0 < k <= |s'.history|
    ensures PressAll(s, keys + Times(Up, k)).text == Edit(s'.history[|s'.history| - k], [])
  {
    PressAllAppend(s, keys, Times(Up, k));
    UpRun(s', k);
  }

  lemma LatestAt(lines: seq<seq<byte>>, k: nat)
    requires 0 < k <= |lines| && k <= 16
    ensures k <= |Latest(lines)| && Latest(lines)[|Latest(lines)| - k] == lines[|lines| - k]
  {
  }

  // ----- showing a line

  /** The terminal row that shows the line with the cursor in its place. */
  function Shown(text: Edit, width: nat): Row
    requires |Line(text)| <= width
  {
    Row(Padded(Line(text), width), |text.before|, Ground)
  }

  /** Rewriting the rest of the line and moving back to the cursor. */
  function Rest(after: seq<byte>): seq<byte> {
    after + if after == [] then [] else CursorBack(|after|)
  }

  lemma ReceiveRest(r: Row, after: seq<byte>)
    requires r.parser == Ground && AllPrintable(after) && r.col + |after| <= |r.cells|
    ensures ReceiveAll(r, Rest(after)) == r.(cells := r.cells[..r.col] + after + r.cells[r.col + |after|..])
  {
    ReceiveText(r, after);
    if after == [] {
      assert Rest(after) == after;
    } else {
      ReceiveAppend(r, after, CursorBack(|after|));
      ReceiveCursorBack(ReceiveAll(r, after), |after|);
    }
  }

  lemma ShowBell(text: Edit, width: nat)
    requires |Line(text)| <= width
    ensures ReceiveAll(Shown(text, width), [BELL]) == Shown(text, width)
  {
    ReceiveOne(Shown(text, width), BELL);
  }

  lemma ShowInsert(text: Edit, b: byte, width: nat)
    requires |Line(text)| < width && AllPrintable(text.after) && Printable(b)
    ensures ReceiveAll(Shown(text, width), [b] + Rest(text.after)) == Shown(Edit(text.before + [b], text.after), width)
  {
    var r := Shown(text, width);
    ReceiveAppend(r, [b], Rest(text.after));
    ReceiveOne(r, b);
    var typed := Receive(r, b);
    ReceiveRest(typed, text.after);
    assert typed.cells[..typed.col] == text.before + [b];
    assert typed.cells[typed.col + |text.after|..] == Blanks(width - |Line(text)| - 1);
  }

  /** Writing the rest of the line where the row is blank from the cursor on. */
  lemma RestOverBlank(before: seq<byte>, after: seq<byte>, width: nat)
    requires |before| + |after| <= width && AllPrintable(after)
    ensures ReceiveAll(Row(Padded(before, width), |before|, Ground), Rest(after)) == Shown(Edit(before, after), width)
  {
    var r := Row(Padded(before, width), |before|, Ground);
    ReceiveRest(r, after);
    BlankRest(before, after, width);
  }

  lemma BlankRest(before: seq<byte>, after: seq<byte>, width: nat)
    requires |before| + |after| <= width
    ensures
      var cells := Padded(before, width);
      cells[..|before|] + after + cells[|before| + |after|..] == Padded(before + after, width)
  {
  }

  lemma BackAndErase(text: Edit, width: nat)
    requires |Line(text)| <= width && text.before != []
    ensures
      var before := text.before[..|text.before| - 1];
      ReceiveAll(Shown(text, width), [BACKSPACE] + [ESCAPE, BRACKET, ERASE]) == Row(Padded(before, width), |before|, Ground)
  {
    var before := text.before[..|text.before| - 1];
    var back := Shown(text, width).(col := |before|);
    ReceiveAppend(Shown(text, width), [BACKSPACE], [ESCAPE, BRACKET, ERASE]);
    ReceiveOne(Shown(text, width), BACKSPACE);
    ReceiveEraseRest(back);
    assert back.cells[..|before|] == before;
  }

  lemma ShowErase(text: Edit, width: nat)
    requires |Line(text)| <= width && text.before != [] && AllPrintable(text.after)
    ensures ReceiveAll(Shown(text, width), [BACKSPACE] + [ESCAPE, BRACKET, ERASE] + Rest(text.after))
         == Shown(Edit(text.before[..|text.before| - 1], text.after), width)
  {
    BackAndErase(text, width);
    RestOverBlank(text.before[..|text.before| - 1], text.after, width);
    ReceiveAppend(Shown(text, width), [BACKSPACE] + [ESCAPE, BRACKET, ERASE], Rest(text.after));
  }

  lemma ShowEraseLast(before: seq<byte>, width: nat)
    requires before != [] && |before| <= width
    ensures ReceiveAll(Shown(Edit(before, []), width), [BACKSPACE, BLANK, BACKSPACE])
         == Shown(Edit(before[..|before| - 1], []), width)
  {
    var r := Shown(Edit(before, []), width);
    ReceiveThree(r, BACKSPACE, BLANK, BACKSPACE);
  }

  lemma ShowArrow(text: Edit, width: nat)
    requires |Line(text)| <= width
    ensures text.after != [] ==>
              (ReceiveAll(Shown(text, width), [ESCAPE, BRACKET, FORWARD])
               == Shown(Edit(text.before + [text.after[0]], text.after[1..]), width))
    ensures text.before != [] ==>
              (ReceiveAll(Shown(text, width), [ESCAPE, BRACKET, BACKWARD])
               == Shown(Edit(text.before[..|text.before| - 1], [text.before[|text.before| - 1]] + text.after), width))
  {
    ReceiveThree(Shown(text, width), ESCAPE, BRACKET, FORWARD);
    ReceiveThree(Shown(text, width), ESCAPE, BRACKET, BACKWARD);
    LeftKeepsLine(Editing(text, [], None));
    RightKeepsLine(Editing(text, [], None));
  }

  lemma TextOverBlank(line: seq<byte>, width: nat)
    requires |line| <= width && AllPrintable(line)
    ensures ReceiveAll(Row(Blanks(width), 0, Ground), line) == Row(Padded(line, width), |line|, Ground)
  {
    var blank := Row(Blanks(width), 0, Ground);
    ReceiveText(blank, line);
    BlankRest([], line, width);
    assert [] + line == line && [] + Blanks(width) == Blanks(width);
  }

  lemma HomeAndErase(text: Edit, width: nat)
    requires |Line(text)| <= width
    ensures ReceiveAll(Shown(text, width), [RETURN] + [ESCAPE, BRACKET, 50, ERASE]) == Row(Blanks(width), 0, Ground)
  {
    var r := Shown(text, width);
    ReceiveAppend(r, [RETURN], [ESCAPE, BRACKET, 50, ERASE]);
    ReceiveOne(r, RETURN);
    ReceiveEraseRow(r.(col := 0));
  }

  lemma ShowRecall(text: Edit, line: seq<byte>, width: nat)
    requires |Line(text)| <= width && |line| <= width && AllPrintable(line)
    ensures ReceiveAll(Shown(text, width), [RETURN] + [ESCAPE, BRACKET, 50, ERASE] + line) == Shown(Edit(line, []), width)
  {
    HomeAndErase(text, width);
    TextOverBlank(line, width);
    assert Line(Edit(line, [])) == line;
    ReceiveAppend(Shown(text, width), [RETURN] + [ESCAPE, BRACKET, 50, ERASE], line);
  }
}
