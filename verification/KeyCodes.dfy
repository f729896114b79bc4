/** The laws of the line editor on the bytes a terminal sends. */
module KeyCodes {
  import opened Common
  import opened Editing
  import opened LineEditor

  /** The bytes a terminal sends for a key: the arrows as ESC [ A to ESC [ D, Enter as CR or LF, Backspace as BS
      or DEL, and text as itself. Any other sequence ESC [ x stands for no key in use. */
  predicate IsCode(key: Key, code: seq<byte>) {
    match key
    case Up => code == [27, 91, 65]
    case Down => code == [27, 91, 66]
    case Right => code == [27, 91, 67]
    case Left => code == [27, 91, 68]
    case Enter => code == [13] || code == [10]
    case Backspace => code == [8] || code == [127]
    case Text(b) => code == [b] && b !in {8, 10, 13, 27, 127}
    case Other => |code| == 3 && code[0] == 27 && code[1] == 91 && code[2] !in {65, 66, 67, 68}
  }

  predicate AreCodes(keys: seq<Key>, codes: seq<seq<byte>>) {
    |keys| == |codes| && forall i :: 0 <= i < |keys| ==> IsCode(keys[i], codes[i])
  }

  function Flat(codes: seq<seq<byte>>): seq<byte> {
    if codes == [] then [] else Flat(codes[..|codes| - 1]) + codes[|codes| - 1]
  }

  /** What an input leads to from `s`, where no escape sequence is pending. */
  function Fed(s: Editing, input: seq<byte>): Editing
    requires Sound(s)
  {
    PressAll(s, Keys(NoSequence, input).0)
  }

  // ----- decoding

  /** The keys do not depend on where the input is cut into reads. */
  lemma {:induction false} KeysAppend(p: Pending, a: seq<byte>, b: seq<byte>)
    ensures Keys(p, a + b) == (Keys(p, a).0 + Keys(Keys(p, a).1, b).0, Keys(Keys(p, a).1, b).1)
    decreases |b|
  {
    if b == [] {
      assert a + b == a;
      assert Keys(p, a).0 + [] == Keys(p, a).0;
    } else {
      var init, last := b[..|b| - 1], b[|b| - 1];
      KeysAppend(p, a, init);
      assert (a + b)[..|a + b| - 1] == a + init && (a + b)[|a + b| - 1] == last;
      var (ka, q) := Keys(p, a);
      var (kb, q') := Keys(q, init);
      var key := Decode(q', last).1;
      Regrouped(ka, kb, if key.Some? then [key.value] else []);
    }
  }

  lemma Regrouped<T>(a: seq<T>, b: seq<T>, c: seq<T>)
    ensures a + b + c == a + (b + c)
  {}

  lemma KeysNext(p: Pending, input: seq<byte>, b: byte)
    ensures
      var (keys, q) := Keys(p, input);
      var (q', key) := Decode(q, b);
      Keys(p, input + [b]) == (if key.Some? then keys + [key.value] else keys, q')
  {
    assert (input + [b])[..|input|] == input;
    assert Keys(p, input).0 + [] == Keys(p, input).0;
  }

  lemma KeysOfThree(a: byte, b: byte, c: byte)
    requires a == 27
    ensures Keys(NoSequence, [a, b, c]) == (if b == 91 then [SpecialKey(c)] else [], NoSequence)
  {
    assert Keys(NoSequence, []) == ([], NoSequence);
    KeysNext(NoSequence, [], a);
    assert [] + [a] == [a];
    assert Keys(NoSequence, [a]) == ([], Started);
    KeysNext(NoSequence, [a], b);
    assert [a] + [b] == [a, b];
    assert Keys(NoSequence, [a, b]) == ([], if b == 91 then Bracketed else Stray(b));
    KeysNext(NoSequence, [a, b], c);
    assert [a, b] + [c] == [a, b, c] && [] + [SpecialKey(c)] == [SpecialKey(c)];
  }

  lemma KeysOfOne(b: byte)
    requires b != 27
    ensures Keys(NoSequence, [b]) == ([KeyOf(b)], NoSequence)
  {
    assert Keys(NoSequence, []) == ([], NoSequence);
    KeysNext(NoSequence, [], b);
    assert [] + [b] == [b] && [] + [KeyOf(b)] == [KeyOf(b)];
  }

  lemma KeysOfCode(key: Key, code: seq<byte>)
    requires IsCode(key, code)
    ensures Keys(NoSequence, code) == ([key], NoSequence)
  {
    if |code| == 3 {
      assert code == [code[0], code[1], code[2]];
      KeysOfThree(code[0], code[1], code[2]);
    } else {
      KeysOfOne(code[0]);
    }
  }

  /** Whatever keys are pressed, their codes one after the other are read as these keys. */
  lemma {:induction false} CodesAreRead(keys: seq<Key>, codes: seq<seq<byte>>)
    requires AreCodes(keys, codes)
    ensures Keys(NoSequence, Flat(codes)) == (keys, NoSequence)
  {
    if keys != [] {
      var n := |keys| - 1;
      CodesAreRead(keys[..n], codes[..n]);
      AnotherCode(Flat(codes[..n]), keys[..n], keys[n], codes[n]);
      assert keys == keys[..n] + [keys[n]];
    }
  }

  lemma AnotherCode(input: seq<byte>, keys: seq<Key>, key: Key, code: seq<byte>)
    requires Keys(NoSequence, input) == (keys, NoSequence) && IsCode(key, code)
    ensures Keys(NoSequence, input + code) == (keys + [key], NoSequence)
  {
    KeysOfCode(key, code);
    KeysAppend(NoSequence, input, code);
  }

  /** ESC followed by a byte that is not [ takes one more byte with it and presses no key. */
  lemma StrayIsNoKey(b: byte, c: byte)
    requires b != 91
    ensures Keys(NoSequence, [27, b, c]) == ([], NoSequence)
  {
    KeysOfThree(27, b, c);
  }

  // ----- pieces of input

  /** An input read as `keys` leads where these do, whatever follows. */
  lemma FedThen(s: Editing, input: seq<byte>, keys: seq<Key>, s': Editing, more: seq<byte>)
    requires Sound(s) && Keys(NoSequence, input) == (keys, NoSequence) && PressAll(s, keys) == s'
    ensures Sound(s') && Fed(s, input) == s' && Fed(s, input + more) == Fed(s', more)
  {
    KeysAppend(NoSequence, input, more);
    PressAllAppend(s, keys, Keys(NoSequence, more).0);
  }

  ghost predicate IsText(text: seq<byte>) {
    forall i :: 0 <= i < |text| ==> text[i] !in {8, 10, 13, 27, 127}
  }

  lemma {:induction false} TextIsRead(text: seq<byte>)
    requires IsText(text)
    ensures Keys(NoSequence, text) == (Typed(text), NoSequence)
  {
    if text == [] {
      assert Typed(text) == [];
    } else {
      var init, last := text[..|text| - 1], text[|text| - 1];
      TextIsRead(init);
      assert Typed(text) == Typed(init) + [Text(last)];
    }
  }

  function Repeated(code: seq<byte>, k: nat): seq<byte> {
    if k == 0 then [] else Repeated(code, k - 1) + code
  }

  lemma {:induction false} RepeatedIsRead(key: Key, code: seq<byte>, k: nat)
    requires IsCode(key, code)
    ensures Keys(NoSequence, Repeated(code, k)) == (Times(key, k), NoSequence)
  {
    if k == 0 {
      assert Times(key, 0) == [];
    } else {
      RepeatedIsRead(key, code, k - 1);
      AnotherCode(Repeated(code, k - 1), Times(key, k - 1), key, code);
      OneMore(key, k);
    }
  }

  lemma OneMore(key: Key, k: nat)
    requires k > 0
    ensures Times(key, k) == Times(key, k - 1) + [key]
  {}

  // ----- submitted lines

  ghost predicate AreLines(lines: seq<seq<byte>>) {
    forall i :: 0 <= i < |lines| ==> IsText(lines[i]) && 0 < |lines[i]| <= 1024
  }

  /** The bytes of lines typed and ended by CR. */
  function Sent(lines: seq<seq<byte>>): seq<byte> {
    if lines == [] then [] else Sent(lines[..|lines| - 1]) + lines[|lines| - 1] + [13]
  }

  lemma {:induction false} SentIsRead(lines: seq<seq<byte>>)
    requires AreLines(lines)
    ensures Keys(NoSequence, Sent(lines)) == (Submissions(lines), NoSequence)
  {
    if lines != [] {
      var init, line := lines[..|lines| - 1], lines[|lines| - 1];
      SentIsRead(init);
      TextIsRead(line);
      KeysAppend(NoSequence, Sent(init), line);
      KeysNext(NoSequence, Sent(init) + line, 13);
    }
  }

  ghost predicate NoRepeats(lines: seq<seq<byte>>) {
    forall i :: 0 < i < |lines| ==> lines[i - 1] != lines[i]
  }

  lemma {:induction false} CondensedIsAll(lines: seq<seq<byte>>)
    requires NoRepeats(lines)
    ensures Condensed(lines) == lines
  {
    if lines != [] {
      var n := |lines| - 1;
      assert forall i :: 0 <= i < n ==> lines[..n][i] == lines[i];
      CondensedIsAll(lines[..n]);
      assert lines == lines[..n] + [lines[n]];
    }
  }

  lemma SentLines(lines: seq<seq<byte>>, history: seq<seq<byte>>, more: seq<byte>)
    requires AreLines(lines) && history == Latest(Condensed(lines))
    ensures Sound(START) && Sound(Idle(history))
    ensures Fed(START, Sent(lines) + more) == Fed(Idle(history), more)
  {
    SentIsRead(lines);
    SubmittedLines(lines);
    FedThen(START, Sent(lines), Submissions(lines), Idle(history), more);
  }

  function Idle(history: seq<seq<byte>>): Editing {
    Editing(Edit([], []), history, None)
  }

  /** Up to sixteen of the last lines sent come back, lines that repeat the one before not counted: k times
      ESC [ A show the k-th last, and d times ESC [ B after them the one d lines later, or an empty line. */
  lemma CondensedLinesAreRecalled(
      lines: seq<seq<byte>>, condensed: seq<seq<byte>>, k: nat, d: nat, ups: seq<byte>, downs: seq<byte>)
    requires AreLines(lines) && condensed == Condensed(lines)
    requires d <= k && 0 < k <= |condensed| && k <= 16
    requires ups == Repeated([27, 91, 65], k) && downs == Repeated([27, 91, 66], d)
    ensures Sound(START)
    ensures Fed(START, Sent(lines) + (ups + downs)).text
         == Edit(if d < k then condensed[|condensed| - k + d] else [], [])
  {
    var history := Latest(condensed);
    SentLines(lines, history, ups + downs);
    LatestAreRecalled(condensed, history, k, d, ups, downs);
  }

  /** Where no line repeats the one before, these are the lines as they were sent. */
  lemma SentLinesAreRecalled(lines: seq<seq<byte>>, k: nat, d: nat, ups: seq<byte>, downs: seq<byte>)
    requires AreLines(lines) && NoRepeats(lines)
    requires d <= k && 0 < k <= |lines| && k <= 16
    requires ups == Repeated([27, 91, 65], k) && downs == Repeated([27, 91, 66], d)
    ensures Sound(START)
    ensures Fed(START, Sent(lines) + (ups + downs)).text == Edit(if d < k then lines[|lines| - k + d] else [], [])
  {
    CondensedIsAll(lines);
    CondensedLinesAreRecalled(lines, lines, k, d, ups, downs);
  }

  lemma LatestAreRecalled(lines: seq<seq<byte>>, history: seq<seq<byte>>, k: nat, d: nat,
                          ups: seq<byte>, downs: seq<byte>)
    requires history == Latest(lines) && Sound(Idle(history))
    requires d <= k && 0 < k <= |lines| && k <= 16
    requires ups == Repeated([27, 91, 65], k) && downs == Repeated([27, 91, 66], d)
    ensures Fed(Idle(history), ups + downs).text == Edit(if d < k then lines[|lines| - k + d] else [], [])
  {
    LatestAt(lines, k);
    if d < k {
      LatestAt(lines, k - d);
    }
    UpsThenDownsFed(Idle(history), k, d, ups, downs, if d < k then lines[|lines| - k + d] else []);
  }

  /** Lines further back are forgotten: more than sixteen times ESC [ A show the sixteenth last line. */
  lemma OlderLinesAreForgotten(lines: seq<seq<byte>>, k: nat, ups: seq<byte>)
    requires AreLines(lines) && NoRepeats(lines) && |lines| >= 16
    requires k >= 16 && ups == Repeated([27, 91, 65], k)
    ensures Sound(START)
    ensures Fed(START, Sent(lines) + ups).text == Edit(lines[|lines| - 16], [])
  {
    CondensedIsAll(lines);
    SentLines(lines, Latest(lines), ups);
    RepeatedIsRead(Up, [27, 91, 65], k);
    UpsStop(Idle(Latest(lines)), k);
  }

  lemma {:induction false} UpsStop(s: Editing, k: nat)
    requires Sound(s) && IsIdle(s) && 0 < |s.history| <= k
    ensures PressAll(s, Times(Up, k)) == Recalled(s, s.history, 0)
  {
    if k == |s.history| {
      UpRun(s, k);
    } else {
      UpsStop(s, k - 1);
      TimesMore(s, Up, k);
    }
  }

  lemma UpsThenDownsFed(s: Editing, k: nat, d: nat, ups: seq<byte>, downs: seq<byte>, line: seq<byte>)
    requires Sound(s) && IsIdle(s) && d <= k && 0 < k <= |s.history|
    requires line == if d < k then s.history[|s.history| - k + d] else []
    requires ups == Repeated([27, 91, 65], k) && downs == Repeated([27, 91, 66], d)
    ensures Fed(s, ups + downs).text == Edit(line, [])
  {
    RepeatedIsRead(Up, [27, 91, 65], k);
    UpRun(s, k);
    var up := Recalled(s, s.history, |s.history| - k);
    FedThen(s, ups, Times(Up, k), up, downs);
    DownsFed(s, up, k, d, downs);
  }

  lemma DownsFed(s: Editing, up: Editing, k: nat, d: nat, downs: seq<byte>)
    requires Sound(s) && Sound(up) && IsIdle(s) && d <= k && 0 < k <= |s.history|
    requires up == Recalled(s, s.history, |s.history| - k) && downs == Repeated([27, 91, 66], d)
    ensures Fed(up, downs).text == Edit(if d < k then s.history[|s.history| - k + d] else [], [])
  {
    RepeatedIsRead(Down, [27, 91, 66], d);
    if d < k {
      DownRun(up, |s.history| - k, d);
    } else {
      DownsBack(s, up, k);
    }
  }

  // ----- editing inside a line

  function AtCursor(before: seq<byte>, after: seq<byte>): Editing {
    Editing(Edit(before, after), [], None)
  }

  lemma {:induction false} LeftRun(before: seq<byte>, passed: seq<byte>, after: seq<byte>)
    requires |before| + |passed| + |after| <= 1024
    ensures Sound(AtCursor(before + passed, after))
    ensures PressAll(AtCursor(before + passed, after), Times(Left, |passed|)) == AtCursor(before, passed + after)
    decreases |passed|
  {
    if passed == [] {
      assert before + passed == before && passed + after == after;
      assert Times(Left, 0) == [];
    } else {
      var first, rest := passed[0], passed[1..];
      LeftRun(before + [first], rest, after);
      Respelled(before, passed, after);
      LeftMore(AtCursor(before + passed, after), |passed|, before, first, rest + after);
    }
  }

  lemma Respelled(before: seq<byte>, passed: seq<byte>, after: seq<byte>)
    requires passed != []
    ensures before + [passed[0]] + passed[1..] == before + passed
    ensures [passed[0]] + (passed[1..] + after) == passed + after
  {}

  lemma LeftMore(s: Editing, k: nat, before: seq<byte>, b: byte, after: seq<byte>)
    requires Sound(s) && k > 0 && PressAll(s, Times(Left, k - 1)) == AtCursor(before + [b], after)
    ensures PressAll(s, Times(Left, k)) == AtCursor(before, [b] + after)
  {
    TimesMore(s, Left, k);
    OneLeft(before, b, after);
  }

  lemma OneLeft(before: seq<byte>, b: byte, after: seq<byte>)
    ensures Press(AtCursor(before + [b], after), Left) == AtCursor(before, [b] + after)
  {
  }

  lemma {:induction false} RightRun(before: seq<byte>, passed: seq<byte>, after: seq<byte>)
    requires |before| + |passed| + |after| <= 1024
    ensures Sound(AtCursor(before, passed + after))
    ensures PressAll(AtCursor(before, passed + after), Times(Right, |passed|)) == AtCursor(before + passed, after)
  {
    if passed == [] {
      assert before + passed == before && passed + after == after;
      assert Times(Right, 0) == [];
    } else {
      var init, last := passed[..|passed| - 1], passed[|passed| - 1];
      assert init + ([last] + after) == passed + after;
      RightRun(before, init, [last] + after);
      TimesMore(AtCursor(before, passed + after), Right, |passed|);
      OneRight(before + init, last, after);
      assert before + init + [last] == before + passed;
    }
  }

  lemma OneRight(before: seq<byte>, b: byte, after: seq<byte>)
    ensures Press(AtCursor(before, [b] + after), Right) == AtCursor(before + [b], after)
  {
  }

  lemma TypeFed(before: seq<byte>, text: seq<byte>, after: seq<byte>, more: seq<byte>)
    requires IsText(text) && |before| + |text| + |after| <= 1024
    ensures Sound(AtCursor(before, after)) && Sound(AtCursor(before + text, after))
    ensures Fed(AtCursor(before, after), text + more) == Fed(AtCursor(before + text, after), more)
  {
    TextIsRead(text);
    TypeText(AtCursor(before, after), text);
    FedThen(AtCursor(before, after), text, Typed(text), AtCursor(before + text, after), more);
  }

  lemma LeftFed(before: seq<byte>, passed: seq<byte>, after: seq<byte>, lefts: seq<byte>, more: seq<byte>)
    requires |before| + |passed| + |after| <= 1024 && lefts == Repeated([27, 91, 68], |passed|)
    ensures Sound(AtCursor(before + passed, after)) && Sound(AtCursor(before, passed + after))
    ensures Fed(AtCursor(before + passed, after), lefts + more) == Fed(AtCursor(before, passed + after), more)
  {
    RepeatedIsRead(Left, [27, 91, 68], |passed|);
    LeftRun(before, passed, after);
    FedThen(AtCursor(before + passed, after), lefts, Times(Left, |passed|), AtCursor(before, passed + after), more);
  }

  lemma RightFed(before: seq<byte>, passed: seq<byte>, after: seq<byte>, rights: seq<byte>, more: seq<byte>)
    requires |before| + |passed| + |after| <= 1024 && rights == Repeated([27, 91, 67], |passed|)
    ensures Sound(AtCursor(before, passed + after)) && Sound(AtCursor(before + passed, after))
    ensures Fed(AtCursor(before, passed + after), rights + more) == Fed(AtCursor(before + passed, after), more)
  {
    RepeatedIsRead(Right, [27, 91, 67], |passed|);
    RightRun(before, passed, after);
    FedThen(AtCursor(before, passed + after), rights, Times(Right, |passed|), AtCursor(before + passed, after), more);
  }

  lemma EraseFed(before: seq<byte>, erased: seq<byte>, after: seq<byte>, erases: seq<byte>, more: seq<byte>)
    requires |before| + |erased| + |after| <= 1024 && erases == Repeated([127], |erased|)
    ensures Sound(AtCursor(before + erased, after)) && Sound(AtCursor(before, after))
    ensures Fed(AtCursor(before + erased, after), erases + more) == Fed(AtCursor(before, after), more)
  {
    RepeatedIsRead(Backspace, [127], |erased|);
    EraseText(AtCursor(before + erased, after), |erased|);
    assert (before + erased)[..|before|] == before;
    FedThen(AtCursor(before + erased, after), erases, Times(Backspace, |erased|), AtCursor(before, after), more);
  }

  lemma FedNothing(s: Editing)
    requires Sound(s)
    ensures Fed(s, []) == s
  {
    assert Keys(NoSequence, []).0 == [];
  }

  /** A line `a b c d` is typed, the cursor taken back over `c d`, `b` erased, the cursor taken forward over `c`,
      and `e` typed: the line is `a c e d`, with the cursor before `d`. */
  lemma LineIsEdited(a: seq<byte>, b: seq<byte>, c: seq<byte>, d: seq<byte>, e: seq<byte>,
                     lefts: seq<byte>, erases: seq<byte>, rights: seq<byte>)
    requires IsText(a + b + (c + d)) && IsText(e) && |a| + |b| + |c| + |d| + |e| <= 1024
    requires lefts == Repeated([27, 91, 68], |c + d|) && rights == Repeated([27, 91, 67], |c|)
    requires erases == Repeated([127], |b|)
    ensures Sound(START)
    ensures Fed(START, a + b + (c + d) + (lefts + (erases + (rights + e)))) == AtCursor(a + c + e, d)
  {
    TypedThenLeft(a + b, c + d, lefts, erases + (rights + e));
    EraseFed(a, b, c + d, erases, rights + e);
    RightFed(a, c, d, rights, e);
    TypeLast(a + c, e, d);
  }

  lemma TypedThenLeft(a: seq<byte>, b: seq<byte>, lefts: seq<byte>, more: seq<byte>)
    requires IsText(a + b) && |a + b| <= 1024 && lefts == Repeated([27, 91, 68], |b|)
    ensures Sound(START) && Sound(AtCursor(a, b))
    ensures Fed(START, a + b + (lefts + more)) == Fed(AtCursor(a, b), more)
  {
    TypeFed([], a + b, [], lefts + more);
    assert [] + (a + b) == a + b && b + [] == b;
    LeftFed(a, b, [], lefts, more);
  }

  lemma TypeLast(before: seq<byte>, text: seq<byte>, after: seq<byte>)
    requires IsText(text) && |before| + |text| + |after| <= 1024
    ensures Sound(AtCursor(before, after))
    ensures Fed(AtCursor(before, after), text) == AtCursor(before + text, after)
  {
    assert text + [] == text;
    TypeFed(before, text, after, []);
    FedNothing(AtCursor(before + text, after));
  }

  function FirstBytes(text: seq<byte>): seq<byte> {
    if |text| <= 1024 then text else text[..1024]
  }

  /** A line takes the first 1024 bytes typed and no more. */
  lemma LongLineIsCut(text: seq<byte>)
    requires IsText(text)
    ensures Sound(START)
    ensures Fed(START, text) == AtCursor(FirstBytes(text), [])
  {
    TextIsRead(text);
    TypeLong(START, text);
  }

  lemma {:induction false} TypeLong(s: Editing, text: seq<byte>)
    requires s == AtCursor([], [])
    ensures Sound(s) && PressAll(s, Typed(text)) == AtCursor(FirstBytes(text), [])
  {
    if text == [] {
      assert Typed(text) == [];
    } else {
      var init, last := text[..|text| - 1], text[|text| - 1];
      TypeLong(s, init);
      TypedMore(s, init, last, text);
      TypeAnother(init, last, text);
    }
  }

  lemma TypedMore(s: Editing, init: seq<byte>, last: byte, text: seq<byte>)
    requires Sound(s) && text == init + [last]
    ensures PressAll(s, Typed(text)) == Press(PressAll(s, Typed(init)), Text(last))
  {
    TypedKeys(init, last);
    PressMore(s, Typed(init), Text(last));
  }

  lemma TypedKeys(init: seq<byte>, last: byte)
    ensures Typed(init + [last]) == Typed(init) + [Text(last)]
  {}

  lemma TypeAnother(init: seq<byte>, last: byte, text: seq<byte>)
    requires text == init + [last]
    ensures Press(AtCursor(FirstBytes(init), []), Text(last)) == AtCursor(FirstBytes(text), [])
  {
    var line := FirstBytes(init);
    assert Line(Edit(line, [])) == line;
    if |text| > 1024 {
      assert line == text[..1024];
    }
  }

  /** The whole line `a b` is sent, wherever the cursor stands; an empty one is not. */
  lemma WholeLineIsSent(a: seq<byte>, b: seq<byte>, lefts: seq<byte>)
    requires IsText(a + b) && 0 < |a + b| <= 1024 && lefts == Repeated([27, 91, 68], |b|)
    ensures Sound(START)
    ensures Fed(START, a + b + (lefts + [13])) == Editing(Edit([], []), [a + b], None)
    ensures Fed(START, [13]) == START == Fed(START, [10])
  {
    TypedThenLeft(a, b, lefts, [13]);
    EnterFed(AtCursor(a, b));
    EnterFed(START);
  }

  lemma EnterFed(s: Editing)
    requires Sound(s)
    ensures Fed(s, [13]) == Press(s, Enter) == Fed(s, [10])
  {
    KeysOfOne(13);
    KeysOfOne(10);
    assert PressAll(s, []) == s;
    PressMore(s, [], Enter);
    assert [] + [Enter] == [Enter];
  }

  /** An unknown sequence of three bytes changes nothing. */
  lemma UnknownSequenceIsIgnored(s: Editing, b: byte, c: byte)
    requires Sound(s) && (b != 91 || c !in {65, 66, 67, 68})
    ensures Fed(s, [27, b, c]) == s
  {
    KeysOfThree(27, b, c);
    OtherKeyChangesNothing(s);
  }

  lemma OtherKeyChangesNothing(s: Editing)
    requires Sound(s)
    ensures PressAll(s, []) == s == PressAll(s, [Other])
  {
    PressMore(s, [], Other);
    assert [] + [Other] == [Other];
  }

  lemma FedCode(s: Editing, key: Key, code: seq<byte>)
    requires Sound(s) && IsCode(key, code)
    ensures Fed(s, code) == Press(s, key)
  {
    KeysOfCode(key, code);
    assert PressAll(s, []) == s;
    PressMore(s, [], key);
    assert [] + [key] == [key];
  }

  /** Left and backspace at the start of the line, right at its end, text where it is full, up without an earlier
      line and down without a recalled one change nothing. */
  lemma KeysAtTheirLimit(s: Editing, b: byte)
    requires Sound(s) && b !in {8, 10, 13, 27, 127}
    ensures s.text.before == [] ==> Fed(s, [27, 91, 68]) == Fed(s, [8]) == Fed(s, [127]) == s
    ensures s.text.after == [] ==> Fed(s, [27, 91, 67]) == s
    ensures |s.text.before| + |s.text.after| == 1024 ==> Fed(s, [b]) == s
    ensures s.history == [] || s.index == Some(0) ==> Fed(s, [27, 91, 65]) == s
    ensures s.index.None? ==> Fed(s, [27, 91, 66]) == s
  {
    FedCode(s, Left, [27, 91, 68]);
    FedCode(s, Backspace, [8]);
    FedCode(s, Backspace, [127]);
    FedCode(s, Right, [27, 91, 67]);
    FedCode(s, Text(b), [b]);
    FedCode(s, Up, [27, 91, 65]);
    FedCode(s, Down, [27, 91, 66]);
  }

  // ----- lines left unsubmitted

  /** Lines typed and left again with ESC [ A and ESC [ B. */
  function Drafted(drafts: seq<seq<byte>>): seq<byte> {
    if drafts == [] then []
    else Drafted(drafts[..|drafts| - 1]) + (drafts[|drafts| - 1] + [27, 91, 65, 27, 91, 66])
  }

  lemma KeysOfUpDown()
    ensures Keys(NoSequence, [27, 91, 65, 27, 91, 66]) == ([Up, Down], NoSequence)
  {
    KeysOfThree(27, 91, 65);
    KeysOfThree(27, 91, 66);
    KeysAppend(NoSequence, [27, 91, 65], [27, 91, 66]);
    assert [27, 91, 65] + [27, 91, 66] == [27, 91, 65, 27, 91, 66];
    assert [Up] + [Down] == [Up, Down];
  }

  lemma UpDown(history: seq<seq<byte>>, draft: seq<byte>)
    requires history != [] && draft != []
    ensures Press(Press(Editing(Edit(draft, []), history, None), Up), Down) == Idle(Recorded(history, draft, 20))
  {
    assert Line(Edit(draft, [])) == draft;
  }

  lemma UpDownFed(history: seq<seq<byte>>, draft: seq<byte>)
    requires Sound(Idle(history)) && history != [] && 0 < |draft| <= 1024
    ensures Sound(Editing(Edit(draft, []), history, None))
    ensures Fed(Editing(Edit(draft, []), history, None), [27, 91, 65, 27, 91, 66]) == Idle(Recorded(history, draft, 20))
  {
    var s := Editing(Edit(draft, []), history, None);
    KeysOfUpDown();
    PressMore(s, [], Up);
    PressMore(s, [Up], Down);
    assert PressAll(s, []) == s && [] + [Up] == [Up] && [Up] + [Down] == [Up, Down];
    UpDown(history, draft);
  }

  lemma DraftFed(history: seq<seq<byte>>, draft: seq<byte>)
    requires Sound(Idle(history)) && history != [] && IsText(draft) && 0 < |draft| <= 1024
    ensures Fed(Idle(history), draft + [27, 91, 65, 27, 91, 66]) == Idle(Recorded(history, draft, 20))
  {
    TextIsRead(draft);
    TypeText(Idle(history), draft);
    assert [] + draft == draft;
    FedThen(Idle(history), draft, Typed(draft), Editing(Edit(draft, []), history, None), [27, 91, 65, 27, 91, 66]);
    UpDownFed(history, draft);
  }

  function LastTwenty(lines: seq<seq<byte>>): seq<seq<byte>> {
    if |lines| <= 20 then lines else lines[|lines| - 20..]
  }

  lemma {:induction false} DraftedEnds(drafts: seq<seq<byte>>)
    requires AreLines(drafts)
    ensures Keys(NoSequence, Drafted(drafts)).1 == NoSequence
  {
    if drafts != [] {
      var init, draft := drafts[..|drafts| - 1], drafts[|drafts| - 1];
      DraftedEnds(init);
      TextIsRead(draft);
      KeysOfUpDown();
      KeysAppend(NoSequence, draft, [27, 91, 65, 27, 91, 66]);
      KeysAppend(NoSequence, Drafted(init), draft + [27, 91, 65, 27, 91, 66]);
    }
  }

  lemma RecordedLast(all: seq<seq<byte>>, line: seq<byte>)
    ensures Recorded(LastTwenty(all), line, 20) == LastTwenty(all + [line])
  {
  }

  /** Lines left unsubmitted enter the history too, which then holds the last twenty. */
  lemma {:induction false} DraftsAreKept(history: seq<seq<byte>>, drafts: seq<seq<byte>>)
    requires Sound(Idle(history)) && history != [] && AreLines(drafts)
    ensures Fed(Idle(history), Drafted(drafts)) == Idle(LastTwenty(history + drafts))
  {
    if drafts == [] {
      FedNothing(Idle(history));
      assert history + drafts == history;
    } else {
      var init, draft := drafts[..|drafts| - 1], drafts[|drafts| - 1];
      DraftsAreKept(history, init);
      DraftedEnds(init);
      AnotherDraft(Idle(history), Drafted(init), LastTwenty(history + init), draft, Drafted(drafts));
      RecordedLast(history + init, draft);
      Extended(history, drafts);
    }
  }

  lemma Extended<T>(a: seq<T>, b: seq<T>)
    requires b != []
    ensures a + b[..|b| - 1] + [b[|b| - 1]] == a + b
  {}

  lemma AnotherDraft(s: Editing, input: seq<byte>, kept: seq<seq<byte>>, draft: seq<byte>, input': seq<byte>)
    requires Sound(s) && Fed(s, input) == Idle(kept) && Keys(NoSequence, input).1 == NoSequence
    requires kept != [] && IsText(draft) && 0 < |draft| <= 1024
    requires input' == input + (draft + [27, 91, 65, 27, 91, 66])
    ensures Fed(s, input') == Idle(Recorded(kept, draft, 20))
  {
    FedThen(s, input, Keys(NoSequence, input).0, Idle(kept), draft + [27, 91, 65, 27, 91, 66]);
    DraftFed(kept, draft);
  }

  /** After lines sent and lines left unsubmitted, the history holds the last twenty of both. */
  lemma SentAndDraftedLines(lines: seq<seq<byte>>, drafts: seq<seq<byte>>)
    requires AreLines(lines) && NoRepeats(lines) && 0 < |lines| <= 16 && AreLines(drafts)
    ensures Sound(START)
    ensures Fed(START, Sent(lines) + Drafted(drafts)) == Idle(LastTwenty(lines + drafts))
  {
    CondensedIsAll(lines);
    SentLines(lines, lines, Drafted(drafts));
    DraftsAreKept(lines, drafts);
  }

  // ----- input that is shown

  lemma {:induction false} PlainAppend(p: Pending, a: seq<byte>, b: seq<byte>)
    ensures Plain(p, a + b) <==> Plain(p, a) && Plain(Keys(p, a).1, b)
    decreases |b|
  {
    if b == [] {
      assert a + b == a;
    } else {
      var init := b[..|b| - 1];
      PlainAppend(p, a, init);
      KeysAppend(p, a, init);
      assert (a + b)[..|a + b| - 1] == a + init && (a + b)[|a + b| - 1] == b[|b| - 1];
    }
  }

  predicate IsShown(key: Key) {
    match key
    case Text(b) => 32 <= b <= 126
    case Enter => false
    case _ => true
  }

  lemma PlainCode(key: Key, code: seq<byte>)
    requires IsCode(key, code) && IsShown(key)
    ensures Plain(NoSequence, code)
  {
    assert Plain(NoSequence, []) && Keys(NoSequence, []) == ([], NoSequence);
    if |code| == 1 {
      assert code[..0] == [];
    } else {
      var a, b, c := code[0], code[1], code[2];
      assert code[..1] == [a] && code[..2] == [a, b] && code[..1][..0] == [] && code[..2][..1] == [a];
      assert Keys(NoSequence, [a]).1 == Started && Plain(NoSequence, [a]);
      assert Keys(NoSequence, [a, b]).1 == Bracketed && Plain(NoSequence, [a, b]);
    }
  }

  /** Arrows, backspaces and the bytes 32 to 126 make an input that the terminal row follows. */
  lemma {:induction false} ShownKeysArePlain(keys: seq<Key>, codes: seq<seq<byte>>)
    requires AreCodes(keys, codes) && forall i :: 0 <= i < |keys| ==> IsShown(keys[i])
    ensures Plain(NoSequence, Flat(codes))
  {
    if keys != [] {
      var n := |keys| - 1;
      ShownKeysArePlain(keys[..n], codes[..n]);
      CodesAreRead(keys[..n], codes[..n]);
      PlainCode(keys[n], codes[n]);
      PlainAppend(NoSequence, Flat(codes[..n]), codes[n]);
    }
  }
}
