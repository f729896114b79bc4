/** The byte-driven line editor of the SSH shell. */
module LineEditor {
  import opened Common
  import opened Terminal
  import opened Editing

  /** `output`, received by a row wide enough that shows `s`, makes it show `s'`. */
  ghost predicate Shows(s: Editing, s': Editing, output: seq<byte>, width: nat) {
    |Line(s.text)| <= MAX_LINE < width && |Line(s'.text)| <= MAX_LINE ==>
      ReceiveAll(Shown(s.text, width), output) == Shown(s'.text, width)
  }

  /** The key an input byte stands for outside an escape sequence. */
  function KeyOf(b: byte): Key {
    if b == 13 || b == 10 then Enter
    else if b == 8 || b == 127 then Backspace
    else Text(b)
  }

  /** The key of the sequence ESC [ b. */
  function SpecialKey(b: byte): Key {
    if b == 65 then Up else if b == 66 then Down else if b == 67 then Right else if b == 68 then Left else Other
  }

  // ----- from bytes to keys

  /** What was read of an escape sequence: nothing, ESC, ESC [, or ESC and a byte that is not [. */
  datatype Pending = NoSequence | Started | Bracketed | Stray(b: byte)

  /** One byte more: what is pending then, and the key it completed. */
  function Decode(p: Pending, b: byte): (Pending, Option<Key>) {
    match p
    case NoSequence => if b == ESCAPE then (Started, None) else (NoSequence, Some(KeyOf(b)))
    case Started => if b == BRACKET then (Bracketed, None) else (Stray(b), None)
    case Bracketed => (NoSequence, Some(SpecialKey(b)))
    case Stray(_) => (NoSequence, None)
  }

  function PressDecoded(s: Editing, key: Option<Key>): Editing
    requires WellIndexed(s)
  {
    if key.Some? then Press(s, key.value) else s
  }

  /** The keys of a whole input, and what is pending at its end. */
  function Keys(p: Pending, input: seq<byte>): (seq<Key>, Pending) {
    if input == [] then ([], p)
    else
      var (keys, q) := Keys(p, input[..|input| - 1]);
      var (q', key) := Decode(q, input[|input| - 1]);
      (keys + if key.Some? then [key.value] else [], q')
  }

  /** A printable byte, a backspace, or part of a sequence ESC [ x. */
  predicate PlainByte(p: Pending, b: byte) {
    match p
    case NoSequence => Printable(b) || b == 8 || b == 127 || b == ESCAPE
    case Started => b == BRACKET
    case Bracketed => true
    case Stray(_) => false
  }

  /** The input holds printable bytes, backspaces and sequences ESC [ x only. */
  predicate Plain(p: Pending, input: seq<byte>) {
    input == [] || (Plain(p, input[..|input| - 1]) && PlainByte(Keys(p, input[..|input| - 1]).1, input[|input| - 1]))
  }

  lemma InputStep(s: Editing, p: Pending, input: seq<byte>, i: nat)
    requires Sound(s) && i < |input|
    ensures
      var (keys, q) := Keys(p, input[..i]);
      && Keys(p, input[..i + 1]).1 == Decode(q, input[i]).0
      && PressAll(s, Keys(p, input[..i + 1]).0) == PressDecoded(PressAll(s, keys), Decode(q, input[i]).1)
      && Plain(p, input[..i + 1]) == (Plain(p, input[..i]) && PlainByte(q, input[i]))
  {
    assert input[..i + 1][..i] == input[..i];
    var (keys, q) := Keys(p, input[..i]);
    var key := Decode(q, input[i]).1;
    if key.Some? {
      assert (keys + [key.value])[..|keys|] == keys;
    } else {
      assert keys + [] == keys;
    }
  }

  lemma PlainStepKeepsClean(s: Editing, p: Pending, b: byte)
    requires WellIndexed(s) && Clean(s) && PlainByte(p, b)
    ensures Clean(PressDecoded(s, Decode(p, b).1))
  {
    if Decode(p, b).1.Some? {
      PressKeepsClean(s, Decode(p, b).1.value);
    }
  }

  lemma ShowsThen(s: Editing, t: Editing, u: Editing, first: seq<byte>, second: seq<byte>, width: nat)
    requires Sound(s) && Sound(t) && Sound(u) && Shows(s, t, first, width) && Shows(t, u, second, width)
    ensures Shows(s, u, first + second, width)
  {
    if MAX_LINE < width {
      ReceiveAppend(Shown(s.text, width), first, second);
    }
  }

  class LineEditor {
    var currentLine: seq<byte>
    var cursorPos: nat
    var commandHistory: seq<seq<byte>>
    var historyIndex: Option<nat>

    var escapeSequence: bool
    var cursorSequence: bool
    var sequenceBuffer: seq<byte>

    ghost function State(): Editing
      requires cursorPos <= |currentLine|
      reads this
    {
      Editing(Edit(currentLine[..cursorPos], currentLine[cursorPos..]), commandHistory, historyIndex)
    }

    ghost predicate Valid()
      reads this
    {
      && cursorPos <= |currentLine|
      && Sound(State())
    }

    lemma LineIsCurrent()
      requires cursorPos <= |currentLine|
      ensures Line(State().text) == currentLine
    {
    }

    /** Replaces the line by the recalled one, on the screen and in the editor. */
    method Recall(index: nat, ghost width: nat) returns (output: seq<byte>)
      requires cursorPos <= |currentLine| && index < |commandHistory| && |commandHistory[index]| <= MAX_LINE
      modifies this`currentLine, this`cursorPos, this`historyIndex
      ensures cursorPos <= |currentLine| && State() == Recalled(old(State()), commandHistory, index)
      ensures AllPrintable(commandHistory[index]) ==> Shows(old(State()), State(), output, width)
    {
      historyIndex := Some(index);
      var historyCmd := commandHistory[index];
      output := [RETURN] + [ESCAPE, BRACKET, 50, ERASE] + historyCmd;
      ghost var text := State().text;
      currentLine := historyCmd;
      cursorPos := |currentLine|;
      if AllPrintable(historyCmd) && MAX_LINE < width && |Line(text)| <= MAX_LINE {
        ShowRecall(text, historyCmd, width);
      }
    }

    /** The first step up records the line being edited, and starts from the last entry. */
    method StartRecall() returns (index: nat)
      requires commandHistory != []
      modifies this`commandHistory
      ensures commandHistory == if currentLine == [] then old(commandHistory) else Recorded(old(commandHistory), currentLine, 20)
      ensures commandHistory != [] && index == |commandHistory| - 1
    {
      if currentLine != [] {
        if |commandHistory| >= 20 {
          commandHistory := commandHistory[1..];
        }
        commandHistory := commandHistory + [currentLine];
      }
      index := |commandHistory| - 1;
    }

    method HandleUp(ghost width: nat) returns (output: seq<byte>)
      requires Valid()
      modifies this`currentLine, this`cursorPos, this`commandHistory, this`historyIndex
      ensures Valid() && State() == Press(old(State()), Up)
      ensures Clean(old(State())) ==> Shows(old(State()), State(), output, width)
      ensures old(commandHistory) == [] || old(historyIndex) == Some(0) ==> output == [7]
    {
      PressKeepsSound(State(), Up);
      LineIsCurrent();
      if Clean(State()) {
        PressKeepsClean(State(), Up);
      }
      if commandHistory != [] && (historyIndex.None? || historyIndex.value > 0) {
        var index;
        if historyIndex.None? {
          index := StartRecall();
        } else {
          index := historyIndex.value - 1;
        }
        output := Recall(index, width);
      } else {
        if MAX_LINE < width {
          ShowBell(State().text, width);
        }
        output := [BELL];
      }
    }

    method HandleDown(ghost width: nat) returns (output: seq<byte>)
      requires Valid()
      modifies this`currentLine, this`cursorPos, this`historyIndex
      ensures Valid() && State() == Press(old(State()), Down)
      ensures Clean(old(State())) ==> Shows(old(State()), State(), output, width)
      ensures old(historyIndex).None? ==> output == [7]
    {
      PressKeepsSound(State(), Down);
      if historyIndex.Some? {
        if historyIndex.value < |commandHistory| - 1 {
          output := Recall(historyIndex.value + 1, width);
        } else {
          output := [RETURN] + [ESCAPE, BRACKET, 50, ERASE];
          if MAX_LINE < width {
            ShowRecall(State().text, [], width);
            assert output + [] == output;
          }
          historyIndex := None;
          currentLine := [];
          cursorPos := 0;
        }
      } else {
        if MAX_LINE < width {
          ShowBell(State().text, width);
        }
        output := [BELL];
      }
    }

    method HandleRight(ghost width: nat) returns (output: seq<byte>)
      requires Valid()
      modifies this`cursorPos
      ensures Valid() && State() == Press(old(State()), Right)
      ensures Shows(old(State()), State(), output, width)
      ensures old(cursorPos) == |currentLine| ==> output == [7]
    {
      PressKeepsSound(State(), Right);
      if MAX_LINE < width {
        ShowArrow(State().text, width);
        ShowBell(State().text, width);
      }
      if cursorPos < |currentLine| {
        assert currentLine[..cursorPos + 1] == currentLine[..cursorPos] + [currentLine[cursorPos]];
        cursorPos := cursorPos + 1;
        output := [ESCAPE, BRACKET, FORWARD];
      } else {
        output := [BELL];
      }
    }

    method HandleLeft(ghost width: nat) returns (output: seq<byte>)
      requires Valid()
      modifies this`cursorPos
      ensures Valid() && State() == Press(old(State()), Left)
      ensures Shows(old(State()), State(), output, width)
      ensures old(cursorPos) == 0 ==> output == [7]
    {
      PressKeepsSound(State(), Left);
      if MAX_LINE < width {
        ShowArrow(State().text, width);
        ShowBell(State().text, width);
      }
      if cursorPos > 0 {
        assert currentLine[cursorPos - 1..] == [currentLine[cursorPos - 1]] + currentLine[cursorPos..];
        assert currentLine[..cursorPos][..cursorPos - 1] == currentLine[..cursorPos - 1];
        cursorPos := cursorPos - 1;
        output := [ESCAPE, BRACKET, BACKWARD];
      } else {
        output := [BELL];
      }
    }

    method HandleSpecialKeys(b: byte, ghost width: nat) returns (output: seq<byte>)
      requires Valid()
      modifies this`currentLine, this`cursorPos, this`commandHistory, this`historyIndex
      ensures Valid() && State() == Press(old(State()), SpecialKey(b))
      ensures Clean(old(State())) ==> Shows(old(State()), State(), output, width)
    {
      if b == 65 {
        output := HandleUp(width);
      } else if b == 66 {
        output := HandleDown(width);
      } else if b == 67 {
        output := HandleRight(width);
      } else if b == 68 {
        output := HandleLeft(width);
      } else {
        output := [];
      }
    }

    /** The line is submitted. What the server then writes is not part of this model. */
    method HandleEnter(ghost width: nat) returns (output: seq<byte>)
      requires Valid()
      modifies this`currentLine, this`cursorPos, this`commandHistory, this`historyIndex
      ensures Valid() && State() == Press(old(State()), Enter)
      ensures old(currentLine) == [] ==> Shows(old(State()), State(), output, width)
    {
      PressKeepsSound(State(), Enter);
      LineIsCurrent();
      if currentLine != [] {
        if commandHistory != [] && commandHistory[|commandHistory| - 1] != currentLine {
          if |commandHistory| >= 16 {
            commandHistory := commandHistory[1..];
          }
          commandHistory := commandHistory + [currentLine];
        } else if commandHistory == [] {
          commandHistory := commandHistory + [currentLine];
        }
        historyIndex := None;
        currentLine := [];
        cursorPos := 0;
      }
      output := [];
    }

    method HandleBackspace(ghost width: nat) returns (output: seq<byte>)
      requires Valid()
      modifies this`currentLine, this`cursorPos
      ensures Valid() && State() == Press(old(State()), Backspace)
      ensures Clean(old(State())) ==> Shows(old(State()), State(), output, width)
      ensures old(cursorPos) == 0 ==> output == [7]
    {
      PressKeepsSound(State(), Backspace);
      if cursorPos > 0 {
        if cursorPos < |currentLine| {
          output := EraseInside(width);
        } else {
          if MAX_LINE < width {
            ShowEraseLast(State().text.before, width);
          }
          assert currentLine[..cursorPos][..cursorPos - 1] == currentLine[..cursorPos - 1];
          currentLine := currentLine[..|currentLine| - 1];
          cursorPos := cursorPos - 1;
          output := [BACKSPACE, BLANK, BACKSPACE];
        }
      } else {
        if MAX_LINE < width {
          ShowBell(State().text, width);
        }
        output := [BELL];
      }
    }

    /** A backspace before the end of the line rewrites what follows. */
    method EraseInside(ghost width: nat) returns (output: seq<byte>)
      requires Valid() && 0 < cursorPos < |currentLine|
      modifies this`currentLine, this`cursorPos
      ensures cursorPos <= |currentLine| && State() == Press(old(State()), Backspace)
      ensures Clean(old(State())) ==> Shows(old(State()), State(), output, width)
    {
      ghost var text := State().text;
      if AllPrintable(text.after) && |Line(text)| <= MAX_LINE < width {
        ShowErase(text, width);
      }
      RemoveBefore();
      var rest := RewriteRest();
      output := [BACKSPACE] + [ESCAPE, BRACKET, ERASE] + rest;
    }

    /** The line from the cursor on, and the way back to the cursor. */
    method RewriteRest() returns (output: seq<byte>)
      requires cursorPos <= |currentLine|
      ensures output == Rest(currentLine[cursorPos..])
    {
      output := currentLine[cursorPos..];
      if cursorPos < |currentLine| {
        output := output + CursorBack(|currentLine| - cursorPos);
      }
    }

    method RemoveBefore()
      requires 0 < cursorPos <= |currentLine|
      modifies this`currentLine, this`cursorPos
      ensures cursorPos == old(cursorPos) - 1 <= |currentLine|
      ensures currentLine[..cursorPos] == old(currentLine[..cursorPos])[..cursorPos]
      ensures currentLine[cursorPos..] == old(currentLine[cursorPos..])
    {
      currentLine := currentLine[..cursorPos - 1] + currentLine[cursorPos..];
      cursorPos := cursorPos - 1;
    }

    method HandleText(b: byte, ghost width: nat) returns (output: seq<byte>)
      requires Valid()
      modifies this`currentLine, this`cursorPos
      ensures Valid() && State() == Press(old(State()), Text(b))
      ensures Clean(old(State())) && Printable(b) ==> Shows(old(State()), State(), output, width)
      ensures |old(currentLine)| == 1024 ==> output == [7]
    {
      PressKeepsSound(State(), Text(b));
      LineIsCurrent();
      if |currentLine| < MAX_LINE {
        output := Insert(b, width);
      } else {
        if MAX_LINE < width {
          ShowBell(State().text, width);
        }
        output := [BELL];
      }
    }

    /** A byte typed where the line has room. */
    method Insert(b: byte, ghost width: nat) returns (output: seq<byte>)
      requires cursorPos <= |currentLine| < MAX_LINE
      modifies this`currentLine, this`cursorPos
      ensures cursorPos <= |currentLine|
      ensures State() == old(State()).(text := Edit(old(State()).text.before + [b], old(State()).text.after))
      ensures Clean(old(State())) && Printable(b) ==> Shows(old(State()), State(), output, width)
    {
      ghost var text := State().text;
      if AllPrintable(text.after) && Printable(b) && MAX_LINE < width {
        ShowInsert(text, b, width);
      }
      if cursorPos < |currentLine| {
        InsertInside(b);
        var rest := RewriteRest();
        output := [b] + rest;
      } else {
        Append(b);
        output := [b];
        assert [b] + Rest([]) == [b];
      }
    }

    method InsertInside(b: byte)
      requires cursorPos < |currentLine|
      modifies this`currentLine, this`cursorPos
      ensures cursorPos == old(cursorPos) + 1 <= |currentLine|
      ensures currentLine[..cursorPos] == old(currentLine[..cursorPos]) + [b]
      ensures currentLine[cursorPos..] == old(currentLine[cursorPos..])
    {
      currentLine := currentLine[..cursorPos] + [b] + currentLine[cursorPos..];
      cursorPos := cursorPos + 1;
    }

    method Append(b: byte)
      requires cursorPos == |currentLine|
      modifies this`currentLine, this`cursorPos
      ensures cursorPos == old(cursorPos) + 1 == |currentLine|
      ensures currentLine[..cursorPos] == old(currentLine[..cursorPos]) + [b]
      ensures currentLine[cursorPos..] == [] == old(currentLine[cursorPos..])
    {
      currentLine := currentLine + [b];
      cursorPos := cursorPos + 1;
    }

    method HandleInputByte(b: byte, ghost width: nat) returns (output: seq<byte>)
      requires Valid()
      modifies this`currentLine, this`cursorPos, this`commandHistory, this`historyIndex
      ensures Valid() && State() == Press(old(State()), KeyOf(b))
      ensures Clean(old(State())) && (Printable(b) || KeyOf(b) == Backspace) ==> Shows(old(State()), State(), output, width)
    {
      if b == 13 || b == 10 {
        output := HandleEnter(width);
      } else if b == 8 || b == 127 {
        output := HandleBackspace(width);
      } else {
        output := HandleText(b, width);
      }
    }

    // ----- the escape parser

    /** What the three escape fields stand for. */
    ghost function Flags(): Pending
      reads this`escapeSequence, this`cursorSequence, this`sequenceBuffer
    {
      if !escapeSequence then NoSequence
      else if sequenceBuffer == [] then Started
      else if cursorSequence then Bracketed
      else Stray(sequenceBuffer[0])
    }

    ghost predicate FlagsValid()
      reads this`escapeSequence, this`cursorSequence, this`sequenceBuffer
    {
      && (cursorSequence ==> escapeSequence && sequenceBuffer == [BRACKET])
      && |sequenceBuffer| <= 1
      && (!escapeSequence ==> sequenceBuffer == [])
    }

    constructor ()
      ensures Valid() && FlagsValid()
      ensures State() == Editing(Edit([], []), [], None) && Flags() == NoSequence
    {
      currentLine, cursorPos, commandHistory, historyIndex := [], 0, [], None;
      escapeSequence, cursorSequence, sequenceBuffer := false, false, [];
    }

    /** The loop body: one byte of input. */
    method HandleByte(b: byte, ghost width: nat) returns (output: seq<byte>)
      requires Valid() && FlagsValid()
      modifies this
      ensures Valid() && FlagsValid()
      ensures Flags() == Decode(old(Flags()), b).0
      ensures State() == PressDecoded(old(State()), Decode(old(Flags()), b).1)
      ensures Clean(old(State())) && PlainByte(old(Flags()), b) ==> Shows(old(State()), State(), output, width)
    {
      output := [];
      if escapeSequence {
        sequenceBuffer := sequenceBuffer + [b];
        if b == BRACKET && |sequenceBuffer| == 1 {
          cursorSequence := true;
        } else if cursorSequence && |sequenceBuffer| == 2 {
          output := HandleSpecialKeys(b, width);
          escapeSequence := false;
          cursorSequence := false;
          sequenceBuffer := [];
        } else if |sequenceBuffer| >= 3 || (!cursorSequence && |sequenceBuffer| >= 2) {
          output := [ESCAPE] + sequenceBuffer;
          escapeSequence := false;
          cursorSequence := false;
          sequenceBuffer := [];
        }
      } else if b == ESCAPE {
        escapeSequence := true;
        sequenceBuffer := [];
      } else {
        output := HandleInputByte(b, width);
      }
    }

    /** One read from the session: the bytes in turn. The editor does what the keys of the input say,
        and what it writes keeps the terminal row showing the line and the cursor. */
    method HandleInput(input: seq<byte>, ghost width: nat) returns (output: seq<byte>)
      requires Valid() && FlagsValid()
      modifies this
      ensures Valid() && FlagsValid()
      ensures Flags() == Keys(old(Flags()), input).1
      ensures State() == PressAll(old(State()), Keys(old(Flags()), input).0)
      ensures Clean(old(State())) && Plain(old(Flags()), input) ==> Clean(State()) && Shows(old(State()), State(), output, width)
    {
      output := [];
      for i := 0 to |input|
        invariant Valid() && FlagsValid()
        invariant Flags() == Keys(old(Flags()), input[..i]).1
        invariant State() == PressAll(old(State()), Keys(old(Flags()), input[..i]).0)
        invariant Clean(old(State())) && Plain(old(Flags()), input[..i]) ==> Clean(State()) && Shows(old(State()), State(), output, width)
      {
        ghost var s, flags := State(), Flags();
        InputStep(old(State()), old(Flags()), input, i);
        var written := HandleByte(input[i], width);
        if Clean(s) && PlainByte(flags, input[i]) {
          PlainStepKeepsClean(s, flags, input[i]);
          if Shows(old(State()), s, output, width) {
            ShowsThen(old(State()), s, State(), output, written, width);
          }
        }
        output := output + written;
      }
      assert input[..|input|] == input;
    }
  }
}
