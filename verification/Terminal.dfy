/** One row of a terminal that interprets the control functions of ECMA-48 the shell emits: BS and CR,
    CUB, CUF and EL. */
module Terminal {
  import opened Common

  const BLANK: byte := 32
  const BELL: byte := 7
  const BACKSPACE: byte := 8
  const RETURN: byte := 13
  const ESCAPE: byte := 27
  const BRACKET: byte := 91
  const FORWARD: byte := 67
  const BACKWARD: byte := 68
  const ERASE: byte := 75

  datatype Parser = Ground | Escape | Control(param: nat)

  /** The cells of the row, the column of the cursor, and what was read of a control sequence. */
  datatype Row = Row(cells: seq<byte>, col: nat, parser: Parser)

  predicate Printable(b: byte) {
    32 <= b < 127
  }

  ghost predicate AllPrintable(text: seq<byte>) {
    forall i :: 0 <= i < |text| ==> Printable(text[i])
  }

  function Blanks(n: nat): seq<byte> {
    seq(n, _ => BLANK)
  }

  /** The line written from the left margin of a blank row of `width` cells. */
  function Padded(line: seq<byte>, width: nat): seq<byte>
    requires |line| <= width
  {
    line + Blanks(width - |line|)
  }

  /** ERASE IN LINE: 0 erases from the cursor on, 1 up to it, 2 everything. */
  function Erased(r: Row, param: nat): seq<byte>
    requires r.col <= |r.cells|
  {
    if param == 0 then r.cells[..r.col] + Blanks(|r.cells| - r.col)
    else if param == 1 && r.col < |r.cells| then Blanks(r.col + 1) + r.cells[r.col + 1..]
    else if param == 2 then Blanks(|r.cells|)
    else r.cells
  }

  function Least(a: nat, b: nat): nat {
    if a < b then a else b
  }

  /** A control sequence ends with `final`. */
  function Controlled(r: Row, param: nat, final: byte): Row
    requires r.col <= |r.cells|
  {
    var count := if param == 0 then 1 else param;
    var done := r.(parser := Ground);
    if final == FORWARD then done.(col := Least(r.col + count, |r.cells|))
    else if final == BACKWARD then done.(col := r.col - Least(r.col, count))
    else if final == ERASE then done.(cells := Erased(r, param))
    else done
  }

  /** The row after one byte. */
  function Receive(r: Row, b: byte): (r': Row)
    requires r.col <= |r.cells|
    ensures r'.col <= |r'.cells| == |r.cells|
  {
    match r.parser
    case Ground =>
      if b == ESCAPE then r.(parser := Escape)
      else if b == BACKSPACE then r.(col := r.col - Least(r.col, 1))
      else if b == RETURN then r.(col := 0)
      else if Printable(b) && r.col < |r.cells| then r.(cells := r.cells[r.col := b], col := r.col + 1)
      else r
    case Escape => r.(parser := if b == BRACKET then Control(0) else Ground)
    case Control(param) =>
      if 48 <= b < 58 then r.(parser := Control(param * 10 + (b - 48))) else Controlled(r, param, b)
  }

  function ReceiveAll(r: Row, bytes: seq<byte>): (r': Row)
    requires r.col <= |r.cells|
    ensures r'.col <= |r'.cells| == |r.cells|
  {
    if bytes == [] then r else Receive(ReceiveAll(r, bytes[..|bytes| - 1]), bytes[|bytes| - 1])
  }

  lemma {:induction false} ReceiveAppend(r: Row, a: seq<byte>, b: seq<byte>)
    requires r.col <= |r.cells|
    ensures ReceiveAll(r, a + b) == ReceiveAll(ReceiveAll(r, a), b)
    decreases |b|
  {
    if b == [] {
      assert a + b == a;
    } else {
      ReceiveAppend(r, a, b[..|b| - 1]);
      assert (a + b)[..|a + b| - 1] == a + b[..|b| - 1];
    }
  }

  /** Text overwrites the cells from the cursor on. */
  lemma {:induction false} ReceiveText(r: Row, text: seq<byte>)
    requires r.parser == Ground && AllPrintable(text) && r.col + |text| <= |r.cells|
    ensures ReceiveAll(r, text) == r.(cells := r.cells[..r.col] + text + r.cells[r.col + |text|..], col := r.col + |text|)
  {
    if text == [] {
      assert r.cells[..r.col] + text + r.cells[r.col..] == r.cells;
    } else {
      var init := text[..|text| - 1];
      ReceiveText(r, init);
      assert (r.cells[..r.col] + init + r.cells[r.col + |init|..])[r.col + |init| := text[|init|]]
          == r.cells[..r.col] + text + r.cells[r.col + |text|..];
    }
  }

  /** A number in decimal digits, as bytes. */
  function DecimalBytes(n: nat): seq<byte> {
    seq(|Decimal(n)|, i requires 0 <= i < |Decimal(n)| => (assert IsDigit(Decimal(n)[i]); Decimal(n)[i] as int))
  }

  lemma DecimalBytesStep(n: nat)
    ensures DecimalBytes(n) == (if n < 10 then [] else DecimalBytes(n / 10)) + [48 + n % 10]
  {
  }

  /** The parameter of a control sequence reads back the number written. */
  lemma {:induction false} ReceiveDecimal(r: Row, n: nat)
    requires r.parser == Control(0) && r.col <= |r.cells|
    ensures ReceiveAll(r, DecimalBytes(n)) == r.(parser := Control(n))
  {
    DecimalBytesStep(n);
    if n < 10 {
      assert ReceiveAll(r, []) == r;
    } else {
      ReceiveDecimal(r, n / 10);
    }
  }

  /** The sequence that moves the cursor `count` columns back. */
  function CursorBack(count: nat): seq<byte> {
    [ESCAPE, BRACKET] + DecimalBytes(count) + [BACKWARD]
  }

  lemma ReceiveCursorBack(r: Row, count: nat)
    requires r.parser == Ground && 0 < count <= r.col <= |r.cells|
    ensures ReceiveAll(r, CursorBack(count)) == r.(col := r.col - count)
  {
    ReceiveTwo(r, ESCAPE, BRACKET);
    var open := r.(parser := Control(0));
    ReceiveDecimal(open, count);
    ReceiveAppend(r, [ESCAPE, BRACKET], DecimalBytes(count));
    var init := [ESCAPE, BRACKET] + DecimalBytes(count);
    assert CursorBack(count)[..|init|] == init;
  }

  lemma ReceiveOne(r: Row, a: byte)
    requires r.col <= |r.cells|
    ensures ReceiveAll(r, [a]) == Receive(r, a)
  {
    assert ReceiveAll(r, []) == r;
  }

  lemma ReceiveTwo(r: Row, a: byte, b: byte)
    requires r.col <= |r.cells|
    ensures ReceiveAll(r, [a, b]) == Receive(Receive(r, a), b)
  {
    ReceiveOne(r, a);
    assert [a, b][..1] == [a];
  }

  lemma ReceiveThree(r: Row, a: byte, b: byte, c: byte)
    requires r.col <= |r.cells|
    ensures ReceiveAll(r, [a, b, c]) == Receive(Receive(Receive(r, a), b), c)
  {
    ReceiveTwo(r, a, b);
    assert [a, b, c][..2] == [a, b];
  }

  /** ERASE IN LINE without a parameter blanks the cells from the cursor on. */
  lemma ReceiveEraseRest(r: Row)
    requires r.parser == Ground && r.col <= |r.cells|
    ensures ReceiveAll(r, [ESCAPE, BRACKET, ERASE]) == r.(cells := r.cells[..r.col] + Blanks(|r.cells| - r.col))
  {
    ReceiveThree(r, ESCAPE, BRACKET, ERASE);
  }

  /** ERASE IN LINE with parameter 2 blanks the row. */
  lemma ReceiveEraseRow(r: Row)
    requires r.parser == Ground && r.col <= |r.cells|
    ensures ReceiveAll(r, [ESCAPE, BRACKET, 50, ERASE]) == r.(cells := Blanks(|r.cells|))
  {
    var begun := r.(parser := Control(0));
    ReceiveTwo(r, ESCAPE, BRACKET);
    ReceiveTwo(begun, 50, ERASE);
    ReceiveAppend(r, [ESCAPE, BRACKET], [50, ERASE]);
    assert [ESCAPE, BRACKET] + [50, ERASE] == [ESCAPE, BRACKET, 50, ERASE];
  }

  /** The bytes that move the cursor: BS, ESC [ D, ESC [ C and CR. */
  lemma CursorBytes(r: Row)
    requires r.parser == Ground && r.col <= |r.cells|
    ensures r.col > 0 ==> ReceiveAll(r, [8]) == ReceiveAll(r, [27, 91, 68]) == r.(col := r.col - 1)
    ensures r.col < |r.cells| ==> ReceiveAll(r, [27, 91, 67]) == r.(col := r.col + 1)
    ensures ReceiveAll(r, [13]) == r.(col := 0)
  {
    ReceiveOne(r, 8);
    ReceiveOne(r, 13);
    ReceiveThree(r, 27, 91, 67);
    ReceiveThree(r, 27, 91, 68);
  }

  /** The sequences that erase: ESC [ K and ESC [ 2 K. */
  lemma ErasingBytes(r: Row)
    requires r.parser == Ground && r.col <= |r.cells|
    ensures ReceiveAll(r, [27, 91, 75]) == r.(cells := r.cells[..r.col] + Blanks(|r.cells| - r.col))
    ensures ReceiveAll(r, [27, 91, 50, 75]) == r.(cells := Blanks(|r.cells|))
  {
    ReceiveEraseRest(r);
    ReceiveEraseRow(r);
  }

  /** A printable byte overwrites a cell, and BEL none. */
  lemma WrittenByte(r: Row, b: byte)
    requires r.parser == Ground && r.col <= |r.cells|
    ensures ReceiveAll(r, [7]) == r
    ensures 32 <= b <= 126 && r.col < |r.cells| ==> ReceiveAll(r, [b]) == r.(cells := r.cells[r.col := b], col := r.col + 1)
  {
    ReceiveOne(r, 7);
    ReceiveOne(r, b);
  }

  /** The sequence back is ESC [, the count in decimal digits, and D. */
  lemma CursorBackBytes(count: nat)
    ensures CursorBack(count) == [27, 91] + DecimalBytes(count) + [68]
    ensures DecimalBytes(count) == (if count < 10 then [] else DecimalBytes(count / 10)) + [48 + count % 10]
  {
    DecimalBytesStep(count);
  }
}
