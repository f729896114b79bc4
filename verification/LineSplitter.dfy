/** Cutting the raw output of a container into lines. */
module LineSplitter {
  import opened Common

  const NEWLINE: byte := 10
  const MAX_LINE: nat := 512

  /** One line cut from the stream, and whether a newline ended it. */
  datatype Cut = Cut(line: seq<byte>, terminated: bool)

  /** The index of the first newline, or the length where there is none. */
  function FirstNewline(s: seq<byte>): (k: nat)
    ensures k <= |s| && (k < |s| ==> s[k] == NEWLINE)
    ensures forall j :: 0 <= j < k ==> s[j] != NEWLINE
  {
    if s == [] || s[0] == NEWLINE then 0 else 1 + FirstNewline(s[1..])
  }

  /** Is there enough of `s` to cut a line off? */
  predicate Cuttable(s: seq<byte>) {
    (FirstNewline(s) < |s| && FirstNewline(s) <= MAX_LINE) || |s| > MAX_LINE
  }

  /** The first line of `s`: up to a newline within 512 bytes, else 512 bytes. */
  function FirstCut(s: seq<byte>): (cut: Cut)
    requires Cuttable(s)
  {
    var k := FirstNewline(s);
    if k < |s| && k <= MAX_LINE then Cut(s[..k], true) else Cut(s[..MAX_LINE], false)
  }

  /** The bytes a cut took from the stream, its newline included. */
  function Consumed(cut: Cut): seq<byte> {
    cut.line + if cut.terminated then [10] else []
  }

  function AfterFirst(s: seq<byte>): (rest: seq<byte>)
    requires Cuttable(s)
    ensures |rest| < |s| && s == Consumed(FirstCut(s)) + rest
  {
    s[|Consumed(FirstCut(s))|..]
  }

  /** All lines of the stream `s`, and what is left pending. */
  function Cuts(s: seq<byte>): seq<Cut>
    decreases |s|
  {
    if Cuttable(s) then [FirstCut(s)] + Cuts(AfterFirst(s)) else []
  }

  function Tail(s: seq<byte>): seq<byte>
    decreases |s|
  {
    if Cuttable(s) then Tail(AfterFirst(s)) else s
  }

  lemma CutsUnfold(s: seq<byte>)
    requires Cuttable(s)
    ensures Cuts(s) == [FirstCut(s)] + Cuts(AfterFirst(s)) && Tail(s) == Tail(AfterFirst(s))
  {
  }

  lemma Associative<T>(a: seq<T>, b: seq<T>, c: seq<T>)
    ensures (a + b) + c == a + (b + c)
  {
  }

  function Concat(chunks: seq<seq<byte>>): seq<byte> {
    if chunks == [] then [] else Concat(chunks[..|chunks| - 1]) + chunks[|chunks| - 1]
  }

  // ----- the cuts do not depend on how the stream arrives

  lemma FirstCutAppend(s: seq<byte>, t: seq<byte>)
    requires Cuttable(s)
    ensures Cuttable(s + t) && FirstCut(s + t) == FirstCut(s) && AfterFirst(s + t) == AfterFirst(s) + t
  {
    var k, k' := FirstNewline(s), FirstNewline(s + t);
    assert forall j :: 0 <= j < |s| ==> (s + t)[j] == s[j];
    if k < |s| {
      assert k' == k;
    } else {
      assert k' >= |s|;
    }
  }

  /** Cutting a prefix first and the rest later gives the same lines. */
  lemma {:induction false} CutsAppend(s: seq<byte>, t: seq<byte>)
    ensures Cuts(s + t) == Cuts(s) + Cuts(Tail(s) + t)
    ensures Tail(s + t) == Tail(Tail(s) + t)
    decreases |s|
  {
    if Cuttable(s) {
      var rest := AfterFirst(s);
      FirstCutAppend(s, t);
      CutsAppend(rest, t);
      CutsUnfold(s);
      CutsUnfold(s + t);
      Associative([FirstCut(s)], Cuts(rest), Cuts(Tail(rest) + t));
    } else {
      NothingCut(s, t);
    }
  }

  lemma NothingCut(s: seq<byte>, t: seq<byte>)
    requires !Cuttable(s)
    ensures Tail(s) == s && Cuts(s) == [] && Cuts(s) + Cuts(s + t) == Cuts(s + t)
  {
  }

  // ----- what the cuts are, without saying how they are found

  function Flatten(cuts: seq<Cut>): seq<byte> {
    if cuts == [] then [] else Consumed(cuts[0]) + Flatten(cuts[1..])
  }

  /** A cut line holds no newline; one that a newline ended has at most 512 bytes; any other has exactly
      512 and more than just a newline's worth follows it. What is pending is a line still open. */
  predicate IsCutting(cuts: seq<Cut>, tail: seq<byte>) {
    if cuts == [] then
      |tail| <= 512 && 10 !in tail
    else
      var rest := Flatten(cuts[1..]) + tail;
      && 10 !in cuts[0].line
      && (cuts[0].terminated ==> |cuts[0].line| <= 512)
      && (!cuts[0].terminated ==> |cuts[0].line| == 512 && rest != [] && rest[0] != 10)
      && IsCutting(cuts[1..], tail)
  }

  /** The cut lines, their newlines and the pending tail rebuild the stream, every line is as
      `IsCutting` says. */
  lemma {:induction false} CutsAreACutting(s: seq<byte>)
    ensures Flatten(Cuts(s)) + Tail(s) == s
    ensures IsCutting(Cuts(s), Tail(s))
    decreases |s|
  {
    if Cuttable(s) {
      var cut, rest := FirstCut(s), AfterFirst(s);
      CutsAreACutting(rest);
      CutsUnfold(s);
      FirstOfCuts(s);
      ConsCutting(cut, Cuts(rest), Tail(rest));
      Associative(Consumed(cut), Flatten(Cuts(rest)), Tail(rest));
    }
  }

  lemma ConsCutting(cut: Cut, cuts: seq<Cut>, tail: seq<byte>)
    requires IsCutting(cuts, tail) && NEWLINE !in cut.line
    requires cut.terminated ==> |cut.line| <= MAX_LINE
    requires !cut.terminated ==> |cut.line| == MAX_LINE && Flatten(cuts) + tail != [] && (Flatten(cuts) + tail)[0] != NEWLINE
    ensures IsCutting([cut] + cuts, tail) && Flatten([cut] + cuts) == Consumed(cut) + Flatten(cuts)
  {
    assert ([cut] + cuts)[1..] == cuts;
  }

  lemma FirstOfCuts(s: seq<byte>)
    requires Cuttable(s)
    ensures NEWLINE !in FirstCut(s).line
    ensures !FirstCut(s).terminated ==> AfterFirst(s) != [] && AfterFirst(s)[0] != NEWLINE
  {
    if !FirstCut(s).terminated {
      assert AfterFirst(s)[0] == s[MAX_LINE];
    }
  }

  /** ... and no other cutting of the stream is. */
  lemma {:induction false} CuttingIsUnique(cuts: seq<Cut>, tail: seq<byte>, s: seq<byte>)
    requires IsCutting(cuts, tail) && s == Flatten(cuts) + tail
    ensures cuts == Cuts(s) && tail == Tail(s)
  {
    if cuts == [] {
      assert s == tail;
    } else {
      var cut, rest := cuts[0], Flatten(cuts[1..]) + tail;
      Associative(Consumed(cut), Flatten(cuts[1..]), tail);
      FirstOfCutting(cut, rest);
      CuttingIsUnique(cuts[1..], tail, rest);
      CutsUnfold(s);
      assert cuts == [cut] + cuts[1..];
    }
  }

  lemma FirstOfCutting(cut: Cut, rest: seq<byte>)
    requires NEWLINE !in cut.line
    requires cut.terminated ==> |cut.line| <= MAX_LINE
    requires !cut.terminated ==> |cut.line| == MAX_LINE && rest != [] && rest[0] != NEWLINE
    ensures
      var s := Consumed(cut) + rest;
      Cuttable(s) && FirstCut(s) == cut && AfterFirst(s) == rest
  {
    var s := Consumed(cut) + rest;
    var k := FirstNewline(s);
    assert forall j :: 0 <= j < |cut.line| ==> s[j] == cut.line[j];
    assert forall j :: 0 <= j < |cut.line| ==> s[j] != NEWLINE;
    assert k >= |cut.line|;
    if cut.terminated {
      assert s[|cut.line|] == NEWLINE;
    } else {
      assert s[MAX_LINE] == rest[0];
    }
    assert s[..|cut.line|] == cut.line;
  }

  // ----- the reader

  class Splitter {
    var buffer: seq<byte>
    var lineStart: nat

    /** The lines cut so far. */
    var lines: seq<Cut>

    /** Everything received so far. */
    ghost var stream: seq<byte>

    /** Between two chunks. */
    ghost predicate Valid()
      reads this
    {
      && lineStart <= |buffer|
      && lines == Cuts(stream)
      && buffer[lineStart..] == Tail(stream)
      && !Cuttable(Tail(stream))
      && |buffer| - lineStart <= 512
      && |buffer| <= 1536
    }

    constructor ()
      ensures Valid() && stream == []
    {
      buffer, lineStart, lines, stream := [], 0, [], [];
    }

    /** One round of the search loop: cuts one line, or finds that none is complete. */
    method CutLine() returns (cut: bool)
      requires lineStart <= |buffer|
      modifies this`lines, this`lineStart
      ensures lineStart <= |buffer|
      ensures cut == Cuttable(old(buffer[lineStart..]))
      ensures cut ==> lines == old(lines) + [FirstCut(old(buffer[lineStart..]))]
      ensures cut ==> buffer[lineStart..] == AfterFirst(old(buffer[lineStart..]))
      ensures !cut ==> lines == old(lines) && lineStart == old(lineStart)
    {
      var searchStart := lineStart;
      var pos := FirstNewline(buffer[searchStart..]);
      if pos < |buffer[searchStart..]| {
        var newlinePos := searchStart + pos;
        if newlinePos - lineStart <= MAX_LINE {
          assert buffer[lineStart..newlinePos] == buffer[lineStart..][..pos];
          lines := lines + [Cut(buffer[lineStart..newlinePos], true)];
          lineStart := newlinePos + 1;
          return true;
        }
      } else {
        var currentLineLength := |buffer| - lineStart;
        if currentLineLength <= MAX_LINE {
          return false;
        }
      }
      assert buffer[lineStart..lineStart + MAX_LINE] == buffer[lineStart..][..MAX_LINE];
      lines := lines + [Cut(buffer[lineStart..lineStart + MAX_LINE], false)];
      lineStart := lineStart + MAX_LINE;
      return true;
    }

    /** The search loop: cuts every line the buffer holds. */
    method CutLines()
      requires lineStart <= |buffer|
      modifies this`lines, this`lineStart
      ensures lineStart <= |buffer|
      ensures lines == old(lines) + Cuts(old(buffer[lineStart..]))
      ensures buffer[lineStart..] == Tail(old(buffer[lineStart..])) && !Cuttable(buffer[lineStart..])
    {
      var more := true;
      while more
        invariant lineStart <= |buffer|
        invariant lines + Cuts(buffer[lineStart..]) == old(lines) + Cuts(old(buffer[lineStart..]))
        invariant Tail(buffer[lineStart..]) == Tail(old(buffer[lineStart..]))
        invariant !more ==> !Cuttable(buffer[lineStart..])
        decreases more, |buffer| - lineStart
      {
        ghost var before, pending := lines, buffer[lineStart..];
        more := CutLine();
        if more {
          CutsUnfold(pending);
          Associative(before, [FirstCut(pending)], Cuts(AfterFirst(pending)));
        }
      }
    }

    /** Takes one chunk in: cuts what can be cut, then drops consumed bytes from the buffer. */
    method Feed(data: seq<byte>)
      requires Valid()
      modifies this
      ensures Valid() && stream == old(stream) + data
    {
      CutsAppend(stream, data);
      buffer := buffer + data;
      stream := stream + data;
      assert buffer[lineStart..] == old(buffer[lineStart..]) + data;
      CutLines();
      if lineStart > 1024 && lineStart > |buffer| / 2 {
        buffer := buffer[lineStart..];
        lineStart := 0;
      }
    }

    /** The stream ended: what is pending is the last line. */
    method Finish()
      requires Valid()
      modifies this`lines
      ensures lines == Cuts(stream) + if Tail(stream) == [] then [] else [Cut(Tail(stream), false)]
    {
      if lineStart < |buffer| {
        lines := lines + [Cut(buffer[lineStart..], false)];
      }
    }
  }

  /** The whole reading loop: however the stream is cut into chunks, the lines are those of the stream. */
  method ReadLines(chunks: seq<seq<byte>>) returns (lines: seq<Cut>)
    ensures lines == Cuts(Concat(chunks)) + if Tail(Concat(chunks)) == [] then [] else [Cut(Tail(Concat(chunks)), false)]
  {
    var splitter := new Splitter();
    for i := 0 to |chunks|
      invariant splitter.Valid() && fresh(splitter)
      invariant splitter.stream == Concat(chunks[..i])
    {
      splitter.Feed(chunks[i]);
      assert chunks[..i + 1][..i] == chunks[..i];
    }
    assert chunks[..|chunks|] == chunks;
    splitter.Finish();
    return splitter.lines;
  }
}
