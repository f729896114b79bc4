/** Copying a reader that is padded with zeros, or cut, to a fixed number of bytes. */
module FixedCopy {
  import opened Common

  /** What a reader answers to its `i`-th read when it is asked for `n` bytes: at most that many, or
      an error. Every way of cutting, stalling and failing is such a function. */
  type Answers = (nat, nat) -> Option<seq<byte>>

  ghost predicate Proper(answers: Answers) {
    forall i: nat, n: nat :: answers(i, n).Some? ==> |answers(i, n).value| <= n
  }

  function Min(a: nat, b: nat): nat {
    if a < b then a else b
  }

  function Zeros(n: nat): seq<byte> {
    seq(n, _ => 0)
  }

  function PaddedTo(s: seq<byte>, n: nat): seq<byte>
    requires |s| <= n
  {
    s + Zeros(n - |s|)
  }

  // ----- the bytes a copy writes

  /** The inner reader fails before `left` bytes are made up, reading from its `i`-th read on into a
      buffer of `len` bytes. */
  predicate Fails(answers: Answers, i: nat, left: nat, len: nat)
    requires len > 0
    decreases left
  {
    left > 0 && (answers(i, Min(len, left)).None? || Fails(answers, i + 1, left - Min(len, left), len))
  }

  /** The bytes copied, up to a failing read. */
  function Output(answers: Answers, i: nat, left: nat, len: nat): (out: seq<byte>)
    requires len > 0 && Proper(answers)
    ensures !Fails(answers, i, left, len) ==> |out| == left
    decreases left
  {
    if left == 0 then []
    else
      var n := Min(len, left);
      var answer := answers(i, n);
      if answer.None? then []
      else
        PaddedTo(answer.value, n) + Output(answers, i + 1, left - n, len)
  }

  /** The bytes the inner reader delivers to these reads. */
  function Delivered(answers: Answers, i: nat, left: nat, len: nat): (bytes: seq<byte>)
    requires len > 0 && Proper(answers)
    ensures |bytes| <= left
    decreases left
  {
    if left == 0 then []
    else
      var n := Min(len, left);
      var answer := answers(i, n);
      if answer.None? then [] else answer.value + Delivered(answers, i + 1, left - n, len)
  }

  /** After a short answer the inner reader delivers nothing but zeros. */
  predicate ShortOnlyAtEnd(answers: Answers, i: nat, left: nat, len: nat)
    requires len > 0 && Proper(answers)
    decreases left
  {
    left > 0 ==>
      var n := Min(len, left);
      var answer := answers(i, n);
      answer.Some? ==>
        if |answer.value| < n then AllZero(Delivered(answers, i + 1, left - n, len))
        else ShortOnlyAtEnd(answers, i + 1, left - n, len)
  }

  predicate AllZero(s: seq<byte>) {
    forall k :: 0 <= k < |s| ==> s[k] == 0
  }

  /** The first `n` bytes are zeros, as far as there are that many. */
  predicate ZeroUpTo(s: seq<byte>, n: nat) {
    forall k :: 0 <= k < n && k < |s| ==> s[k] == 0
  }

  /** Padding delays what is delivered: zeros in front stay zeros. */
  lemma {:induction false} OutputLags(answers: Answers, i: nat, left: nat, len: nat, z: nat)
    requires len > 0 && Proper(answers)
    requires ZeroUpTo(Delivered(answers, i, left, len), z)
    ensures ZeroUpTo(Output(answers, i, left, len), z)
    decreases left
  {
    if left > 0 {
      var n := Min(len, left);
      var answer := answers(i, n);
      if answer.Some? {
        var a, rest := answer.value, Delivered(answers, i + 1, left - n, len);
        assert forall k :: 0 <= k < |a| ==> (a + rest)[k] == a[k];
        if |a| <= z {
          assert forall k :: 0 <= k < |rest| ==> (a + rest)[|a| + k] == rest[k];
          OutputLags(answers, i + 1, left - n, len, z - |a|);
        }
      }
    }
  }

  /** A copy that succeeds writes what the inner reader delivers, padded with zeros at the end, exactly
      when the inner reader answers short only at its end. */
  lemma {:induction false} OutputIsPaddedIff(answers: Answers, i: nat, left: nat, len: nat)
    requires len > 0 && Proper(answers) && !Fails(answers, i, left, len)
    ensures Output(answers, i, left, len) == PaddedTo(Delivered(answers, i, left, len), left)
       <==> ShortOnlyAtEnd(answers, i, left, len)
    decreases left
  {
    if left > 0 {
      var n := Min(len, left);
      var a := answers(i, n).value;
      var rest, out := Delivered(answers, i + 1, left - n, len), Output(answers, i + 1, left - n, len);
      OutputIsPaddedIff(answers, i + 1, left - n, len);
      if |a| == n {
        FullAnswer(a, rest, out, left);
      } else {
        forall z: nat | ZeroUpTo(rest, z) ensures ZeroUpTo(out, z) {
          OutputLags(answers, i + 1, left - n, len, z);
        }
        LatePadding(rest, out, n - |a|);
        ShortAnswer(a, rest, out, n, left);
      }
    }
  }

  lemma FullAnswer(a: seq<byte>, rest: seq<byte>, out: seq<byte>, left: nat)
    requires |a| <= left && |rest| <= left - |a|
    ensures a + Zeros(0) + out == PaddedTo(a + rest, left) <==> out == PaddedTo(rest, left - |a|)
  {
    assert a + Zeros(0) + out == a + out;
    assert PaddedTo(a + rest, left) == a + PaddedTo(rest, left - |a|);
    SamePrefix(a, out, PaddedTo(rest, left - |a|));
  }

  lemma ShortAnswer(a: seq<byte>, rest: seq<byte>, out: seq<byte>, n: nat, left: nat)
    requires |a| <= n <= left && |rest| <= |out| == left - n
    ensures a + Zeros(n - |a|) + out == PaddedTo(a + rest, left)
       <==> Zeros(n - |a|) + out == PaddedTo(rest, left - |a|)
  {
    assert a + Zeros(n - |a|) + out == a + (Zeros(n - |a|) + out);
    assert PaddedTo(a + rest, left) == a + PaddedTo(rest, left - |a|);
    SamePrefix(a, Zeros(n - |a|) + out, PaddedTo(rest, left - |a|));
  }

  lemma SamePrefix(a: seq<byte>, s: seq<byte>, t: seq<byte>)
    ensures a + s == a + t <==> s == t
  {
    if a + s == a + t {
      assert s == (a + s)[|a|..] && t == (a + t)[|a|..];
    }
  }

  /** Zeros put in front can only be zeros put at the end when nothing but zeros follows. */
  lemma LatePadding(rest: seq<byte>, out: seq<byte>, pad: nat)
    requires pad > 0 && |rest| <= |out|
    requires forall z: nat :: ZeroUpTo(rest, z) ==> ZeroUpTo(out, z)
    ensures Zeros(pad) + out == PaddedTo(rest, pad + |out|) <==> AllZero(rest)
  {
    if AllZero(rest) {
      assert ZeroUpTo(rest, |out|);
      assert AllZero(out);
    } else {
      var k := FirstNonZero(rest);
      assert ZeroUpTo(out, k);
      assert (Zeros(pad) + out)[k] == 0;
    }
  }

  lemma FirstNonZero(s: seq<byte>) returns (k: nat)
    requires !AllZero(s)
    ensures k < |s| && s[k] != 0 && ZeroUpTo(s, k)
  {
    k := 0;
    while s[k] == 0
      invariant k < |s| && ZeroUpTo(s, k) && exists j :: k <= j < |s| && s[j] != 0
      decreases |s| - k
    {
      k := k + 1;
    }
  }

  /** The inner reader reads the stream `data`, answering short only where it ends. */
  predicate Streams(answers: Answers, i: nat, left: nat, len: nat, data: seq<byte>)
    requires len > 0
    decreases left
  {
    left > 0 ==>
      var n := Min(len, left);
      var k := Min(n, |data|);
      answers(i, n) == Some(data[..k]) && Streams(answers, i + 1, left - n, len, data[k..])
  }

  /** A stream is copied cut, or padded with zeros, to the size. */
  lemma {:induction false} StreamIsCutOrPadded(
    answers: Answers, i: nat, left: nat, len: nat, data: seq<byte>)
    requires len > 0 && Proper(answers) && Streams(answers, i, left, len, data)
    ensures !Fails(answers, i, left, len)
    ensures Output(answers, i, left, len) == CutOrPad(data, left)
    decreases left
  {
    if left > 0 {
      var n := Min(len, left);
      var k := Min(n, |data|);
      StreamIsCutOrPadded(answers, i + 1, left - n, len, data[k..]);
      CutOrPadded(data, n, left);
    }
  }

  function CutOrPad(data: seq<byte>, n: nat): seq<byte> {
    if n <= |data| then data[..n] else PaddedTo(data, n)
  }

  lemma CutOrPadded(data: seq<byte>, n: nat, left: nat)
    requires n <= left
    ensures var k := Min(n, |data|); CutOrPad(data, left) == PaddedTo(data[..k], n) + CutOrPad(data[k..], left - n)
  {}

  // ----- the readers and the copy

  /** Any reader: it answers as scripted, and may leave anything in the part of the buffer it was
      offered and did not fill. */
  class InnerReader {
    const answers: Answers
    var calls: nat

    constructor (answers: Answers)
      requires Proper(answers)
      ensures this.answers == answers && calls == 0
    {
      this.answers, calls := answers, 0;
    }

    method Read(buf: array<byte>, n: nat) returns (r: Option<nat>)
      requires n <= buf.Length && Proper(answers) && buf as object != this
      modifies this, buf
      ensures calls == old(calls) + 1
      ensures r.None? <==> answers(old(calls), n).None?
      ensures r.Some? ==> r.value <= n && buf[..r.value] == answers(old(calls), n).value
      ensures buf[n..] == old(buf[n..])
    {
      var answer := answers(calls, n);
      calls := calls + 1;
      if answer.None? {
        return None;
      }
      for k := 0 to |answer.value|
        modifies buf
        invariant buf[..k] == answer.value[..k]
        invariant buf[n..] == old(buf[n..])
      {
        buf[k] := answer.value[k];
      }
      return Some(|answer.value|);
    }
  }

  class FixedReader {
    const inner: InnerReader
    const size: nat
    var bytesRead: nat

    ghost predicate Valid()
      reads this
    {
      bytesRead <= size && Proper(inner.answers)
    }

    constructor (inner: InnerReader, size: nat)
      requires Proper(inner.answers)
      ensures Valid() && this.inner == inner && this.size == size && bytesRead == 0
    {
      this.inner, this.size, bytesRead := inner, size, 0;
    }

    method Read(buf: array<byte>) returns (r: Option<nat>)
      requires Valid() && buf as object != this && buf as object != inner
      modifies this, inner, buf
      ensures Valid()
      ensures old(bytesRead) == size ==> r == Some(0) && bytesRead == size && inner.calls == old(inner.calls)
      ensures old(bytesRead) < size ==>
                var n := Min(buf.Length, size - old(bytesRead));
                var answer := inner.answers(old(inner.calls), n);
                && inner.calls == old(inner.calls) + 1
                && (answer.None? ==> r == None && bytesRead == old(bytesRead))
                && (answer.Some? ==>
                      && r == Some(n) && bytesRead == old(bytesRead) + n
                      && buf[..n] == PaddedTo(answer.value, n))
      ensures var n := Min(buf.Length, size - old(bytesRead)); buf[n..] == old(buf[n..])
    {
      if bytesRead >= size {
        return Some(0);
      }
      var remaining := size - bytesRead;
      var toRead := Min(buf.Length, remaining);
      var read := inner.Read(buf, toRead);
      if read.None? {
        return None;
      }
      var got := read.value;
      bytesRead := bytesRead + got;
      if got < toRead {
        var zerosNeeded := toRead - got;
        FillZeros(buf, got, zerosNeeded);
        bytesRead := bytesRead + zerosNeeded;
        return Some(toRead);
      }
      return read;
    }
  }

  method FillZeros(buf: array<byte>, start: nat, count: nat)
    requires start + count <= buf.Length
    modifies buf
    ensures buf[..start + count] == old(buf[..start]) + Zeros(count)
    ensures buf[start + count..] == old(buf[start + count..])
  {
    for i := 0 to count
      invariant buf[..start + i] == old(buf[..start]) + Zeros(i)
      invariant buf[start + count..] == old(buf[start + count..])
    {
      buf[start + i] := 0;
    }
  }

  class Sink {
    var contents: seq<byte>

    constructor ()
      ensures contents == []
    {
      contents := [];
    }

    method WriteAll(bytes: seq<byte>)
      modifies this
      ensures contents == old(contents) + bytes
    {
      contents := contents + bytes;
    }
  }

  /** One round of the copy: the bytes of one read written, none at the end, or an error. */
  method CopyOnce(buffer: array<byte>, reader: FixedReader, writer: Sink) returns (n: Option<nat>)
    requires buffer.Length > 0 && reader.Valid()
    requires buffer as object != reader && buffer as object != reader.inner && buffer as object != writer
    requires writer as object != reader && writer as object != reader.inner && reader as object != reader.inner
    modifies buffer, reader, reader.inner, writer
    ensures reader.Valid()
    ensures old(reader.bytesRead) == reader.size ==>
              n == Some(0) && reader.bytesRead == reader.size && writer.contents == old(writer.contents)
    ensures old(reader.bytesRead) < reader.size ==>
              var k := Min(buffer.Length, reader.size - old(reader.bytesRead));
              var answer := reader.inner.answers(old(reader.inner.calls), k);
              && (answer.None? ==> n == None && writer.contents == old(writer.contents))
              && (answer.Some? ==>
                    && n == Some(k) && reader.bytesRead == old(reader.bytesRead) + k
                    && reader.inner.calls == old(reader.inner.calls) + 1
                    && writer.contents == old(writer.contents) + PaddedTo(answer.value, k))
  {
    n := reader.Read(buffer);
    if n.Some? && n.value > 0 {
      writer.WriteAll(buffer[..n.value]);
    }
  }

  /** Copies the reader to its end; false when the inner reader failed. */
  method CopyShared(buffer: array<byte>, reader: FixedReader, writer: Sink) returns (ok: bool)
    requires buffer.Length > 0 && reader.Valid()
    requires buffer as object != reader && buffer as object != reader.inner && buffer as object != writer
    requires writer as object != reader && writer as object != reader.inner && reader as object != reader.inner
    modifies buffer, reader, reader.inner, writer
    ensures reader.Valid()
    ensures var i, left := old(reader.inner.calls), reader.size - old(reader.bytesRead);
            && ok == !Fails(reader.inner.answers, i, left, buffer.Length)
            && writer.contents == old(writer.contents) + Output(reader.inner.answers, i, left, buffer.Length)
    ensures ok ==> reader.bytesRead == reader.size
    ensures ok ==> |writer.contents| == |old(writer.contents)| + reader.size - old(reader.bytesRead)
  {
    ghost var answers, len := reader.inner.answers, buffer.Length;
    ghost var i, left := reader.inner.calls, reader.size - reader.bytesRead;
    ghost var total := CopyOf(answers, i, left, len, writer.contents);
    while true
      invariant reader.Valid() && i == reader.inner.calls && left == reader.size - reader.bytesRead
      invariant CopyOf(answers, i, left, len, writer.contents) == total
      decreases left
    {
      CopyStep(answers, i, left, len, writer.contents);
      var bytesRead := CopyOnce(buffer, reader, writer);
      if bytesRead.None? {
        return false;
      }
      if bytesRead.value == 0 {
        break;
      }
      i, left := i + 1, left - bytesRead.value;
    }
    return true;
  }

  /** All that will have been written when the copy ends, and whether it fails. */
  ghost function CopyOf(answers: Answers, i: nat, left: nat, len: nat, written: seq<byte>): (seq<byte>, bool)
    requires len > 0 && Proper(answers)
  {
    (written + Output(answers, i, left, len), Fails(answers, i, left, len))
  }

  lemma CopyStep(answers: Answers, i: nat, left: nat, len: nat, written: seq<byte>)
    requires len > 0 && Proper(answers)
    ensures left == 0 ==> CopyOf(answers, i, left, len, written) == (written, false)
    ensures left > 0 ==>
              var n := Min(len, left);
              CopyOf(answers, i, left, len, written) ==
              if answers(i, n).None? then (written, true)
              else CopyOf(answers, i + 1, left - n, len, written + PaddedTo(answers(i, n).value, n))
  {
    assert written + [] == written;
    if left > 0 && answers(i, Min(len, left)).Some? {
      var n := Min(len, left);
      var a, rest := PaddedTo(answers(i, n).value, n), Output(answers, i + 1, left - n, len);
      assert written + (a + rest) == written + a + rest;
    }
  }

  /** A reader that gives nothing at first and ones later: the copy holds a zero in front of its byte,
      not behind. */
  lemma LateByteIsShifted(len: nat)
    requires len > 0
    ensures
      var answers := (i: nat, n: nat) => if i == 0 || n == 0 then Some([]) else Some([1]);
      && Proper(answers) && !Fails(answers, 0, len + 1, len)
      && Output(answers, 0, len + 1, len) == Zeros(len) + [1]
      && Delivered(answers, 0, len + 1, len) == [1]
  {
    var answers: Answers := (i: nat, n: nat) => if i == 0 || n == 0 then Some([]) else Some([1]);
    assert Output(answers, 1, 1, len) == PaddedTo([1], 1) + Output(answers, 2, 0, len) == [1];
    assert Delivered(answers, 1, 1, len) == [1];
    assert Output(answers, 0, len + 1, len) == PaddedTo([], len) + Output(answers, 1, 1, len);
  }
}
