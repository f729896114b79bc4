/** The file writers that charge disk space in batches as a file grows. */
module Writers {
  import opened Common
  import opened Usage
  import opened Accounting
  import opened DiskUsageTree
  import opened Filesystem

  const ALLOCATION_THRESHOLD: int := 1024 * 1024

  datatype Result<+T> = Ok(value: T) | StorageFull | IoError

  datatype Poll<+T> = Ready(value: T) | Pending

  /** One write the file accepted: where it began and how many bytes it took. */
  datatype Extent = Extent(start: nat, length: nat)

  /** The furthest end any of the writes reached. */
  function FurthestEnd(writes: seq<Extent>): nat {
    if writes == [] then 0
    else
      var end, before := writes[|writes| - 1].start + writes[|writes| - 1].length, FurthestEnd(writes[..|writes| - 1]);
      if end > before then end else before
  }

  lemma FurthestEndAppend(writes: seq<Extent>, w: Extent)
    ensures FurthestEnd(writes + [w]) ==
            if w.start + w.length > FurthestEnd(writes) then w.start + w.length else FurthestEnd(writes)
  {
    assert (writes + [w])[..|writes|] == writes;
  }

  /** What a writer counts for the directory it charges. */
  datatype Batch = Batch(parent: Path, ignorant: bool, accumulated: nat, position: nat, highest: nat)

  /** The batch charged, if the file system grants it; a refused batch stays. */
  function Charge(a: Account, w: Batch): (Account, Batch, bool) {
    var (a', granted) := Allocate(a, w.parent, w.accumulated, w.ignorant);
    (a', if granted then w.(accumulated := 0) else w, granted)
  }

  /** The file took `taken` bytes. */
  function Advanced(w: Batch, taken: nat): Batch {
    var position := w.position + taken;
    if position > w.highest then
      w.(accumulated := w.accumulated + position - w.highest, position := position, highest := position)
    else w.(position := position)
  }

  function Written(a: Account, w: Batch, taken: nat): (Account, Batch, bool) {
    var advanced := Advanced(w, taken);
    if advanced.accumulated >= ALLOCATION_THRESHOLD then Charge(a, advanced) else (a, advanced, true)
  }

  /** Bytes below a mebibyte are only counted, and the account stays as it is; from there on all of them are
      charged at once, and counted still if the charge is refused. The position moves either way. */
  lemma WrittenMeaning(a: Account, w: Batch, taken: nat)
    ensures
      var end := w.position + taken;
      var highest := if end > w.highest then end else w.highest;
      var due := w.accumulated + highest - w.highest;
      var (a', w', granted) := Written(a, w, taken);
      && w'.parent == w.parent && w'.ignorant == w.ignorant && w'.position == end && w'.highest == highest
      && (due < 1_048_576 ==> a' == a && granted && w'.accumulated == due)
      && (due >= 1_048_576 ==>
            (a', granted) == Allocate(a, w.parent, due, w.ignorant) && w'.accumulated == if granted then 0 else due)
  {
  }

  function Sought(a: Account, w: Batch, to: nat): (Account, Batch, bool) {
    var (a', w', granted) := Charge(a, w);
    (a', if granted then w'.(position := to) else w', granted)
  }

  class FileSystemWriter {
    const filesystem: Filesystem
    const parent: seq<Name>
    const ignorant: bool

    var accumulatedBytes: int
    var currentPosition: nat
    var highestPosition: nat

    /** The writes so far, and the bytes the file system has granted for them. */
    ghost var writes: seq<Extent>
    ghost var charged: nat

    ghost function State(): Batch
      requires accumulatedBytes >= 0
      reads this
    {
      Batch(Extend(Root, parent), ignorant, accumulatedBytes, currentPosition, highestPosition)
    }

    /** The ledger: what was granted and what is still to be charged make up the file's extent. */
    ghost predicate Valid()
      reads this
    {
      && accumulatedBytes >= 0
      && charged + accumulatedBytes == highestPosition == FurthestEnd(writes)
    }

    constructor (filesystem: Filesystem, parent: seq<Name>, ignorant: bool)
      ensures Valid() && writes == [] && charged == 0
      ensures this.filesystem == filesystem && this.parent == parent && this.ignorant == ignorant
    {
      this.filesystem, this.parent, this.ignorant := filesystem, parent, ignorant;
      accumulatedBytes, currentPosition, highestPosition := 0, 0, 0;
      writes, charged := [], 0;
    }

    /** Charges the batch to the parent directory; a refused batch stays accumulated. */
    method AllocateAccumulated() returns (r: Result<()>)
      requires Valid() && filesystem.Valid()
      modifies this`accumulatedBytes, this`charged
      modifies filesystem`diskUsageCached, filesystem.diskUsage, filesystem.diskUsage.nodes.Values
      ensures Valid() && filesystem.Valid()
      ensures fresh(filesystem.diskUsage.nodes.Values - old(filesystem.diskUsage.nodes.Values))
      ensures
        var (after, granted) := Allocate(old(filesystem.State()), Extend(Root, parent), old(accumulatedBytes), ignorant);
        && filesystem.State() == after
        && r == (if granted then Ok(()) else StorageFull)
        && charged == old(charged) + (if granted then old(accumulatedBytes) else 0)
      ensures (filesystem.State(), State(), r.Ok?) == Charge(old(filesystem.State()), old(State()))
    {
      if accumulatedBytes > 0 {
        var granted := filesystem.AllocateInPath(parent, accumulatedBytes, ignorant);
        if !granted {
          return StorageFull;
        }
        charged := charged + accumulatedBytes;
        accumulatedBytes := 0;
      }
      return Ok(());
    }

    /** One write. `inner` is what the buffered file answers: the bytes it took, or its error. */
    method Write(inner: Result<nat>) returns (r: Result<nat>)
      requires Valid() && filesystem.Valid()
      modifies this
      modifies filesystem`diskUsageCached, filesystem.diskUsage, filesystem.diskUsage.nodes.Values
      ensures Valid() && filesystem.Valid()
      ensures fresh(filesystem.diskUsage.nodes.Values - old(filesystem.diskUsage.nodes.Values))
      ensures !inner.Ok? ==> r == inner && writes == old(writes) && charged == old(charged) && currentPosition == old(currentPosition)
      ensures !inner.Ok? ==> filesystem.State() == old(filesystem.State())
      ensures inner.Ok? ==> writes == old(writes) + [Extent(old(currentPosition), inner.value)]
      ensures inner.Ok? ==>
                var (after, batch, granted) := Written(old(filesystem.State()), old(State()), inner.value);
                filesystem.State() == after && State() == batch && r == if granted then inner else StorageFull
    {
      if !inner.Ok? {
        return inner;
      }
      var written := inner.value;
      Advance(written);
      if accumulatedBytes >= ALLOCATION_THRESHOLD {
        var a := AllocateAccumulated();
        if a.StorageFull? {
          return StorageFull;
        }
      }
      return Ok(written);
    }

    /** Moves past the bytes the file took; those past its end so far are to be charged. */
    method Advance(written: nat)
      requires Valid()
      modifies this`accumulatedBytes, this`currentPosition, this`highestPosition, this`writes
      ensures Valid() && State() == Advanced(old(State()), written)
      ensures writes == old(writes) + [Extent(old(currentPosition), written)]
    {
      FurthestEndAppend(writes, Extent(currentPosition, written));
      writes := writes + [Extent(currentPosition, written)];
      currentPosition := currentPosition + written;
      if currentPosition > highestPosition {
        var additionalSpace := currentPosition - highestPosition;
        accumulatedBytes := accumulatedBytes + additionalSpace;
        highestPosition := currentPosition;
      }
    }

    /** A flush that does not report the disk full leaves the whole extent charged. */
    method Flush(inner: Result<()>) returns (r: Result<()>)
      requires Valid() && filesystem.Valid()
      modifies this`accumulatedBytes, this`charged
      modifies filesystem`diskUsageCached, filesystem.diskUsage, filesystem.diskUsage.nodes.Values
      ensures Valid() && filesystem.Valid()
      ensures fresh(filesystem.diskUsage.nodes.Values - old(filesystem.diskUsage.nodes.Values))
      ensures
        var (after, granted) := Allocate(old(filesystem.State()), Extend(Root, parent), old(accumulatedBytes), ignorant);
        && filesystem.State() == after
        && r == (if granted then inner else StorageFull)
        && charged == (if granted then highestPosition else old(charged))
      ensures (filesystem.State(), State()) ==
              (Charge(old(filesystem.State()), old(State())).0, Charge(old(filesystem.State()), old(State())).1)
    {
      var a := AllocateAccumulated();
      if a.StorageFull? {
        return StorageFull;
      }
      return inner;
    }

    /** A seek charges first; `inner` is the position the file reports. */
    method Seek(inner: Result<nat>) returns (r: Result<nat>)
      requires Valid() && filesystem.Valid()
      modifies this`accumulatedBytes, this`charged, this`currentPosition
      modifies filesystem`diskUsageCached, filesystem.diskUsage, filesystem.diskUsage.nodes.Values
      ensures Valid() && filesystem.Valid()
      ensures fresh(filesystem.diskUsage.nodes.Values - old(filesystem.diskUsage.nodes.Values))
      ensures
        var (after, granted) := Allocate(old(filesystem.State()), Extend(Root, parent), old(accumulatedBytes), ignorant);
        && filesystem.State() == after
        && r == (if granted then inner else StorageFull)
        && charged == (if granted then highestPosition else old(charged))
        && currentPosition == (if granted && inner.Ok? then inner.value else old(currentPosition))
      ensures inner.Ok? ==>
                (filesystem.State(), State(), r.Ok?) == Sought(old(filesystem.State()), old(State()), inner.value)
    {
      var a := AllocateAccumulated();
      if a.StorageFull? {
        return StorageFull;
      }
      if inner.Ok? {
        currentPosition := inner.value;
      }
      return inner;
    }
  }

  /** How the allocation future of an asynchronous writer answers a poll. */
  datatype Answer = Granted | Refused | Waiting

  /** The counters of an asynchronous writer. */
  datatype Counters = Counters(accumulated: int, inFlight: int, position: nat, highest: nat)

  /** One poll of a write: how the future answers before the file is asked, what the file says, and how a
      charge the write starts answers. */
  datatype Try = Try(first: Answer, inner: Poll<Result<nat>>, second: Answer)

  /** The bytes the file takes in a poll. */
  function Taken(s: Counters, t: Try): nat {
    if (s.inFlight == 0 || t.first == Granted) && t.inner.Ready? && t.inner.value.Ok? then t.inner.value.value else 0
  }

  /** How many bytes the writer is behind with once the file took its bytes. */
  function Behind(s: Counters, taken: nat): int {
    s.accumulated + if s.position + taken > s.highest then s.position + taken - s.highest else 0
  }

  /** The write makes the batch due. */
  predicate Due(s: Counters, taken: nat) {
    s.position + taken > s.highest && Behind(s, taken) >= ALLOCATION_THRESHOLD
  }

  function AnswerOf(s: Counters, t: Try): Poll<Result<nat>> {
    if s.inFlight > 0 && t.first == Refused then Ready(StorageFull)
    else if s.inFlight > 0 && t.first == Waiting then Pending
    else if !(t.inner.Ready? && t.inner.value.Ok?) || !Due(s, t.inner.value.value) || t.second == Granted then t.inner
    else if t.second == Refused then Ready(StorageFull)
    else Pending
  }

  function Polled(s: Counters, t: Try): Counters {
    if s.inFlight > 0 && t.first == Waiting then s
    else if s.inFlight > 0 && t.first == Refused then s.(inFlight := 0)
    else if !(t.inner.Ready? && t.inner.value.Ok?) then s.(inFlight := 0)
    else
      var taken := t.inner.value.value;
      var behind, position := Behind(s, taken), s.position + taken;
      var highest := if position > s.highest then position else s.highest;
      if Due(s, taken) then Counters(0, if t.second == Waiting then behind else 0, position, highest)
      else Counters(behind, 0, position, highest)
  }

  /** Once an earlier charge is granted, the poll goes on as if there had been none. */
  lemma SettledFirst(s: Counters, t: Try)
    requires s.inFlight == 0 || t.first == Granted
    ensures Polled(s, t) == Polled(s.(inFlight := 0), t.(first := Granted))
    ensures AnswerOf(s, t) == AnswerOf(s.(inFlight := 0), t.(first := Granted))
  {
  }

  /** A poll that answers how much was written leaves less than a batch to be charged. */
  lemma AnsweredIsSettled(s: Counters, t: Try)
    requires AnswerOf(s, t).Ready? && AnswerOf(s, t).value.Ok? && s.accumulated < ALLOCATION_THRESHOLD
    ensures Polled(s, t).inFlight == 0 && Polled(s, t).accumulated < ALLOCATION_THRESHOLD
  {
  }

  class AsyncFileSystemWriter {
    var accumulatedBytes: int
    var allocationInProgress: int // the bytes of the one future, 0 for none
    var currentPosition: nat
    var highestPosition: nat

    ghost var writes: seq<Extent>
    ghost var charged: nat
    ghost var refused: nat

    ghost function State(): Counters
      reads this
    {
      Counters(accumulatedBytes, allocationInProgress, currentPosition, highestPosition)
    }

    /** The ledger: every byte of the extent is granted, refused, in flight or still accumulated. */
    ghost predicate Valid()
      reads this
    {
      && accumulatedBytes >= 0 && allocationInProgress >= 0
      && charged + refused + allocationInProgress + accumulatedBytes == highestPosition == FurthestEnd(writes)
    }

    constructor ()
      ensures Valid() && writes == [] && allocationInProgress == 0
    {
      accumulatedBytes, allocationInProgress, currentPosition, highestPosition := 0, 0, 0, 0;
      writes, charged, refused := [], 0, 0;
    }

    /** Moves the batch into flight unless another is. */
    method StartAllocation()
      requires Valid()
      modifies this`accumulatedBytes, this`allocationInProgress
      ensures Valid()
      ensures old(allocationInProgress) > 0 ==> allocationInProgress == old(allocationInProgress) && accumulatedBytes == old(accumulatedBytes)
      ensures old(allocationInProgress) == 0 ==> allocationInProgress == old(accumulatedBytes) && accumulatedBytes == 0
    {
      if accumulatedBytes > 0 && allocationInProgress == 0 {
        allocationInProgress := accumulatedBytes;
        accumulatedBytes := 0;
      }
    }

    /** Polls the future, if there is one. A refused batch is gone: it is neither charged nor kept. */
    method PollAllocation(answer: Answer) returns (r: Poll<Result<()>>)
      requires Valid()
      modifies this`allocationInProgress, this`charged, this`refused
      ensures Valid()
      ensures r == if old(allocationInProgress) == 0 || answer == Granted then Ready(Ok(()))
                   else if answer == Refused then Ready(StorageFull) else Pending
      ensures allocationInProgress == if answer == Waiting then old(allocationInProgress) else 0
      ensures charged == old(charged) + if answer == Granted then old(allocationInProgress) else 0
      ensures refused == old(refused) + if answer == Refused then old(allocationInProgress) else 0
    {
      if allocationInProgress > 0 {
        match answer
        case Granted =>
          charged := charged + allocationInProgress;
          allocationInProgress := 0;
          return Ready(Ok(()));
        case Refused =>
          refused := refused + allocationInProgress;
          allocationInProgress := 0;
          return Ready(StorageFull);
        case Waiting =>
          return Pending;
      }
      return Ready(Ok(()));
    }

    /** One poll of a write. The file is asked only once no earlier charge is outstanding; a batch it
        completes is started and polled at once, so the poll may answer Pending or StorageFull although
        the file has already taken the bytes. */
    method PollWrite(first: Answer, inner: Poll<Result<nat>>, second: Answer) returns (r: Poll<Result<nat>>)
      requires Valid()
      modifies this
      ensures Valid()
      ensures
        var t := Try(first, inner, second);
        var asked := old(allocationInProgress) == 0 || first == Granted;
        && State() == Polled(old(State()), t) && r == AnswerOf(old(State()), t)
        && writes == old(writes) + (if asked && inner.Ready? && inner.value.Ok?
                                    then [Extent(old(currentPosition), inner.value.value)] else [])
      ensures r.Ready? && r.value.Ok? && old(accumulatedBytes) < ALLOCATION_THRESHOLD ==>
                allocationInProgress == 0 && accumulatedBytes < ALLOCATION_THRESHOLD
    {
      ghost var t := Try(first, inner, second);
      if AnswerOf(State(), t).Ready? && AnswerOf(State(), t).value.Ok? && accumulatedBytes < ALLOCATION_THRESHOLD {
        AnsweredIsSettled(State(), t);
      }
      var a := PollAllocation(first);
      match a {
        case Ready(Ok(_)) =>
        case Ready(_) => return Ready(StorageFull);
        case Pending => return Pending;
      }
      SettledFirst(old(State()), t);
      r := AskFile(inner, second);
    }

    /** No charge is outstanding: the file is asked. */
    method AskFile(inner: Poll<Result<nat>>, second: Answer) returns (r: Poll<Result<nat>>)
      requires Valid() && allocationInProgress == 0
      modifies this
      ensures Valid()
      ensures State() == Polled(old(State()), Try(Granted, inner, second))
      ensures r == AnswerOf(old(State()), Try(Granted, inner, second))
      ensures writes == old(writes) + (if inner.Ready? && inner.value.Ok?
                                       then [Extent(old(currentPosition), inner.value.value)] else [])
    {
      if inner.Ready? && inner.value.Ok? {
        r := TakeAndCharge(inner.value.value, second);
      } else {
        r := inner;
      }
    }

    /** The file took `written` bytes: a batch they complete is started and polled. */
    method TakeAndCharge(written: nat, second: Answer) returns (r: Poll<Result<nat>>)
      requires Valid() && allocationInProgress == 0
      modifies this
      ensures Valid() && writes == old(writes) + [Extent(old(currentPosition), written)]
      ensures State() == Polled(old(State()), Try(Granted, Ready(Ok(written)), second))
      ensures r == AnswerOf(old(State()), Try(Granted, Ready(Ok(written)), second))
    {
      var grew := Take(written);
      if grew && accumulatedBytes >= ALLOCATION_THRESHOLD {
        StartAllocation();
        var a := PollAllocation(second);
        match a {
          case Ready(Ok(_)) =>
          case Ready(_) => return Ready(StorageFull);
          case Pending => return Pending;
        }
      }
      return Ready(Ok(written));
    }

    /** Moves past the bytes the file took; those past its end so far are to be charged. */
    method Take(written: nat) returns (grew: bool)
      requires Valid()
      modifies this`accumulatedBytes, this`currentPosition, this`highestPosition, this`writes
      ensures Valid() && writes == old(writes) + [Extent(old(currentPosition), written)]
      ensures currentPosition == old(currentPosition) + written && grew == (currentPosition > old(highestPosition))
      ensures highestPosition == if grew then currentPosition else old(highestPosition)
      ensures accumulatedBytes == Behind(old(State()), written)
    {
      FurthestEndAppend(writes, Extent(currentPosition, written));
      writes := writes + [Extent(currentPosition, written)];
      currentPosition := currentPosition + written;
      grew := currentPosition > highestPosition;
      if grew {
        var additionalSpace := currentPosition - highestPosition;
        accumulatedBytes := accumulatedBytes + additionalSpace;
        highestPosition := currentPosition;
      }
    }

    /** One poll of a flush; a shutdown is polled the same way. Once it reaches the file, every byte of
        the extent was either granted or refused. */
    method PollFlush(first: Answer, second: Answer, inner: Poll<Result<()>>) returns (r: Poll<Result<()>>, reached: bool)
      requires Valid()
      modifies this`accumulatedBytes, this`allocationInProgress, this`charged, this`refused
      ensures Valid()
      ensures reached ==> r == inner && accumulatedBytes == 0 && allocationInProgress == 0 && charged + refused == highestPosition
      ensures !reached ==> (r == Pending && allocationInProgress > 0) || (r == Ready(StorageFull) && refused > old(refused))
    {
      var a := PollAllocation(first);
      match a {
        case Ready(Ok(_)) =>
        case Ready(_) => return Ready(StorageFull), false;
        case Pending => return Pending, false;
      }
      if accumulatedBytes > 0 {
        StartAllocation();
        a := PollAllocation(second);
        match a {
          case Ready(Ok(_)) =>
          case Ready(_) => return Ready(StorageFull), false;
          case Pending => return Pending, false;
        }
      }
      return inner, true;
    }

    method StartSeek()
      requires Valid()
      modifies this`accumulatedBytes, this`allocationInProgress
      ensures Valid()
      ensures allocationInProgress + accumulatedBytes == old(allocationInProgress + accumulatedBytes)
      ensures old(allocationInProgress) == 0 ==> accumulatedBytes == 0
    {
      if accumulatedBytes > 0 {
        StartAllocation();
      }
    }

    method PollComplete(first: Answer, inner: Poll<Result<nat>>) returns (r: Poll<Result<nat>>)
      requires Valid()
      modifies this`allocationInProgress, this`charged, this`refused, this`currentPosition
      ensures Valid()
      ensures old(allocationInProgress) > 0 && first != Granted ==>
                r == (if first == Refused then Ready(StorageFull) else Pending) && currentPosition == old(currentPosition)
      ensures old(allocationInProgress) == 0 || first == Granted ==>
                && r == inner && allocationInProgress == 0
                && currentPosition == (if inner.Ready? && inner.value.Ok? then inner.value.value else old(currentPosition))
    {
      var a := PollAllocation(first);
      match a {
        case Ready(Ok(_)) =>
        case Ready(_) => return Ready(StorageFull);
        case Pending => return Pending;
      }
      if inner.Ready? && inner.value.Ok? {
        currentPosition := inner.value.value;
      }
      return inner;
    }

    /** Dropping the writer hands the accumulated bytes to a task of their own; a charge still in flight
        is cancelled with the writer. */
    method Drop() returns (spawned: int, cancelled: int)
      requires Valid()
      ensures spawned >= 0 && cancelled >= 0
      ensures charged + refused + cancelled + spawned == FurthestEnd(writes)
    {
      spawned, cancelled := 0, allocationInProgress;
      if accumulatedBytes > 0 {
        spawned := accumulatedBytes;
      }
    }
  }

  // ----- a caller that repeats what was not answered

  /** The bytes `data` from `offset` on are offered until the writer answers how many it took; then the
      caller goes on behind them. The file never takes more than it is offered. */
  predicate Offers(s: Counters, data: seq<byte>, offset: nat, tries: seq<Try>)
    decreases |tries|
  {
    offset <= |data| &&
    (tries != [] ==>
       && offset + Taken(s, tries[0]) <= |data|
       && Offers(Polled(s, tries[0]), data, Next(s, offset, tries[0]), tries[1..]))
  }

  predicate IsAnswered(s: Counters, t: Try) {
    AnswerOf(s, t).Ready? && AnswerOf(s, t).value.Ok?
  }

  function Next(s: Counters, offset: nat, t: Try): nat {
    if IsAnswered(s, t) then offset + Taken(s, t) else offset
  }

  /** How far the caller came, and what the file was given. */
  function Reached(s: Counters, offset: nat, tries: seq<Try>): nat
    decreases |tries|
  {
    if tries == [] then offset else Reached(Polled(s, tries[0]), Next(s, offset, tries[0]), tries[1..])
  }

  function Given(s: Counters, data: seq<byte>, offset: nat, tries: seq<Try>): seq<byte>
    requires Offers(s, data, offset, tries)
    decreases |tries|
  {
    if tries == [] then []
    else
      data[offset..offset + Taken(s, tries[0])]
      + Given(Polled(s, tries[0]), data, Next(s, offset, tries[0]), tries[1..])
  }

  /** Every poll in which the file took bytes answered how many. */
  predicate AllAnswered(s: Counters, tries: seq<Try>)
    decreases |tries|
  {
    tries == [] ||
    ((Taken(s, tries[0]) > 0 ==> IsAnswered(s, tries[0])) && AllAnswered(Polled(s, tries[0]), tries[1..]))
  }

  /** The file is given what the caller believes written, each byte once, exactly when every poll in which
      it took bytes was answered; otherwise it was given more. */
  lemma {:induction false} GivenOnceIff(s: Counters, data: seq<byte>, offset: nat, tries: seq<Try>)
    requires Offers(s, data, offset, tries)
    ensures offset <= Reached(s, offset, tries) <= |data|
    ensures |Given(s, data, offset, tries)| >= Reached(s, offset, tries) - offset
    ensures Given(s, data, offset, tries) == data[offset..Reached(s, offset, tries)] <==> AllAnswered(s, tries)
    ensures !AllAnswered(s, tries) ==> |Given(s, data, offset, tries)| > Reached(s, offset, tries) - offset
    decreases |tries|
  {
    if tries != [] {
      var t := tries[0];
      var s', next := Polled(s, t), Next(s, offset, t);
      GivenOnceIff(s', data, next, tries[1..]);
      GivenStep(data, offset, Taken(s, t), next, Given(s', data, next, tries[1..]), Reached(s', next, tries[1..]));
    }
  }

  lemma GivenStep(data: seq<byte>, offset: nat, taken: nat, next: nat, rest: seq<byte>, reached: nat)
    requires offset <= next <= reached <= |data| && offset + taken <= |data|
    requires next == offset + taken || next == offset
    requires |rest| >= reached - next && (rest != data[next..reached] ==> |rest| > reached - next)
    ensures data[offset..offset + taken] + rest == data[offset..reached]
       <==> next == offset + taken && rest == data[next..reached]
  {
    if next == offset + taken {
      assert data[offset..reached] == data[offset..next] + data[next..reached];
    }
  }

  /** The file has the rest of the buffer once, if what the caller has left is written behind what was given. */
  ghost predicate GivesRestOnce(s: Counters, data: seq<byte>, offset: nat, tries: seq<Try>)
    requires Offers(s, data, offset, tries)
  {
    GivenOnceIff(s, data, offset, tries);
    Given(s, data, offset, tries) + data[Reached(s, offset, tries)..] == data[offset..]
  }

  predicate InRange(s: Counters) {
    s.accumulated >= 0 && s.inFlight >= 0
  }

  /** What is not due for the rest of the buffer is not due for a part of it, nor for the rest of that. */
  lemma NotDueStays(s: Counters, t: Try, rest: nat)
    requires InRange(s) && Taken(s, t) <= rest && !Due(s, rest)
    ensures Taken(s, t) > 0 ==> IsAnswered(s, t)
    ensures InRange(Polled(s, t)) && !Due(Polled(s, t), rest - (if IsAnswered(s, t) then Taken(s, t) else 0))
  {
  }

  lemma {:induction false} NotDueIsAnswered(s: Counters, data: seq<byte>, offset: nat, tries: seq<Try>)
    requires InRange(s) && Offers(s, data, offset, tries) && !Due(s, |data| - offset)
    ensures AllAnswered(s, tries)
    decreases |tries|
  {
    if tries != [] {
      var t := tries[0];
      NotDueStays(s, t, |data| - offset);
      NotDueIsAnswered(Polled(s, t), data, Next(s, offset, t), tries[1..]);
    }
  }

  lemma RestGivenOnceIff(s: Counters, data: seq<byte>, offset: nat, tries: seq<Try>)
    requires Offers(s, data, offset, tries)
    ensures GivesRestOnce(s, data, offset, tries) <==> AllAnswered(s, tries)
  {
    GivenOnceIff(s, data, offset, tries);
    RestSplits(data, offset, Reached(s, offset, tries), Given(s, data, offset, tries));
  }

  lemma RestSplits(data: seq<byte>, offset: nat, reached: nat, given: seq<byte>)
    requires offset <= reached <= |data|
    ensures given + data[reached..] == data[offset..] <==> given == data[offset..reached]
  {
    assert data[offset..] == data[offset..reached] + data[reached..];
    if given + data[reached..] == data[offset..] {
      assert |given| == reached - offset;
    }
  }

  /** The poll at which a due batch fails: the file takes the rest of the buffer and the charge has to wait. */
  lemma DueRestIsRepeated(s: Counters, data: seq<byte>, offset: nat)
    requires offset < |data| && Due(s, |data| - offset)
    ensures
      var tries := [Try(Granted, Ready(Ok(|data| - offset)), Waiting)];
      Offers(s, data, offset, tries) && !AllAnswered(s, tries)
  {
    var t := Try(Granted, Ready(Ok(|data| - offset)), Waiting);
    assert [t][1..] == [];
    assert Taken(s, t) == |data| - offset && AnswerOf(s, t) == Pending;
  }

  /** A buffer repeated until it is answered is sure to stand in the file once, however the polls go,
      precisely when writing all that is left of it makes no batch due. */
  lemma RepeatingIsSafeIff(s: Counters, data: seq<byte>, offset: nat)
    requires InRange(s) && offset <= |data|
    ensures var position := s.position + |data| - offset;
            (offset == |data| || position <= s.highest || s.accumulated + position - s.highest < 1_048_576
             <==> forall tries :: Offers(s, data, offset, tries) ==> GivesRestOnce(s, data, offset, tries))
  {
    if offset == |data| || !Due(s, |data| - offset) {
      forall tries | Offers(s, data, offset, tries)
        ensures GivesRestOnce(s, data, offset, tries)
      {
        NothingLeftIsNotDue(s, data, offset, tries);
        RestGivenOnceIff(s, data, offset, tries);
      }
    } else {
      DueRestIsRepeated(s, data, offset);
      var tries := [Try(Granted, Ready(Ok(|data| - offset)), Waiting)];
      RestGivenOnceIff(s, data, offset, tries);
      assert Offers(s, data, offset, tries) && !GivesRestOnce(s, data, offset, tries);
    }
  }

  lemma NothingLeftIsNotDue(s: Counters, data: seq<byte>, offset: nat, tries: seq<Try>)
    requires InRange(s) && Offers(s, data, offset, tries)
    requires offset == |data| || !Due(s, |data| - offset)
    ensures AllAnswered(s, tries)
  {
    if offset < |data| {
      NotDueIsAnswered(s, data, offset, tries);
    } else {
      NothingTaken(s, data, tries);
    }
  }

  lemma {:induction false} NothingTaken(s: Counters, data: seq<byte>, tries: seq<Try>)
    requires Offers(s, data, |data|, tries)
    ensures AllAnswered(s, tries)
    decreases |tries|
  {
    if tries != [] {
      NothingTaken(Polled(s, tries[0]), data, tries[1..]);
    }
  }

  /** A buffer as large as a batch whose charge has to wait: the poll answers that nothing is written yet,
      and the same buffer offered again stands in the file twice. */
  lemma WaitingWriteIsRepeated(data: seq<byte>)
    requires |data| == 1_048_576
    ensures
      var s := Counters(0, 0, 0, 0);
      var tries := [Try(Granted, Ready(Ok(|data|)), Waiting), Try(Granted, Ready(Ok(|data|)), Granted)];
      && Offers(s, data, 0, tries) && Reached(s, 0, tries) == |data|
      && Given(s, data, 0, tries) == data + data
  {
    var s, n := Counters(0, 0, 0, 0), |data|;
    var t, u := Try(Granted, Ready(Ok(n)), Waiting), Try(Granted, Ready(Ok(n)), Granted);
    var s1 := Polled(s, t);
    assert s1 == Counters(0, n, n, n) && !IsAnswered(s, t) && IsAnswered(s1, u);
    assert [t, u][1..] == [u] && [u][1..] == [];
    assert Next(s1, 0, u) == n && Reached(Polled(s1, u), n, []) == n;
    assert Offers(s1, data, 0, [u]);
    assert Reached(s1, 0, [u]) == Reached(Polled(s1, u), Next(s1, 0, u), [u][1..]) == n;
    assert Given(s1, data, 0, [u]) == data[0..n] + [] == data;
    assert data[0..n] == data;
  }
}
