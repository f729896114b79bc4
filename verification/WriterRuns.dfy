/** Several writers that charge one file system, their calls in any order. */
module WriterRuns {
  import opened Usage
  import opened Ledger
  import opened Accounting
  import opened Writers

  datatype Disk = Disk(account: Account, writers: seq<Batch>)

  /** A call of one writer: a write of which the file took some bytes, a seek the file followed, or a flush. */
  datatype Call = Write(writer: nat, taken: nat) | Seek(writer: nat, to: nat) | Flush(writer: nat)

  /** What the call does to account and writer, and whether its charge was granted. */
  function Called(d: Disk, call: Call): (Account, Batch, bool)
    requires call.writer < |d.writers|
  {
    var w := d.writers[call.writer];
    match call
    case Write(_, taken) => Written(d.account, w, taken)
    case Seek(_, to) => Sought(d.account, w, to)
    case Flush(_) => Charge(d.account, w)
  }

  function After(d: Disk, call: Call): Disk
    requires call.writer < |d.writers|
  {
    var (a, w, _) := Called(d, call);
    Disk(a, d.writers[call.writer := w])
  }

  /** The bytes of the writer's file the file system has granted. */
  function GrantedOf(w: Batch): int {
    w.highest - w.accumulated
  }

  /** The plain book: what a call is granted is charged to the writer's directory. */
  function BookAfter(d: Disk, book: Book, call: Call): Book
    requires call.writer < |d.writers|
  {
    var w := d.writers[call.writer];
    var more := GrantedOf(Called(d, call).1) - GrantedOf(w);
    if more > 0 then book[w.parent := Own(book, w.parent) + more] else book
  }

  /** There is such a writer, and all bytes not yet charged would keep the total below 2^63. */
  predicate CanCall(d: Disk, call: Call) {
    call.writer < |d.writers| &&
    var w := d.writers[call.writer];
    d.account.cached + (if call.Write? then Advanced(w, call.taken) else w).accumulated <= I64_MAX
  }

  predicate CanCallAll(d: Disk, calls: seq<Call>)
    decreases |calls|
  {
    calls == [] || (CanCall(d, calls[0]) && CanCallAll(After(d, calls[0]), calls[1..]))
  }

  function AfterAll(d: Disk, book: Book, calls: seq<Call>): (Disk, Book)
    requires CanCallAll(d, calls)
    decreases |calls|
  {
    if calls == [] then (d, book) else AfterAll(After(d, calls[0]), BookAfter(d, book, calls[0]), calls[1..])
  }

  /** The bytes of all writers to a directory, as `amount` counts them. */
  function SumAt(writers: seq<Batch>, parent: Path, amount: Batch -> int): int {
    if writers == [] then 0
    else SumAt(writers[1..], parent, amount) + if writers[0].parent == parent then amount(writers[0]) else 0
  }

  lemma {:induction false} SumAtUpdate(writers: seq<Batch>, i: nat, w: Batch, parent: Path, amount: Batch -> int)
    requires i < |writers| && w.parent == writers[i].parent
    ensures SumAt(writers[i := w], parent, amount)
         == SumAt(writers, parent, amount) + if w.parent == parent then amount(w) - amount(writers[i]) else 0
  {
    if i == 0 {
      assert writers[i := w][1..] == writers[1..];
    } else {
      SumAtUpdate(writers[1..], i - 1, w, parent, amount);
      assert writers[i := w][1..] == writers[1..][i - 1 := w];
    }
  }

  /** The book holds, above `base`, exactly the bytes granted to the writers of each directory. */
  ghost predicate Books(writers: seq<Batch>, base: Book, book: Book) {
    forall p :: Own(book, p) == Own(base, p) + SumAt(writers, p, GrantedOf)
  }

  /** One charge: the batch is booked when it is granted. */
  lemma ChargeBooks(a: Account, book: Book, w: Batch)
    requires Indexed(a, book) && a.cached + w.accumulated <= I64_MAX
    ensures
      var (a', w', granted) := Charge(a, w);
      var more := GrantedOf(w') - GrantedOf(w);
      && w'.parent == w.parent && w'.highest == w.highest && more == (if granted then w.accumulated else 0)
      && Indexed(a', if more > 0 then book[w.parent := Own(book, w.parent) + more] else book)
  {
    if w.accumulated > 0 && Allocate(a, w.parent, w.accumulated, w.ignorant).1 {
      ChargeKeepsIndex(a, book, w.parent, w.accumulated, Allocate(a, w.parent, w.accumulated, w.ignorant).0,
                       book[w.parent := Own(book, w.parent) + w.accumulated]);
    }
  }

  lemma CallKeepsIndex(d: Disk, book: Book, call: Call)
    requires CanCall(d, call) && Indexed(d.account, book)
    ensures Indexed(After(d, call).account, BookAfter(d, book, call))
    ensures Called(d, call).1.parent == d.writers[call.writer].parent
    ensures GrantedOf(Called(d, call).1) >= GrantedOf(d.writers[call.writer])
  {
    var w := d.writers[call.writer];
    match call
    case Write(_, taken) =>
      ChargeBooks(d.account, book, Advanced(w, taken));
      assert GrantedOf(Advanced(w, taken)) == GrantedOf(w);
    case _ => ChargeBooks(d.account, book, w);
  }

  lemma CallKeepsBooks(d: Disk, base: Book, book: Book, call: Call)
    requires CanCall(d, call) && Indexed(d.account, book) && Books(d.writers, base, book)
    ensures Books(After(d, call).writers, base, BookAfter(d, book, call))
  {
    CallKeepsIndex(d, book, call);
    forall p
      ensures Own(BookAfter(d, book, call), p) == Own(base, p) + SumAt(After(d, call).writers, p, GrantedOf)
    {
      assert Own(book, p) == Own(base, p) + SumAt(d.writers, p, GrantedOf);
      SumAtUpdate(d.writers, call.writer, Called(d, call).1, p, GrantedOf);
    }
  }

  /** In every interleaving of the writers' calls the tree stays an exact index of the bytes granted. */
  lemma {:induction false} CallsKeepIndex(d: Disk, base: Book, book: Book, calls: seq<Call>)
    requires CanCallAll(d, calls) && Indexed(d.account, book) && Books(d.writers, base, book)
    ensures
      var (d', book') := AfterAll(d, book, calls);
      Indexed(d'.account, book') && Books(d'.writers, base, book')
    decreases |calls|
  {
    if calls != [] {
      CallKeepsIndex(d, book, calls[0]);
      CallKeepsBooks(d, base, book, calls[0]);
      CallsKeepIndex(After(d, calls[0]), base, BookAfter(d, book, calls[0]), calls[1..]);
    }
  }

  // ----- flushing all

  /** Writers that have written nothing yet. */
  predicate AllFresh(writers: seq<Batch>) {
    forall i :: 0 <= i < |writers| ==> writers[i].accumulated == writers[i].highest == 0
  }

  lemma {:induction false} FreshSum(writers: seq<Batch>, p: Path)
    requires AllFresh(writers)
    ensures SumAt(writers, p, GrantedOf) == 0
  {
    if writers != [] {
      FreshSum(writers[1..], p);
    }
  }

  function ExtentOf(w: Batch): int {
    w.highest
  }

  predicate AllCharged(writers: seq<Batch>) {
    forall i :: 0 <= i < |writers| ==> writers[i].accumulated == 0
  }

  lemma {:induction false} ChargedSum(writers: seq<Batch>, p: Path)
    requires AllCharged(writers)
    ensures SumAt(writers, p, GrantedOf) == SumAt(writers, p, ExtentOf)
  {
    if writers != [] {
      ChargedSum(writers[1..], p);
    }
  }

  /** The flushes of the writers from `from` on. */
  function Flushes(from: nat, n: nat): seq<Call>
    requires from <= n
    decreases n - from
  {
    if from == n then [] else [Flush(from)] + Flushes(from + 1, n)
  }

  predicate GrantedAll(d: Disk, calls: seq<Call>)
    requires CanCallAll(d, calls)
    decreases |calls|
  {
    calls == [] || (Called(d, calls[0]).2 && GrantedAll(After(d, calls[0]), calls[1..]))
  }

  lemma {:induction false} FlushesCharge(d: Disk, book: Book, from: nat)
    requires from <= |d.writers| && CanCallAll(d, Flushes(from, |d.writers|)) && GrantedAll(d, Flushes(from, |d.writers|))
    requires forall i :: 0 <= i < from ==> d.writers[i].accumulated == 0
    ensures AllCharged(AfterAll(d, book, Flushes(from, |d.writers|)).0.writers)
    decreases |d.writers| - from
  {
    var n := |d.writers|;
    if from < n {
      assert Flushes(from, n)[1..] == Flushes(from + 1, n);
      FlushesCharge(After(d, Flush(from)), BookAfter(d, book, Flush(from)), from + 1);
    }
  }

  /** Fresh writers on an indexed file system, after any calls and an unrefused flush of each: every directory
      is booked what it was before and the sum of the extents of the files written into it. */
  lemma FlushedExtentsAreBooked(d: Disk, base: Book, calls: seq<Call>, p: Path)
    requires Indexed(d.account, base) && AllFresh(d.writers) && CanCallAll(d, calls)
    requires
      var d1 := AfterAll(d, base, calls).0;
      CanCallAll(d1, Flushes(0, |d1.writers|)) && GrantedAll(d1, Flushes(0, |d1.writers|))
    ensures
      var (d1, book1) := AfterAll(d, base, calls);
      var (d2, book2) := AfterAll(d1, book1, Flushes(0, |d1.writers|));
      Indexed(d2.account, book2) && Own(book2, p) == Own(base, p) + SumAt(d2.writers, p, ExtentOf)
  {
    forall q ensures Own(base, q) == Own(base, q) + SumAt(d.writers, q, GrantedOf) {
      FreshSum(d.writers, q);
    }
    CallsKeepIndex(d, base, base, calls);
    var (d1, book1) := AfterAll(d, base, calls);
    CallsKeepIndex(d1, base, book1, Flushes(0, |d1.writers|));
    var (d2, book2) := AfterAll(d1, book1, Flushes(0, |d1.writers|));
    FlushesCharge(d1, book1, 0);
    ChargedSum(d2.writers, p);
    assert Own(book2, p) == Own(base, p) + SumAt(d2.writers, p, GrantedOf);
  }
}
