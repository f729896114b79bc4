/** Whole runs of disk accounting. */
module Runs {
  import opened Usage
  import opened Ledger
  import opened Accounting
  import opened Scan

  /** The operation releases only bytes charged before, and keeps the cached total below 2^63. */
  ghost predicate Honest(a: Account, book: Book, op: Op) {
    match op
    case Grow(path, delta, _) => 0 <= Own(book, path) + delta && a.cached + delta <= I64_MAX
    case TruncateFile(path, len) => path.Sub? && len <= Own(book, path.up)
    case TruncateDirectory(path) => path.Sub?
    case RenameFile(oldParent, _, len) => len <= Own(book, oldParent)
    case RenameDirectory(oldPath, newPath) => oldPath.Sub? && newPath.Sub?
    case TruncateRoot => true
    case Rescan(entries) => ScanSum(entries, Root) <= I64_MAX
    case SetLimit(_) => true
  }

  /** A deleted file's bytes are charged where no node with bytes stands. */
  predicate DeletesCleanly(a: Account, op: Op) {
    match op
    case TruncateFile(path, len) => len == 0 || SizeAt(a.sizes, path) == 0
    case _ => true
  }

  /** A renamed directory replaces no node with bytes. */
  predicate ReplacesNothing(a: Account, op: Op) {
    match op
    case RenameDirectory(oldPath, newPath) => SizeAt(Detached(a.sizes, oldPath), newPath) == 0
    case _ => true
  }

  lemma OwnAtMostTotal(book: Book, path: Path)
    ensures Own(book, path) <= Total(book)
  {
    UnderRoot(path);
    OwnWithin(book, path, Root);
  }

  lemma SameBook(book: Book, path: Path)
    ensures forall p :: SumUnder(book[path := Own(book, path)], p) == SumUnder(book, p)
    ensures Total(book[path := Own(book, path)]) == Total(book)
  {
    TotalUpdate(book, path, Own(book, path));
    forall p ensures SumUnder(book[path := Own(book, path)], p) == SumUnder(book, p) {
      SumUnderUpdate(book, path, Own(book, path), p);
    }
  }

  lemma AllocateKeepsIndex(a: Account, book: Book, path: Path, delta: int, ignorant: bool, a': Account, book': Book)
    requires Indexed(a, book) && 0 <= Own(book, path) + delta && Total(book) + delta <= I64_MAX
    requires a' == Allocate(a, path, delta, ignorant).0
    requires book' == if Allocate(a, path, delta, ignorant).1 then book[path := Own(book, path) + delta] else book
    ensures Indexed(a', book')
  {
    if delta == 0 {
      SameBook(book, path);
    } else if Allocate(a, path, delta, ignorant).1 {
      ChargeKeepsIndex(a, book, path, delta, a', book');
    }
  }

  lemma TruncateFileKeepsIndexIff(a: Account, book: Book, path: Path, len: u64, a': Account, book': Book)
    requires Indexed(a, book) && Honest(a, book, TruncateFile(path, len))
    requires a' == Apply(a, TruncateFile(path, len)) && book' == Booked(a, book, TruncateFile(path, len))
    ensures Indexed(a', book') <==> DeletesCleanly(a, TruncateFile(path, len))
  {
    OwnAtMostTotal(book, path.up);
    if len == 0 {
      SameBook(book, path.up);
    } else {
      FileDeletionKeepsIndexIff(a, book, path, len, a', book');
    }
  }

  /** Bytes moved from one directory to another: a release followed by a charge. */
  lemma MoveKeepsIndex(a: Account, book: Book, from: Path, to: Path, len: u64,
                       released: Account, without: Book, a': Account, book': Book)
    requires Indexed(a, book) && len <= Own(book, from)
    requires released == Allocate(a, from, -(len as int), true).0 && a' == Allocate(released, to, len, true).0
    requires without == book[from := Own(book, from) - len] && book' == without[to := Own(without, to) + len]
    ensures Indexed(a', book')
  {
    TotalReleased(book, from, len);
    assert Own(book, from) - len == Own(book, from) + -(len as int);
    AllocateKeepsIndex(a, book, from, -(len as int), true, released, without);
    AllocateKeepsIndex(released, without, to, len, true, a', book');
  }

  lemma RenameFileKeepsIndex(a: Account, book: Book, oldParent: Path, newParent: Path, len: u64, a': Account, book': Book)
    requires Indexed(a, book) && len <= Own(book, oldParent) && len <= I64_MAX
    requires a' == RenamedFile(a, oldParent, newParent, len) && book' == MovedBytes(book, oldParent, newParent, len)
    ensures Indexed(a', book')
  {
    var released, without := ReleasedFile(a, book, oldParent, len);
    assert a' == Allocate(released, newParent, len, true).0;
    MoveKeepsIndex(a, book, oldParent, newParent, len, released, without, a', book');
  }

  lemma ReleasedFile(a: Account, book: Book, oldParent: Path, len: u64) returns (released: Account, without: Book)
    requires len <= Own(book, oldParent) && len <= I64_MAX
    ensures released == Allocate(a, oldParent, -(len as int), true).0 == Allocate(a, oldParent, -AsI64(len), true).0
    ensures without == book[oldParent := Own(book, oldParent) - len]
  {
    released := Allocate(a, oldParent, -(len as int), true).0;
    without := book[oldParent := Own(book, oldParent) - len];
  }

  lemma TotalReleased(book: Book, path: Path, len: nat)
    requires len <= Own(book, path)
    ensures Total(book[path := Own(book, path) - len]) == Total(book) - len
  {
    TotalUpdate(book, path, Own(book, path) - len);
  }

  /** An operation that releases only what was charged keeps the tree an exact index precisely when no
      deletion meets a node under the file's name and no renamed directory replaces one with bytes. */
  lemma StepKeepsIndexIff(a: Account, book: Book, op: Op, a': Account, book': Book)
    requires Indexed(a, book) && Honest(a, book, op)
    requires a' == Apply(a, op) && book' == Booked(a, book, op)
    ensures Indexed(a', book') <==> DeletesCleanly(a, op) && ReplacesNothing(a, op)
  {
    match op
    case Grow(path, delta, ignorant) => AllocateKeepsIndex(a, book, path, delta, ignorant, a', book');
    case TruncateFile(path, len) => TruncateFileKeepsIndexIff(a, book, path, len, a', book');
    case TruncateDirectory(path) => TruncateDirectoryKeepsIndex(a, book, path, a', book');
    case RenameFile(oldParent, newParent, len) =>
      OwnAtMostTotal(book, oldParent);
      RenameFileKeepsIndex(a, book, oldParent, newParent, len, a', book');
    case RenameDirectory(oldPath, newPath) => RenameKeepsIndexIff(a, book, oldPath, newPath, a', book');
    case TruncateRoot =>
      EmptyBook();
    case Rescan(entries) => ScanIsIndexed(entries, a');
    case SetLimit(_) =>
  }

  lemma EmptyBook()
    ensures Total(map[]) == 0 && forall p :: SumUnder(map[], p) == 0
  {
    assert Bytes(map[]) == {};
    forall p ensures SumUnder(map[], p) == 0 {
      assert Within(map[], p) == map[];
    }
  }

  function Run(a: Account, ops: seq<Op>): Account
    decreases |ops|
  {
    if ops == [] then a else Run(Apply(a, ops[0]), ops[1..])
  }

  ghost function BookRun(a: Account, book: Book, ops: seq<Op>): Book
    decreases |ops|
  {
    if ops == [] then book else BookRun(Apply(a, ops[0]), Booked(a, book, ops[0]), ops[1..])
  }

  ghost predicate HonestRun(a: Account, book: Book, ops: seq<Op>)
    decreases |ops|
  {
    ops == [] || (Honest(a, book, ops[0]) && HonestRun(Apply(a, ops[0]), Booked(a, book, ops[0]), ops[1..]))
  }

  /** No deletion of the run meets a node with bytes under the file's name ... */
  predicate DeletesCleanlyAll(a: Account, ops: seq<Op>)
    decreases |ops|
  {
    ops == [] || (DeletesCleanly(a, ops[0]) && DeletesCleanlyAll(Apply(a, ops[0]), ops[1..]))
  }

  /** ... and no directory is renamed onto one. */
  predicate ReplacesNothingAll(a: Account, ops: seq<Op>)
    decreases |ops|
  {
    ops == [] || (ReplacesNothing(a, ops[0]) && ReplacesNothingAll(Apply(a, ops[0]), ops[1..]))
  }

  ghost predicate IndexedThroughout(a: Account, book: Book, ops: seq<Op>)
    decreases |ops|
  {
    && Indexed(a, book)
    && (ops != [] ==> IndexedThroughout(Apply(a, ops[0]), Booked(a, book, ops[0]), ops[1..]))
  }

  /** In a run that releases only what was charged, every state is an exact index of the bytes booked
      precisely when each deletion and each rename of a directory meets its condition. */
  lemma {:induction false} RunKeepsIndexIff(a: Account, book: Book, ops: seq<Op>)
    requires Indexed(a, book) && HonestRun(a, book, ops)
    ensures IndexedThroughout(a, book, ops) <==> DeletesCleanlyAll(a, ops) && ReplacesNothingAll(a, ops)
    decreases |ops|
  {
    if ops != [] {
      var a', book' := Apply(a, ops[0]), Booked(a, book, ops[0]);
      StepKeepsIndexIff(a, book, ops[0], a', book');
      if Indexed(a', book') {
        RunKeepsIndexIff(a', book', ops[1..]);
      }
    }
  }

  // ----- what an exact index means for a node and its children

  function ChildSum(sizes: Sizes, p: Path, names: seq<Name>): nat {
    if names == [] then 0
    else ChildSum(sizes, p, names[..|names| - 1]) + SizeAt(sizes, Sub(p, names[|names| - 1]))
  }

  ghost predicate Distinct(names: seq<Name>) {
    forall i, j :: 0 <= i < j < |names| ==> names[i] != names[j]
  }

  /** The charges at `p` and below it outside the subdirectories `names`. */
  ghost function Rest(book: Book, p: Path, names: seq<Name>): Book {
    map q | q in book && Under(q, p) && (forall k :: k in names ==> !Under(q, Sub(p, k))) :: book[q]
  }

  lemma SiblingsApart(p: Path, k: Name, other: Name, q: Path)
    requires k != other && Under(q, Sub(p, k))
    ensures !Under(q, Sub(p, other))
  {
    if Under(q, Sub(p, other)) {
      Comparable(q, Sub(p, k), Sub(p, other));
      UnderDepthOf(p, k, other);
      UnderDepthOf(p, other, k);
    }
  }

  lemma UnderDepthOf(p: Path, k: Name, other: Name)
    ensures Under(Sub(p, k), Sub(p, other)) ==> k == other
  {
    if Under(Sub(p, k), Sub(p, other)) {
      UnderDepth(Sub(p, k), Sub(p, other));
    }
  }

  lemma {:induction false} ChildrenSplit(sizes: Sizes, book: Book, p: Path, names: seq<Name>)
    requires Distinct(names) && forall q: Path :: q.Sub? ==> SizeAt(sizes, q) == SumUnder(book, q)
    ensures SumUnder(book, p) == ChildSum(sizes, p, names) + Total(Rest(book, p, names))
  {
    if names == [] {
      assert Rest(book, p, names) == Within(book, p);
    } else {
      var init, k := names[..|names| - 1], names[|names| - 1];
      ChildrenSplit(sizes, book, p, init);
      RestSplit(book, p, init, k);
      assert names == init + [k];
      TotalSplit(Rest(book, p, init), Sub(p, k));
    }
  }

  lemma RestSplit(book: Book, p: Path, names: seq<Name>, k: Name)
    requires k !in names
    ensures Within(Rest(book, p, names), Sub(p, k)) == Within(book, Sub(p, k))
    ensures Pruned(Rest(book, p, names), Sub(p, k)) == Rest(book, p, names + [k])
  {
    forall q | Under(q, Sub(p, k))
      ensures Under(q, p) && forall other :: other in names ==> !Under(q, Sub(p, other))
    {
      UnderUp(q, Sub(p, k));
      forall other | other in names
        ensures !Under(q, Sub(p, other))
      {
        SiblingsApart(p, k, other, q);
      }
    }
  }

  lemma ChildOnTheWay(q: Path, p: Path) returns (k: Name)
    requires Under(q, p) && q != p
    ensures Under(q, Sub(p, k))
  {
    if q.up == p {
      k := q.name;
    } else {
      k := ChildOnTheWay(q.up, p);
    }
  }

  lemma RestIsOwn(sizes: Sizes, book: Book, p: Path, names: seq<Name>)
    requires forall q: Path :: q.Sub? ==> SizeAt(sizes, q) == SumUnder(book, q)
    requires forall k :: Sub(p, k) in sizes ==> k in names
    ensures Total(Rest(book, p, names)) == Own(book, p)
  {
    forall q | q in Rest(book, p, names) && q != p
      ensures book[q] == 0
    {
      var k := ChildOnTheWay(q, p);
      assert Sub(p, k) !in sizes;
      OwnWithin(book, q, Sub(p, k));
    }
    forall k
      ensures !Under(p, Sub(p, k))
    {
      NotUnder(p, Sub(p, k));
    }
    assert Bytes(Rest(book, p, names)) == BytesOf(p, Own(book, p));
    CountBytesOf(p, Own(book, p));
  }

  /** Every node but the root records its own bytes plus exactly what its children record, and the
      cached total is the bytes charged at the root plus what the top-level nodes record. */
  lemma NodeIsOwnPlusChildren(a: Account, book: Book, p: Path, names: seq<Name>)
    requires Indexed(a, book) && Distinct(names)
    requires forall k :: Sub(p, k) in a.sizes ==> k in names
    ensures (if p.Root? then a.cached else SizeAt(a.sizes, p)) == Own(book, p) + ChildSum(a.sizes, p, names)
  {
    ChildrenSplit(a.sizes, book, p, names);
    RestIsOwn(a.sizes, book, p, names);
    SumUnderRoot(book);
  }

  // ----- runs that rename directories onto others

  /** `shadow` books at least what `book` does, directory by directory. */
  ghost predicate Covers(shadow: Book, book: Book) {
    forall p :: Own(shadow, p) >= Own(book, p)
  }

  function Least(a: nat, b: nat): nat {
    if a < b then a else b
  }

  /** `len` bytes released, `m` of them at `path` and the others at its parent. */
  function Lowered(shadow: Book, path: Path, m: nat, len: nat): Book
    requires path.Sub? && m <= len
  {
    if m <= Own(shadow, path) && len - m <= Own(shadow, path.up) then
      shadow[path := Own(shadow, path) - m][path.up := Own(shadow, path.up) - (len - m)]
    else shadow
  }

  /** The bookkeeping in which the bytes a renamed directory replaces stay with their parent, and a deleted
      file's bytes are taken off the node under its name first. */
  ghost function Shadowed(a: Account, shadow: Book, op: Op): Book {
    match op
    case RenameDirectory(oldPath, newPath) =>
      if newPath.Root? || oldPath !in a.sizes then shadow else MovedOver(shadow, oldPath, newPath)
    case TruncateFile(path, len) =>
      if path.Root? then shadow else Lowered(shadow, path, Least(len, SizeAt(a.sizes, path)), len)
    case _ => Booked(a, shadow, op)
  }

  ghost function ShadowRun(a: Account, shadow: Book, ops: seq<Op>): Book
    decreases |ops|
  {
    if ops == [] then shadow else ShadowRun(Apply(a, ops[0]), Shadowed(a, shadow, ops[0]), ops[1..])
  }

  lemma OwnPruned(book: Book, at: Path, q: Path)
    ensures Own(Pruned(book, at), q) == if Under(q, at) then 0 else Own(book, q)
  {
  }

  lemma OwnMovedTree(book: Book, oldPath: Path, newPath: Path, q: Path)
    ensures Own(MovedTree(book, oldPath, newPath), q) ==
            if Under(q, newPath) then Own(book, Join(oldPath, Below(newPath, q)))
            else if Under(q, oldPath) then 0
            else Own(book, q)
  {
    OwnPruned(book, oldPath, q);
    OwnPruned(Pruned(book, oldPath), newPath, q);
  }

  lemma MovedTreeCovers(shadow: Book, book: Book, oldPath: Path, newPath: Path)
    requires Covers(shadow, book)
    ensures Covers(MovedTree(shadow, oldPath, newPath), MovedTree(book, oldPath, newPath))
  {
    forall q
      ensures Own(MovedTree(shadow, oldPath, newPath), q) >= Own(MovedTree(book, oldPath, newPath), q)
    {
      OwnMovedTree(shadow, oldPath, newPath, q);
      OwnMovedTree(book, oldPath, newPath, q);
    }
  }

  /** Nothing is charged below a directory the tree does not know. */
  lemma UnknownCovers(shadow: Book, book: Book, oldPath: Path, newPath: Path)
    requires Covers(shadow, book) && SumUnder(shadow, oldPath) == 0
    ensures Covers(shadow, MovedTree(book, oldPath, newPath))
  {
    forall q
      ensures Own(shadow, q) >= Own(MovedTree(book, oldPath, newPath), q)
    {
      OwnMovedTree(book, oldPath, newPath, q);
      if Under(q, newPath) {
        BelowJoin(oldPath, Below(newPath, q));
        OwnWithin(shadow, Join(oldPath, Below(newPath, q)), oldPath);
      }
    }
  }

  lemma KeptCovers(shadow: Book, book: Book, up: Path, lost: nat)
    requires Covers(shadow, book)
    ensures Covers(Kept(shadow, up, lost), book)
  {
    forall q
      ensures Own(Kept(shadow, up, lost), q) >= Own(book, q)
    {
      assert Own(shadow, q) >= Own(book, q);
    }
  }

  lemma UpdateCovers(shadow: Book, book: Book, path: Path, value: nat, less: nat, shadow': Book, book': Book)
    requires Covers(shadow, book) && less <= value
    requires shadow' == shadow[path := value] && book' == book[path := less]
    ensures Covers(shadow', book')
  {
    forall q
      ensures Own(shadow', q) >= Own(book', q)
    {
      assert Own(shadow, q) >= Own(book, q);
    }
  }

  lemma MovedBytesCovers(shadow: Book, book: Book, oldParent: Path, newParent: Path, len: nat)
    requires Covers(shadow, book) && len <= Own(book, oldParent)
    ensures Covers(MovedBytes(shadow, oldParent, newParent, len), MovedBytes(book, oldParent, newParent, len))
  {
    var kept, without := shadow[oldParent := Own(shadow, oldParent) - len], book[oldParent := Own(book, oldParent) - len];
    assert Own(shadow, oldParent) >= Own(book, oldParent);
    UpdateCovers(shadow, book, oldParent, Own(shadow, oldParent) - len, Own(book, oldParent) - len, kept, without);
    assert Own(kept, newParent) >= Own(without, newParent);
    UpdateCovers(kept, without, newParent, Own(kept, newParent) + len, Own(without, newParent) + len,
                 MovedBytes(shadow, oldParent, newParent, len), MovedBytes(book, oldParent, newParent, len));
  }

  lemma PrunedCovers(shadow: Book, book: Book, path: Path)
    requires Covers(shadow, book)
    ensures Covers(Pruned(shadow, path), Pruned(book, path))
  {
    forall q
      ensures Own(Pruned(shadow, path), q) >= Own(Pruned(book, path), q)
    {
      OwnPruned(shadow, path, q);
      OwnPruned(book, path, q);
    }
  }

  // ----- what a deletion leaves of the node under the file's name

  /** A node records at least the bytes booked at it and what its children record; for the root the cached
      total does. */
  ghost predicate NodeCovers(a: Account, book: Book, p: Path) {
    forall names :: Distinct(names) ==>
                      (if p.Root? then a.cached else SizeAt(a.sizes, p)) >= Own(book, p) + ChildSum(a.sizes, p, names)
  }

  ghost predicate SizesCover(a: Account, book: Book) {
    forall p :: NodeCovers(a, book, p)
  }

  /** A deletion leaves the node under the file's name its own bytes and what its children record. */
  ghost predicate LeavesEnough(a: Account, book: Book, op: Op) {
    match op
    case TruncateFile(path, len) =>
      forall names :: Distinct(names) ==>
                        SaturatingSub(SizeAt(a.sizes, path), len) >= Own(book, path) + ChildSum(a.sizes, path, names)
    case _ => true
  }

  lemma CoveredNode(a: Account, shadow: Book, book: Book, p: Path)
    requires Indexed(a, shadow) && Covers(shadow, book)
    ensures NodeCovers(a, book, p)
  {
    SumUnderRoot(shadow);
    UnderRoot(p);
    forall k ensures !Under(p, Sub(p, k)) {
      NotUnder(p, Sub(p, k));
    }
    forall names | Distinct(names)
      ensures (if p.Root? then a.cached else SizeAt(a.sizes, p)) >= Own(book, p) + ChildSum(a.sizes, p, names)
    {
      ChildrenSplit(a.sizes, shadow, p, names);
      assert Own(Rest(shadow, p, names), p) == Own(shadow, p);
      OwnWithin(Rest(shadow, p, names), p, Root);
      assert Own(shadow, p) >= Own(book, p);
    }
  }

  lemma ListChildren(sizes: Sizes, p: Path) returns (names: seq<Name>)
    ensures Distinct(names) && forall k :: Sub(p, k) in sizes ==> k in names
  {
    names := [];
    var left := set q | q in sizes && q.Sub? && q.up == p :: q.name;
    assert forall k :: Sub(p, k) in sizes ==> k in left by {
      forall k | Sub(p, k) in sizes ensures k in left { assert Sub(p, k).name == k; }
    }
    while left != {}
      invariant Distinct(names) && forall k :: k in names ==> k !in left
      invariant forall k :: Sub(p, k) in sizes ==> k in names || k in left
    {
      var k :| k in left;
      names, left := names + [k], left - {k};
    }
  }

  lemma {:induction false} SameChildSum(sizes: Sizes, sizes': Sizes, p: Path, names: seq<Name>)
    requires forall k :: SizeAt(sizes, Sub(p, k)) == SizeAt(sizes', Sub(p, k))
    ensures ChildSum(sizes, p, names) == ChildSum(sizes', p, names)
  {
    if names != [] {
      SameChildSum(sizes, sizes', p, names[..|names| - 1]);
    }
  }

  /** What a deletion leaves enough at a node is spare: the shadow books it beyond the book. */
  lemma EnoughIsSpare(a: Account, shadow: Book, book: Book, path: Path, len: u64)
    requires Indexed(a, shadow) && path.Sub? && LeavesEnough(a, book, TruncateFile(path, len))
    ensures Own(book, path) + Least(len, SizeAt(a.sizes, path)) <= Own(shadow, path)
  {
    var names := ListChildren(a.sizes, path);
    NodeIsOwnPlusChildren(a, shadow, path, names);
  }

  lemma LoweredSums(shadow: Book, path: Path, m: nat, len: nat, q: Path)
    requires path.Sub? && m <= len && m <= Own(shadow, path) && len - m <= Own(shadow, path.up)
    ensures SumUnder(Lowered(shadow, path, m, len), q)
            + (if Under(path, q) then m else 0) + (if Under(path.up, q) then len - m else 0)
         == SumUnder(shadow, q)
  {
    var first := shadow[path := Own(shadow, path) - m];
    SumUnderUpdate(shadow, path, Own(shadow, path) - m, q);
    SumUnderUpdate(first, path.up, Own(shadow, path.up) - (len - m), q);
  }

  lemma LoweredAtNode(a: Account, shadow: Book, path: Path, m: nat, len: u64, q: Path)
    requires Indexed(a, shadow) && path.Sub? && q.Sub? && m == Least(len, SizeAt(a.sizes, path))
    requires m <= Own(shadow, path) && len - m <= Own(shadow, path.up)
    ensures SizeAt(Charged(a.sizes, path, -(len as int)), q) == SumUnder(Lowered(shadow, path, m, len), q)
  {
    ChargedSizeAt(a.sizes, path, -(len as int), q);
    LoweredSums(shadow, path, m, len, q);
    AboveTarget(path, q);
    if q != path && Under(path, q) {
      UnderOther(path, q);
    }
  }

  lemma UnderOther(path: Path, q: Path)
    requires path.Sub? && q != path && Under(path, q)
    ensures !Under(q, path)
  {
    if Under(q, path) {
      UnderBoth(q, path);
    }
  }

  /** Deleting over a node with bytes to spare leaves an exact index with those bytes gone. */
  lemma DeletionKeepsLowered(a: Account, shadow: Book, path: Path, len: u64, m: nat, a': Account)
    requires Indexed(a, shadow) && path.Sub? && m == Least(len, SizeAt(a.sizes, path))
    requires m <= Own(shadow, path) && len <= Own(shadow, path.up) && a' == Apply(a, TruncateFile(path, len))
    ensures Indexed(a', Lowered(shadow, path, m, len))
  {
    OwnAtMostTotal(shadow, path.up);
    LoweredSums(shadow, path, m, len, Root);
    UnderRoot(path);
    UnderRoot(path.up);
    SumUnderRoot(shadow);
    SumUnderRoot(Lowered(shadow, path, m, len));
    if len == 0 {
      forall q: Path | q.Sub?
        ensures SizeAt(a'.sizes, q) == SumUnder(Lowered(shadow, path, m, len), q)
      {
        LoweredSums(shadow, path, m, len, q);
      }
    } else {
      DeletionApplied(a, path, len);
      ChargedIsTree(a.sizes, path, -(len as int));
      forall q: Path | q.Sub?
        ensures SizeAt(a'.sizes, q) == SumUnder(Lowered(shadow, path, m, len), q)
      {
        LoweredAtNode(a, shadow, path, m, len, q);
      }
    }
  }

  lemma DeletionApplied(a: Account, path: Path, len: u64)
    requires path.Sub? && 0 < len <= a.cached && len <= I64_MAX
    ensures
      var a' := Apply(a, TruncateFile(path, len));
      a'.sizes == Charged(a.sizes, path, -(len as int)) && a'.cached == a.cached - len
  {
  }

  lemma LoweredCovers(shadow: Book, book: Book, path: Path, m: nat, len: nat, book': Book)
    requires Covers(shadow, book) && path.Sub? && m <= len <= Own(book, path.up)
    requires Own(book, path) + m <= Own(shadow, path) && book' == book[path.up := Own(book, path.up) - len]
    ensures Covers(Lowered(shadow, path, m, len), book')
  {
    assert Own(shadow, path.up) >= Own(book, path.up);
    forall q
      ensures Own(Lowered(shadow, path, m, len), q) >= Own(book', q)
    {
      assert Own(shadow, q) >= Own(book, q);
    }
  }

  lemma StepCovers(a: Account, shadow: Book, book: Book, op: Op)
    requires Indexed(a, shadow) && Covers(shadow, book) && Honest(a, book, op) && LeavesEnough(a, book, op)
    ensures Covers(Shadowed(a, shadow, op), Booked(a, book, op))
  {
    match op
    case Grow(path, delta, _) =>
      assert Own(shadow, path) >= Own(book, path);
      UpdateCovers(shadow, book, path, Own(shadow, path) + delta, Own(book, path) + delta,
                   shadow[path := Own(shadow, path) + delta], book[path := Own(book, path) + delta]);
    case TruncateFile(path, len) =>
      EnoughIsSpare(a, shadow, book, path, len);
      LoweredCovers(shadow, book, path, Least(len, SizeAt(a.sizes, path)), len, Booked(a, book, op));
    case TruncateDirectory(path) => PrunedCovers(shadow, book, path);
    case RenameFile(oldParent, newParent, len) => MovedBytesCovers(shadow, book, oldParent, newParent, len);
    case RenameDirectory(oldPath, newPath) =>
      if oldPath in a.sizes {
        MovedTreeCovers(shadow, book, oldPath, newPath);
        KeptCovers(MovedTree(shadow, oldPath, newPath), MovedTree(book, oldPath, newPath), newPath.up, Lost(shadow, oldPath, newPath));
      } else {
        UnknownCovers(shadow, book, oldPath, newPath);
      }
    case TruncateRoot =>
    case Rescan(_) =>
    case SetLimit(_) =>
  }

  /** What was charged in the book was charged in one that covers it. */
  lemma HonestToo(a: Account, shadow: Book, book: Book, op: Op)
    requires Covers(shadow, book) && Honest(a, book, op)
    ensures Honest(a, shadow, op)
  {
    match op
    case Grow(path, _, _) => assert Own(shadow, path) >= Own(book, path);
    case TruncateFile(path, _) => assert Own(shadow, path.up) >= Own(book, path.up);
    case RenameFile(oldParent, _, _) => assert Own(shadow, oldParent) >= Own(book, oldParent);
    case _ =>
  }

  lemma StepKeepsShadow(a: Account, shadow: Book, book: Book, op: Op, a': Account)
    requires Indexed(a, shadow) && Covers(shadow, book) && Honest(a, book, op) && LeavesEnough(a, book, op)
    requires a' == Apply(a, op)
    ensures Indexed(a', Shadowed(a, shadow, op))
  {
    HonestToo(a, shadow, book, op);
    match op
    case RenameDirectory(oldPath, newPath) =>
      if oldPath in a.sizes {
        RenameKeepsMovedOver(a, shadow, oldPath, newPath, a');
      }
    case TruncateFile(path, len) =>
      EnoughIsSpare(a, shadow, book, path, len);
      DeletionKeepsLowered(a, shadow, path, len, Least(len, SizeAt(a.sizes, path)), a');
    case _ => StepKeepsIndexIff(a, shadow, op, a', Booked(a, shadow, op));
  }

  lemma DeletionAtNode(a: Account, path: Path, len: u64, a': Account)
    requires path.Sub? && len <= a.cached && len <= I64_MAX && a' == Apply(a, TruncateFile(path, len))
    ensures SizeAt(a'.sizes, path) == SaturatingSub(SizeAt(a.sizes, path), len)
    ensures forall k :: SizeAt(a'.sizes, Sub(path, k)) == SizeAt(a.sizes, Sub(path, k))
  {
    if len > 0 {
      DeletionApplied(a, path, len);
      ChargedSizeAt(a.sizes, path, -(len as int), path);
      forall k ensures SizeAt(a'.sizes, Sub(path, k)) == SizeAt(a.sizes, Sub(path, k)) {
        NotUnder(path, Sub(path, k));
        ChargedSizeAt(a.sizes, path, -(len as int), Sub(path, k));
      }
    }
  }

  /** Where the node under the file's name is covered after a deletion, it was left enough. */
  lemma CoveredWasEnough(a: Account, book: Book, path: Path, len: u64, a': Account, book': Book)
    requires path.Sub? && len <= a.cached && len <= I64_MAX && len <= Own(book, path.up)
    requires a' == Apply(a, TruncateFile(path, len)) && book' == book[path.up := Own(book, path.up) - len]
    requires NodeCovers(a', book', path)
    ensures LeavesEnough(a, book, TruncateFile(path, len))
  {
    DeletionAtNode(a, path, len, a');
    assert Own(book', path) == Own(book, path);
    forall names | Distinct(names)
      ensures SaturatingSub(SizeAt(a.sizes, path), len) >= Own(book, path) + ChildSum(a.sizes, path, names)
    {
      SameChildSum(a.sizes, a'.sizes, path, names);
    }
  }

  /** An operation that releases only what was charged leaves every node covered precisely when, as a
      deletion, it leaves enough at the one node under the file's name. */
  lemma StepKeepsSizesIff(a: Account, shadow: Book, book: Book, op: Op)
    requires Indexed(a, shadow) && Covers(shadow, book) && Honest(a, book, op)
    ensures SizesCover(Apply(a, op), Booked(a, book, op)) <==> LeavesEnough(a, book, op)
    ensures LeavesEnough(a, book, op) ==>
              Indexed(Apply(a, op), Shadowed(a, shadow, op)) && Covers(Shadowed(a, shadow, op), Booked(a, book, op))
  {
    var a', book' := Apply(a, op), Booked(a, book, op);
    if LeavesEnough(a, book, op) {
      StepKeepsShadow(a, shadow, book, op, a');
      StepCovers(a, shadow, book, op);
      forall p ensures NodeCovers(a', book', p) {
        CoveredNode(a', Shadowed(a, shadow, op), book', p);
      }
    } else if SizesCover(a', book') {
      var path, len := op.path, op.len;
      assert NodeCovers(a', book', path);
      assert Own(shadow, path.up) >= Own(book, path.up);
      OwnAtMostTotal(shadow, path.up);
      CoveredWasEnough(a, book, path, len, a', book');
    }
  }

  // ----- runs

  ghost predicate LeavesEnoughAll(a: Account, book: Book, ops: seq<Op>)
    decreases |ops|
  {
    ops == [] || (LeavesEnough(a, book, ops[0]) && LeavesEnoughAll(Apply(a, ops[0]), Booked(a, book, ops[0]), ops[1..]))
  }

  ghost predicate CoveredThroughout(a: Account, book: Book, ops: seq<Op>)
    decreases |ops|
  {
    && SizesCover(a, book)
    && (ops != [] ==> CoveredThroughout(Apply(a, ops[0]), Booked(a, book, ops[0]), ops[1..]))
  }

  /** In every run whose deletions leave enough, whatever its directories are renamed onto, the tree is the
      exact index of a book that covers the bytes booked. */
  lemma {:induction false} RunKeepsShadow(a: Account, shadow: Book, book: Book, ops: seq<Op>)
    requires Indexed(a, shadow) && Covers(shadow, book)
    requires HonestRun(a, book, ops) && LeavesEnoughAll(a, book, ops)
    ensures Indexed(Run(a, ops), ShadowRun(a, shadow, ops))
    ensures Covers(ShadowRun(a, shadow, ops), BookRun(a, book, ops))
    decreases |ops|
  {
    if ops != [] {
      StepKeepsSizesIff(a, shadow, book, ops[0]);
      RunKeepsShadow(Apply(a, ops[0]), Shadowed(a, shadow, ops[0]), Booked(a, book, ops[0]), ops[1..]);
    }
  }

  /** In every run that releases only what was charged, each state has every node record at least the bytes
      booked at it and its children's sizes, precisely when each deletion leaves enough at its one node. */
  lemma {:induction false} RunKeepsSizesIff(a: Account, shadow: Book, book: Book, ops: seq<Op>)
    requires Indexed(a, shadow) && Covers(shadow, book) && HonestRun(a, book, ops)
    ensures CoveredThroughout(a, book, ops) <==> LeavesEnoughAll(a, book, ops)
    decreases |ops|
  {
    forall p ensures NodeCovers(a, book, p) {
      CoveredNode(a, shadow, book, p);
    }
    if ops != [] {
      var a', book' := Apply(a, ops[0]), Booked(a, book, ops[0]);
      StepKeepsSizesIff(a, shadow, book, ops[0]);
      if LeavesEnough(a, book, ops[0]) {
        RunKeepsSizesIff(a', Shadowed(a, shadow, ops[0]), book', ops[1..]);
      }
    }
  }

  /** A deletion that meets no node with bytes leaves enough. */
  lemma CleanIsEnough(a: Account, shadow: Book, book: Book, op: Op)
    requires Indexed(a, shadow) && Covers(shadow, book) && DeletesCleanly(a, op) && Honest(a, book, op)
    ensures LeavesEnough(a, book, op)
  {
    if op.TruncateFile? {
      CoveredNode(a, shadow, book, op.path);
      assert NodeCovers(a, book, op.path);
    }
  }

  /** In an exact index, leaving enough is meeting no node with bytes. */
  lemma EnoughIffClean(a: Account, book: Book, op: Op)
    requires Indexed(a, book) && Honest(a, book, op)
    ensures LeavesEnough(a, book, op) <==> DeletesCleanly(a, op)
  {
    if DeletesCleanly(a, op) {
      CleanIsEnough(a, book, book, op);
    } else if LeavesEnough(a, book, op) {
      EnoughIsSpare(a, book, book, op.path, op.len);
    }
  }

  lemma {:induction false} CleanRunLeavesEnough(a: Account, shadow: Book, book: Book, ops: seq<Op>)
    requires Indexed(a, shadow) && Covers(shadow, book) && HonestRun(a, book, ops) && DeletesCleanlyAll(a, ops)
    ensures LeavesEnoughAll(a, book, ops)
    decreases |ops|
  {
    if ops != [] {
      CleanIsEnough(a, shadow, book, ops[0]);
      StepKeepsSizesIff(a, shadow, book, ops[0]);
      CleanRunLeavesEnough(Apply(a, ops[0]), Shadowed(a, shadow, ops[0]), Booked(a, book, ops[0]), ops[1..]);
    }
  }

  /** Where no directory is renamed onto another, every state is covered precisely when no deletion meets a
      node with bytes. */
  lemma {:induction false} RunKeepsSizesIffClean(a: Account, book: Book, ops: seq<Op>)
    requires Indexed(a, book) && HonestRun(a, book, ops) && ReplacesNothingAll(a, ops)
    ensures CoveredThroughout(a, book, ops) <==> DeletesCleanlyAll(a, ops)
    decreases |ops|
  {
    RunKeepsSizesIff(a, book, book, ops);
    if ops != [] {
      EnoughIffClean(a, book, ops[0]);
      var a', book' := Apply(a, ops[0]), Booked(a, book, ops[0]);
      StepKeepsIndexIff(a, book, ops[0], a', book');
      if DeletesCleanly(a, ops[0]) {
        RunKeepsSizesIff(a', book', book', ops[1..]);
        RunKeepsSizesIffClean(a', book', ops[1..]);
      }
    }
  }

  lemma CoverTotals(shadow: Book, book: Book, p: Path)
    requires Covers(shadow, book)
    ensures Total(book) <= Total(shadow)
    ensures Total(book) == Total(shadow) ==> SumUnder(book, p) == SumUnder(shadow, p)
  {
    forall q, i | (q, i) in Bytes(book) ensures (q, i) in Bytes(shadow) {
      assert Own(shadow, q) >= Own(book, q);
    }
    SubsetSize(Bytes(book), Bytes(shadow));
    if Total(book) == Total(shadow) {
      BytesWithin(book, p);
      BytesWithin(shadow, p);
    }
  }

  lemma BytesWithin(book: Book, p: Path)
    ensures Bytes(Within(book, p)) == set b | b in Bytes(book) && Under(b.0, p)
  {
  }

  lemma SubsetSize<T>(a: set<T>, b: set<T>)
    requires a <= b
    ensures |a| <= |b| && (|a| == |b| ==> a == b)
  {
    assert b == a + (b - a);
  }

  /** The state a run whose deletions leave enough ends in is an exact index precisely when the cached total is the bytes booked. */
  lemma RunIsIndexedIff(a: Account, book: Book, ops: seq<Op>)
    requires Indexed(a, book) && HonestRun(a, book, ops) && LeavesEnoughAll(a, book, ops)
    ensures Indexed(Run(a, ops), BookRun(a, book, ops)) <==> Run(a, ops).cached == Total(BookRun(a, book, ops))
  {
    var a', shadow', book' := Run(a, ops), ShadowRun(a, book, ops), BookRun(a, book, ops);
    RunKeepsShadow(a, book, book, ops);
    if a'.cached == Total(book') {
      forall p: Path | p.Sub?
        ensures SizeAt(a'.sizes, p) == SumUnder(book', p)
      {
        CoverTotals(shadow', book', p);
      }
    }
  }

  // ----- inputs at which the exact index breaks

  /** A scan that met a directory x, its own 4096 bytes, and a file of `n` bytes beside it. */
  function DirectoryAndFile(n: u64): seq<Entry> {
    [Entry(Sub(Root, "x"), true, 4096), Entry(Sub(Root, "y"), false, n)]
  }

  lemma ScanOfTwo(e: Entry, f: Entry, p: Path)
    ensures ScanSum([e, f], p) == Share(e, p) + Share(f, p)
  {
    assert [e, f][..1] == [e] && [e][..0] == [];
    assert ScanSum([e], p) == ScanSum([], p) + Share(e, p);
  }

  lemma DirectoryAndFileScan(n: u64)
    requires n <= 4096
    ensures ScanSum(DirectoryAndFile(n), Root) == 4096 + n
    ensures SizeAt(ScanSizes(DirectoryAndFile(n)), Sub(Root, "x")) == 4096
    ensures Own(ScanBook(DirectoryAndFile(n)), Root) == n
  {
    var entries, x := DirectoryAndFile(n), Sub(Root, "x");
    assert entries[..1] == [entries[0]] && [entries[0]][..0] == [];
    assert ScanBook([entries[0]]) == map[x := 4096];
    assert ChargedTo(entries[0]) == x && ChargedTo(entries[1]) == Root;
    ScanOfTwo(entries[0], entries[1], Root);
    ScanOfTwo(entries[0], entries[1], x);
    assert SignedLengths(entries);
    ScanMeaning(entries, x);
  }

  /** Deleting, under the name x, a file of some of those bytes: the state left is no index. */
  lemma DeletionOverDirectory(n: u64, len: u64)
    requires 0 < len <= n <= 4096
    ensures
      var a := Account(ScanSizes(DirectoryAndFile(n)), ScanTotal(DirectoryAndFile(n)), 0);
      var book, op := ScanBook(DirectoryAndFile(n)), TruncateFile(Sub(Root, "x"), len);
      Indexed(a, book) && Honest(a, book, op) && !Indexed(Apply(a, op), Booked(a, book, op))
  {
    var entries := DirectoryAndFile(n);
    var a := Account(ScanSizes(entries), ScanTotal(entries), 0);
    var book, op := ScanBook(entries), TruncateFile(Sub(Root, "x"), len);
    DirectoryAndFileScan(n);
    ScanIsIndexed(entries, a);
    StepKeepsIndexIff(a, book, op, Apply(a, op), Booked(a, book, op));
  }

  /** ... and the node x records less than its own bytes. */
  lemma DeletionUncoversDirectory(n: u64, len: u64)
    requires 0 < len <= n <= 4096
    ensures
      var a := Account(ScanSizes(DirectoryAndFile(n)), ScanTotal(DirectoryAndFile(n)), 0);
      var book, op := ScanBook(DirectoryAndFile(n)), TruncateFile(Sub(Root, "x"), len);
      Honest(a, book, op) && SizesCover(a, book) && !SizesCover(Apply(a, op), Booked(a, book, op))
  {
    var entries := DirectoryAndFile(n);
    var a := Account(ScanSizes(entries), ScanTotal(entries), 0);
    var book, op := ScanBook(entries), TruncateFile(Sub(Root, "x"), len);
    DirectoryAndFileScan(n);
    ScanIsIndexed(entries, a);
    forall p ensures NodeCovers(a, book, p) {
      CoveredNode(a, book, book, p);
    }
    EnoughIffClean(a, book, op);
    StepKeepsSizesIff(a, book, book, op);
  }

  /** A scan that met two directories of 4096 bytes. */
  function TwoDirectories(): seq<Entry> {
    [Entry(Sub(Root, "x"), true, 4096), Entry(Sub(Root, "y"), true, 4096)]
  }

  lemma TwoDirectoriesScan()
    ensures ScanSum(TwoDirectories(), Root) == 8192
    ensures SizeAt(ScanSizes(TwoDirectories()), Sub(Root, "x")) == 4096
    ensures Sub(Root, "y") in ScanSizes(TwoDirectories())
  {
    var entries, x, y := TwoDirectories(), Sub(Root, "x"), Sub(Root, "y");
    assert entries[0] in entries && entries[1] in entries;
    assert "x"[0] != "y"[0];
    ScanOfTwo(entries[0], entries[1], Root);
    ScanOfTwo(entries[0], entries[1], x);
    assert SignedLengths(entries);
    ScanMeaning(entries, x);
    ScanMeaning(entries, y);
  }

  /** Renaming one onto the other: the state left is no index, and the total keeps the bytes replaced. */
  lemma RenameOntoDirectory()
    ensures
      var a := Account(ScanSizes(TwoDirectories()), ScanTotal(TwoDirectories()), 0);
      var book, op := ScanBook(TwoDirectories()), RenameDirectory(Sub(Root, "y"), Sub(Root, "x"));
      Indexed(a, book) && Honest(a, book, op) && !Indexed(Apply(a, op), Booked(a, book, op))
  {
    var entries, x, y := TwoDirectories(), Sub(Root, "x"), Sub(Root, "y");
    var a := Account(ScanSizes(entries), ScanTotal(entries), 0);
    var book, op := ScanBook(entries), RenameDirectory(y, x);
    TwoDirectoriesScan();
    ScanIsIndexed(entries, a);
    DetachedAt(a.sizes, y, x);
    assert "x"[0] != "y"[0];
    StepKeepsIndexIff(a, book, op, Apply(a, op), Booked(a, book, op));
  }
}
