/** The disk accounting of one server as steps over its tree of sizes, cached total and limit, and
    the proof that every run of them keeps the tree an exact index of the bytes charged. */
module Accounting {
  import opened Usage
  import opened Ledger

  const I64_MAX: nat := 0x7FFF_FFFF_FFFF_FFFF
  const TWO_64: nat := 0x1_0000_0000_0000_0000

  /** A 64-bit word read as signed. */
  function AsI64(x: int): int {
    var word := x % TWO_64;
    if word > I64_MAX then word - TWO_64 else word
  }

  function AsU64(x: int): u64 {
    x % TWO_64
  }

  /** Two's complement: the one signed 64-bit number that agrees with `x` modulo 2^64. */
  lemma SignedWord(x: int)
    ensures -0x8000_0000_0000_0000 <= AsI64(x) < 0x8000_0000_0000_0000
    ensures (x - AsI64(x)) % 0x1_0000_0000_0000_0000 == 0
  {
    var word := x % TWO_64;
    assert x - word == (x / TWO_64) * TWO_64;
    Multiple(x / TWO_64);
    Multiple(x / TWO_64 + 1);
  }

  lemma Multiple(k: int)
    ensures (k * 0x1_0000_0000_0000_0000) % 0x1_0000_0000_0000_0000 == 0
  {
  }

  datatype Account = Account(sizes: Sizes, cached: u64, limit: int)

  /** Would growing by `delta` pass the limit? A limit of 0 means none. */
  predicate Exceeds(cached: u64, limit: int, delta: int) {
    limit != 0 && AsI64(AsI64(cached) + delta) > limit
  }

  /** The cached total after `delta`: an addition wraps around, a release stops at 0. */
  function CachedAfter(cached: u64, delta: int): u64 {
    if delta > 0 then AsU64(cached + delta) else SaturatingSub(cached, -delta)
  }

  function Allocate(a: Account, path: Path, delta: int, ignorant: bool): (Account, bool) {
    if delta == 0 then (a, true)
    else if delta > 0 && !ignorant && Exceeds(a.cached, a.limit, delta) then (a, false)
    else (a.(cached := CachedAfter(a.cached, delta), sizes := Charged(a.sizes, path, delta)), true)
  }

  /** An entry the disk scan meets. */
  datatype Entry = Entry(path: Path, isDir: bool, len: u64)

  /** Where the scan charges an entry: a directory to itself, a file to its parent. */
  function ChargedTo(e: Entry): Path {
    if e.isDir || e.path.Root? then e.path else e.path.up
  }

  function ScanSizes(entries: seq<Entry>): Sizes {
    if entries == [] then map[Root := 0]
    else
      var e := entries[|entries| - 1];
      Charged(ScanSizes(entries[..|entries| - 1]), ChargedTo(e), AsI64(e.len))
  }

  function ScanTotal(entries: seq<Entry>): u64 {
    if entries == [] then 0 else AsU64(ScanTotal(entries[..|entries| - 1]) + entries[|entries| - 1].len)
  }

  datatype Op =
    | Grow(path: Path, delta: int, ignorant: bool)
    | TruncateFile(path: Path, len: u64)
    | TruncateDirectory(path: Path)
    | RenameFile(oldParent: Path, newParent: Path, len: u64)
    | RenameDirectory(oldPath: Path, newPath: Path)
    | TruncateRoot
    | Rescan(entries: seq<Entry>)
    | SetLimit(limit: int)

  function TruncatedFile(a: Account, path: Path, len: u64): Account {
    Allocate(a, path, -AsI64(len), false).0
  }

  function TruncatedDirectory(a: Account, path: Path): Account {
    var released := Allocate(a, path, -AsI64(SizeAt(a.sizes, path)), false).0;
    released.(sizes := Detached(released.sizes, path))
  }

  function RenamedFile(a: Account, oldParent: Path, newParent: Path, len: u64): Account {
    Allocate(Allocate(a, oldParent, -AsI64(len), true).0, newParent, AsI64(len), true).0
  }

  /** What each operation does to the account. */
  function Apply(a: Account, op: Op): Account {
    match op
    case Grow(path, delta, ignorant) => Allocate(a, path, delta, ignorant).0
    case TruncateFile(path, len) => TruncatedFile(a, path, len)
    case TruncateDirectory(path) => TruncatedDirectory(a, path)
    case RenameFile(oldParent, newParent, len) => RenamedFile(a, oldParent, newParent, len)
    case RenameDirectory(oldPath, newPath) => a.(sizes := RenamedDirectory(a.sizes, oldPath, newPath))
    case TruncateRoot => a.(sizes := map[Root := SizeAt(a.sizes, Root)], cached := 0)
    case Rescan(entries) => a.(sizes := ScanSizes(entries), cached := ScanTotal(entries))
    case SetLimit(limit) => a.(limit := limit)
  }

  // ----- the invariant

  /** The tree is the index of `book`: every node but the root records exactly the bytes charged at or
      below it, missing nodes stand for none, and the cached total is the sum of all of them. */
  ghost predicate Indexed(a: Account, book: Book) {
    && IsTree(a.sizes)
    && a.cached == Total(book) <= I64_MAX
    && forall p: Path :: p.Sub? ==> SizeAt(a.sizes, p) == SumUnder(book, p)
  }

  /** The plain bookkeeping of the same operation: bytes are charged, released, moved or forgotten
      directory by directory. */
  ghost function Booked(a: Account, book: Book, op: Op): Book {
    match op
    case Grow(path, delta, ignorant) =>
      if Allocate(a, path, delta, ignorant).1 && Own(book, path) + delta >= 0 then book[path := Own(book, path) + delta] else book
    case TruncateFile(path, len) =>
      if path.Sub? && Own(book, path.up) >= len then book[path.up := Own(book, path.up) - len] else book
    case TruncateDirectory(path) => Pruned(book, path)
    case RenameFile(oldParent, newParent, len) => MovedBytes(book, oldParent, newParent, len)
    case RenameDirectory(oldPath, newPath) => MovedTree(book, oldPath, newPath)
    case TruncateRoot => map[]
    case Rescan(entries) => ScanBook(entries)
    case SetLimit(_) => book
  }

  function MovedBytes(book: Book, oldParent: Path, newParent: Path, len: nat): Book {
    if Own(book, oldParent) < len then book
    else
      var without := book[oldParent := Own(book, oldParent) - len];
      without[newParent := Own(without, newParent) + len]
  }

  function MovedTree(book: Book, oldPath: Path, newPath: Path): Book {
    Rebooked(Pruned(book, oldPath), newPath, Subtree(book, oldPath))
  }

  function ScanBook(entries: seq<Entry>): Book {
    if entries == [] then map[]
    else
      var e, book := entries[|entries| - 1], ScanBook(entries[..|entries| - 1]);
      book[ChargedTo(e) := Own(book, ChargedTo(e)) + e.len]
  }

  /** What an allocation promises, below 2^63 bytes: growth is refused only over a limit that counts, a
      refusal changes nothing, and a grant moves the total and the sizes on the way by the delta. */
  lemma AllocateMeaning(a: Account, path: Path, delta: int, ignorant: bool, q: Path)
    requires a.cached + delta <= I64_MAX && a.cached <= I64_MAX
    ensures
      var (a', granted) := Allocate(a, path, delta, ignorant);
      && (granted <==> delta <= 0 || ignorant || a.limit == 0 || a.cached + delta <= a.limit)
      && (!granted ==> a' == a)
      && (granted ==>
            && a'.cached == (if a.cached + delta < 0 then 0 else a.cached + delta) && a'.limit == a.limit
            && SizeAt(a'.sizes, q) == Adjusted(SizeAt(a.sizes, q), if q.Sub? && Under(path, q) then delta else 0))
  {
    ChargedSizeAt(a.sizes, path, delta, q);
  }

  lemma ChargeAtNode(sizes: Sizes, book: Book, path: Path, delta: int, p: Path)
    requires SizeAt(sizes, p) == SumUnder(book, p) && p.Sub?
    requires 0 <= Own(book, path) + delta && Total(book) + delta <= I64_MAX
    ensures SizeAt(Charged(sizes, path, delta), p) == SumUnder(book[path := Own(book, path) + delta], p)
  {
    ChargedSizeAt(sizes, path, delta, p);
    SumUnderUpdate(book, path, Own(book, path) + delta, p);
    TotalSplit(book, p);
    if Under(path, p) {
      OwnWithin(book, path, p);
    }
  }

  lemma CachedAfterExact(cached: u64, delta: int)
    requires 0 <= cached + delta <= I64_MAX
    ensures CachedAfter(cached, delta) == cached + delta
  {
  }

  /** A charge, or a release of at most what was charged to the directory itself, keeps the index. */
  lemma ChargeKeepsIndex(a: Account, book: Book, path: Path, delta: int, a': Account, book': Book)
    requires Indexed(a, book)
    requires 0 <= Own(book, path) + delta && Total(book) + delta <= I64_MAX
    requires a'.sizes == Charged(a.sizes, path, delta) && a'.cached == CachedAfter(a.cached, delta)
    requires book' == book[path := Own(book, path) + delta]
    ensures Indexed(a', book')
  {
    TotalCharge(book, path, delta);
    CachedAfterExact(a.cached, delta);
    ChargedIsTree(a.sizes, path, delta);
    forall p: Path | p.Sub?
      ensures SizeAt(a'.sizes, p) == SumUnder(book', p)
    {
      ChargeAtNode(a.sizes, book, path, delta, p);
    }
  }

  // ----- deleting and truncating

  /** Overwriting what one non-root node says keeps the index exactly when it says the same as before. */
  lemma OverwriteKeepsIndexIff(a: Account, book: Book, path: Path, size: u64, a': Account)
    requires Indexed(a, book) && path.Sub? && a'.sizes == a.sizes[path := size] && a'.cached == a.cached && IsTree(a'.sizes)
    ensures Indexed(a', book) <==> size == SizeAt(a.sizes, path)
  {
    assert SizeAt(a'.sizes, path) == size;
    forall p: Path
      ensures p != path ==> SizeAt(a'.sizes, p) == SizeAt(a.sizes, p)
    {
    }
  }

  /** Deleting a file charges the file's own path. That keeps the index exactly when no node with
      bytes stands under the file's name. */
  lemma FileDeletionKeepsIndexIff(a: Account, book: Book, path: Path, len: u64, a': Account, book': Book)
    requires Indexed(a, book) && path.Sub? && 0 < len <= Own(book, path.up) && len <= I64_MAX
    requires a' == Allocate(a, path, -AsI64(len), false).0
    requires book' == book[path.up := Own(book, path.up) - len]
    ensures Indexed(a', book') <==> SizeAt(a.sizes, path) == 0
  {
    var dir, delta := path.up, -(len as int);
    var released := a.(sizes := Charged(a.sizes, dir, delta), cached := CachedAfter(a.cached, delta));
    ChargeKeepsIndex(a, book, dir, delta, released, book');
    assert SizeAt(released.sizes, path) == SizeAt(a.sizes, path) by {
      NotUnder(dir, path);
      ChargedSizeAt(a.sizes, dir, delta, path);
    }
    ChargedIsTree(a.sizes, path, delta);
    OverwriteKeepsIndexIff(released, book', path, Adjusted(SizeAt(a.sizes, path), delta), a');
  }

  lemma DetachedAt(sizes: Sizes, path: Path, q: Path)
    requires IsTree(sizes) && path.Sub? && path in sizes
    ensures SizeAt(Detached(sizes, path), q) ==
            if Under(q, path) then 0
            else if q.Sub? && Under(path, q) then SaturatingSub(SizeAt(sizes, q), sizes[path])
            else SizeAt(sizes, q)
  {
    ChargedSizeAt(sizes, path.up, -(sizes[path] as int), q);
  }

  lemma DetachedIsTree(sizes: Sizes, path: Path)
    requires IsTree(sizes) && path.Sub? && path in sizes
    ensures IsTree(Detached(sizes, path))
  {
    var delta := -(sizes[path] as int);
    ChargedIsTree(sizes, path.up, delta);
    forall q {:trigger Parent(q)} | q in Charged(sizes, path.up, delta) && q.Sub? && Under(Parent(q), path)
      ensures Under(q, path)
    {
    }
  }

  /** Charging a directory by minus its size and then removing it leaves the tree one removal leaves. */
  lemma TruncateIsDetach(sizes: Sizes, path: Path)
    requires IsTree(sizes) && path.Sub? && path in sizes
    ensures Detached(Charged(sizes, path, -(sizes[path] as int)), path) == Detached(sizes, path)
  {
    var delta := -(sizes[path] as int);
    var charged := Charged(sizes, path, delta);
    assert charged[path] == 0;
    ChargedIsTree(sizes, path, delta);
    AncestorIn(charged, path, path.up);
    NoCharge(charged, path.up);
    assert Pruned(charged, path) == Pruned(Charged(sizes, path.up, delta), path);
  }

  lemma NoCharge(sizes: Sizes, path: Path)
    requires IsTree(sizes) && path in sizes
    ensures Charged(sizes, path, 0) == sizes
  {
    UnderRoot(path);
    ChargedMeaning(sizes, Root, path, 0);
    forall q | Under(path, q)
      ensures q in sizes
    {
      AncestorIn(sizes, path, q);
    }
  }

  lemma {:induction false} AncestorIn(sizes: Sizes, path: Path, q: Path)
    requires IsTree(sizes) && path in sizes && Under(path, q)
    ensures q in sizes
  {
    if path != q {
      AncestorIn(sizes, Parent(path), q);
    }
  }

  lemma DetachAtNode(sizes: Sizes, book: Book, path: Path, q: Path)
    requires IsTree(sizes) && path.Sub? && path in sizes && q.Sub?
    requires sizes[path] == SumUnder(book, path) && SizeAt(sizes, q) == SumUnder(book, q)
    ensures SizeAt(Detached(sizes, path), q) == SumUnder(Pruned(book, path), q)
  {
    DetachedAt(sizes, path, q);
    SumUnderPruned(book, path, q);
  }

  /** Taking a directory's subtree out of tree and book, and its bytes off the cached total. */
  lemma DetachKeepsIndex(a: Account, book: Book, path: Path, a': Account, book': Book)
    requires Indexed(a, book) && path.Sub?
    requires a'.sizes == Detached(a.sizes, path) && a'.cached == a.cached - SizeAt(a.sizes, path)
    requires book' == Pruned(book, path)
    ensures Indexed(a', book')
  {
    TotalSplit(book, path);
    if path in a.sizes {
      DetachedIsTree(a.sizes, path);
      forall q: Path | q.Sub?
        ensures SizeAt(a'.sizes, q) == SumUnder(book', q)
      {
        DetachAtNode(a.sizes, book, path, q);
      }
    } else {
      forall q: Path | q.Sub?
        ensures SizeAt(a'.sizes, q) == SumUnder(book', q)
      {
        SumUnderPruned(book, path, q);
        if Under(q, path) {
          MissingBelow(a.sizes, path, q);
        }
      }
    }
  }

  lemma MissingBelow(sizes: Sizes, path: Path, q: Path)
    requires IsTree(sizes) && path !in sizes && Under(q, path)
    ensures q !in sizes
  {
    if q in sizes {
      AncestorIn(sizes, q, path);
    }
  }

  lemma TruncatedDirectoryIsDetached(a: Account, path: Path)
    requires IsTree(a.sizes) && path.Sub? && SizeAt(a.sizes, path) <= a.cached && SizeAt(a.sizes, path) <= I64_MAX
    ensures TruncatedDirectory(a, path).sizes == Detached(a.sizes, path)
    ensures TruncatedDirectory(a, path).cached == a.cached - SizeAt(a.sizes, path)
  {
    if path in a.sizes {
      if a.sizes[path] > 0 {
        TruncateIsDetach(a.sizes, path);
      }
    }
  }

  lemma TruncateDirectoryKeepsIndex(a: Account, book: Book, path: Path, a': Account, book': Book)
    requires Indexed(a, book) && path.Sub?
    requires a' == TruncatedDirectory(a, path) && book' == Pruned(book, path)
    ensures Indexed(a', book')
    ensures a'.sizes == Detached(a.sizes, path)
  {
    TotalSplit(book, path);
    TruncatedDirectoryIsDetached(a, path);
    DetachKeepsIndex(a, book, path, a', book');
  }

  // ----- renaming

  lemma AttachedAt(sizes: Sizes, target: Path, source: Sizes, q: Path)
    requires Root in sizes && target.Sub?
    ensures q in Attached(sizes, target, source) <==>
            if Under(q, target) then Below(target, q) in source else q in sizes || Under(target, q)
    ensures SizeAt(Attached(sizes, target, source), q) ==
            if Under(q, target) then SizeAt(source, Below(target, q))
            else if Under(target, q) then SaturatingAdd(SizeAt(sizes, q), SizeAt(source, Root))
            else SizeAt(sizes, q)
  {
    UnderRoot(target.up);
    ChargedSizeAt(sizes, target.up, SizeAt(source, Root), q);
  }

  lemma AttachedIsTree(sizes: Sizes, target: Path, source: Sizes)
    requires IsTree(sizes) && IsTree(source) && target.Sub?
    ensures IsTree(Attached(sizes, target, source))
  {
    var attached := Attached(sizes, target, source);
    AttachedAt(sizes, target, source, Root);
    UnderRoot(target);
    forall q {:trigger Parent(q)} | q in attached && q.Sub?
      ensures Parent(q) in attached
    {
      AttachedAt(sizes, target, source, q);
      AttachedAt(sizes, target, source, q.up);
      if q == target {
        NotUnder(q.up, q);
      } else if Under(q, target) {
        assert Parent(Below(target, q)) == Below(target, q.up);
      } else {
        if Under(target, q) {
          UnderUp(target, q);
        }
      }
    }
  }

  lemma SubtreeIsTree(sizes: Sizes, at: Path)
    requires IsTree(sizes) && at in sizes
    ensures IsTree(Subtree(sizes, at))
  {
    forall q {:trigger Parent(q)} | q in Subtree(sizes, at) && q.Sub?
      ensures Parent(q) in Subtree(sizes, at)
    {
      assert Parent(Join(at, q)) == Join(at, q.up);
    }
  }

  /** Renaming a directory moves its subtree intact: what was recorded at `oldPath` followed by any
      suffix is afterwards recorded at `newPath` followed by that suffix. */
  lemma RenameMovesSubtree(sizes: Sizes, oldPath: Path, newPath: Path, suffix: Path)
    requires IsTree(sizes) && oldPath.Sub? && oldPath in sizes && newPath.Sub?
    ensures
      var renamed := RenamedDirectory(sizes, oldPath, newPath);
      && (Join(newPath, suffix) in renamed <==> Join(oldPath, suffix) in sizes)
      && SizeAt(renamed, Join(newPath, suffix)) == SizeAt(sizes, Join(oldPath, suffix))
  {
    DetachedIsTree(sizes, oldPath);
    BelowJoin(newPath, suffix);
    AttachedAt(Detached(sizes, oldPath), newPath, Subtree(sizes, oldPath), Join(newPath, suffix));
  }

  lemma NotUnderBoth(sizes: Sizes, oldPath: Path, newPath: Path, q: Path)
    requires IsTree(sizes) && oldPath in sizes && newPath !in sizes && !Under(newPath, oldPath) && Under(q, oldPath)
    ensures !Under(q, newPath) && !Under(newPath, q)
  {
    if Under(q, newPath) {
      Comparable(q, oldPath, newPath);
      AncestorIn(sizes, oldPath, newPath);
    }
    if Under(newPath, q) {
      UnderTransitive(newPath, q, oldPath);
    }
  }

  /** The rest of the tree, for a fresh target outside the directory: nothing stays behind at the old
      path, ancestors of only the old path lose its size, ancestors of only the new path gain it, and
      common ancestors and all unrelated nodes keep theirs. */
  lemma RenameElsewhere(sizes: Sizes, oldPath: Path, newPath: Path, q: Path)
    requires IsTree(sizes) && oldPath.Sub? && oldPath in sizes && newPath.Sub?
    requires newPath !in sizes && !Under(newPath, oldPath)
    requires q.Sub? && !Under(q, newPath)
    requires Under(oldPath, q) ==> sizes[oldPath] <= SizeAt(sizes, q)
    requires SizeAt(sizes, q) + sizes[oldPath] <= U64_MAX
    ensures
      var renamed := RenamedDirectory(sizes, oldPath, newPath);
      && (Under(q, oldPath) ==> q !in renamed)
      && (!Under(q, oldPath) ==>
            SizeAt(renamed, q) == (
              if Under(oldPath, q) && !Under(newPath, q) then SizeAt(sizes, q) - sizes[oldPath]
              else if Under(newPath, q) && !Under(oldPath, q) then SizeAt(sizes, q) + sizes[oldPath]
              else SizeAt(sizes, q)))
  {
    var detached, sub := Detached(sizes, oldPath), Subtree(sizes, oldPath);
    DetachedIsTree(sizes, oldPath);
    DetachedAt(sizes, oldPath, q);
    assert SizeAt(sub, Root) == sizes[oldPath] by {
      assert Join(oldPath, Root) == oldPath;
    }
    AttachedAt(detached, newPath, sub, q);
    if Under(q, oldPath) {
      NotUnderBoth(sizes, oldPath, newPath, q);
      assert q !in detached;
    }
  }

  lemma AttachedSum(sizes: Sizes, book: Book, target: Path, source: Sizes, moved: Book, q: Path)
    requires Root in sizes && target.Sub?
    requires SizeAt(sizes, q) == SumUnder(book, q) <= Total(book)
    requires SizeAt(source, Root) == Total(moved) && Total(book) + Total(moved) <= I64_MAX
    requires Under(q, target) ==> SizeAt(source, Below(target, q)) == SumUnder(moved, Below(target, q))
    ensures SizeAt(Attached(sizes, target, source), q) ==
            if Under(q, target) then SumUnder(moved, Below(target, q))
            else if Under(target, q) then SumUnder(book, q) + Total(moved)
            else SumUnder(book, q)
  {
    AttachedAt(sizes, target, source, q);
  }

  lemma SumAtMostTotal(book: Book, q: Path)
    ensures SumUnder(book, q) <= Total(book)
  {
    UnderRoot(q);
    SumUnderAtMost(book, Root, q);
  }

  /** What an attachment does to the index: the bytes recorded at the target before stay with its parents. */
  lemma AttachAtNode(sizes: Sizes, book: Book, target: Path, source: Sizes, moved: Book, q: Path)
    requires Root in sizes && target.Sub? && q.Sub?
    requires SizeAt(sizes, q) == SumUnder(book, q)
    requires SizeAt(source, Root) == Total(moved) && Total(book) + Total(moved) <= I64_MAX
    requires Under(q, target) ==> SizeAt(source, Below(target, q)) == SumUnder(moved, Below(target, q))
    ensures SizeAt(Attached(sizes, target, source), q)
         == SumUnder(Rebooked(book, target, moved), q) + (if Under(target.up, q) then SumUnder(book, target) else 0)
  {
    SumAtMostTotal(book, q);
    AttachedSum(sizes, book, target, source, moved, q);
    RebookedAbove(book, target, moved, q);
  }

  lemma AboveTarget(target: Path, q: Path)
    requires target.Sub?
    ensures Under(target.up, q) <==> Under(target, q) && !Under(q, target)
  {
    if Under(target.up, q) {
      NotUnder(q, target);
    }
  }

  lemma RebookedAbove(book: Book, target: Path, moved: Book, q: Path)
    requires target.Sub?
    ensures SumUnder(Rebooked(book, target, moved), q) + (if Under(target.up, q) then SumUnder(book, target) else 0) ==
            if Under(q, target) then SumUnder(moved, Below(target, q))
            else if Under(target, q) then SumUnder(book, q) + Total(moved)
            else SumUnder(book, q)
  {
    AboveTarget(target, q);
    SumUnderRebooked(book, target, moved, q);
  }

  /** The bytes a directory renamed onto `newPath` replaces. */
  ghost function Lost(book: Book, oldPath: Path, newPath: Path): nat {
    SumUnder(Pruned(book, oldPath), newPath)
  }

  /** `lost` bytes that stay charged at `up`. */
  function Kept(moved: Book, up: Path, lost: nat): Book {
    moved[up := Own(moved, up) + lost]
  }

  /** The charges of a renamed directory moved, with the bytes it replaces left with the parent. */
  ghost function MovedOver(book: Book, oldPath: Path, newPath: Path): Book
    requires newPath.Sub?
  {
    Kept(MovedTree(book, oldPath, newPath), newPath.up, Lost(book, oldPath, newPath))
  }

  lemma MovedTreeTotal(book: Book, oldPath: Path, newPath: Path)
    ensures Total(MovedTree(book, oldPath, newPath)) == Total(book) - Lost(book, oldPath, newPath)
  {
    TotalSplit(book, oldPath);
    TotalRebooked(Pruned(book, oldPath), newPath, Subtree(book, oldPath));
    TotalSubtree(book, oldPath);
  }

  /** Where `oldPath` is not recorded nothing is charged below it, and the tree stays as it is. */
  lemma MovedNothingAtNode(book: Book, oldPath: Path, newPath: Path, q: Path)
    requires SumUnder(book, oldPath) == 0 && Lost(book, oldPath, newPath) == 0
    ensures SumUnder(MovedTree(book, oldPath, newPath), q) == SumUnder(book, q)
  {
    var kept, moved := Pruned(book, oldPath), Subtree(book, oldPath);
    TotalSubtree(book, oldPath);
    SumUnderRebooked(kept, newPath, moved, q);
    PrunedNothing(book, oldPath, q);
    if Under(q, newPath) {
      NothingUnderEmpty(moved, Below(newPath, q));
      SumUnderAtMost(kept, newPath, q);
    }
  }

  lemma PrunedNothing(book: Book, oldPath: Path, q: Path)
    requires SumUnder(book, oldPath) == 0
    ensures SumUnder(Pruned(book, oldPath), q) == SumUnder(book, q)
  {
    SumUnderPruned(book, oldPath, q);
    if Under(q, oldPath) {
      SumUnderAtMost(book, oldPath, q);
    }
  }

  lemma NothingUnderEmpty(book: Book, q: Path)
    requires Total(book) == 0
    ensures SumUnder(book, q) == 0
  {
    UnderRoot(q);
    SumUnderAtMost(book, Root, q);
  }

  lemma MovedTreeAtNode(a: Account, book: Book, oldPath: Path, newPath: Path, q: Path)
    requires Indexed(a, book) && oldPath.Sub? && newPath.Sub? && oldPath in a.sizes && q.Sub?
    ensures SizeAt(RenamedDirectory(a.sizes, oldPath, newPath), q)
         == SumUnder(MovedTree(book, oldPath, newPath), q)
            + (if Under(newPath.up, q) then Lost(book, oldPath, newPath) else 0)
  {
    var detached, source, moved := Detached(a.sizes, oldPath), Subtree(a.sizes, oldPath), Subtree(book, oldPath);
    DetachedIsTree(a.sizes, oldPath);
    DetachAtNode(a.sizes, book, oldPath, q);
    MovedTotals(a, book, oldPath);
    if Under(q, newPath) {
      MovedAt(a, book, oldPath, Below(newPath, q));
    }
    AttachAtNode(detached, Pruned(book, oldPath), newPath, source, moved, q);
  }

  lemma MovedTotals(a: Account, book: Book, oldPath: Path)
    requires Indexed(a, book) && oldPath.Sub? && oldPath in a.sizes
    ensures SizeAt(Subtree(a.sizes, oldPath), Root) == Total(Subtree(book, oldPath))
    ensures Total(Pruned(book, oldPath)) + Total(Subtree(book, oldPath)) <= I64_MAX
  {
    TotalSubtree(book, oldPath);
    TotalSplit(book, oldPath);
    assert Join(oldPath, Root) == oldPath;
  }

  lemma MovedAt(a: Account, book: Book, oldPath: Path, rest: Path)
    requires Indexed(a, book) && oldPath.Sub?
    ensures SizeAt(Subtree(a.sizes, oldPath), rest) == SumUnder(Subtree(book, oldPath), rest)
  {
    SumUnderSubtree(book, oldPath, rest);
    assert Join(oldPath, rest).Sub?;
  }

  lemma DetachedSize(a: Account, book: Book, oldPath: Path, newPath: Path)
    requires Indexed(a, book) && oldPath.Sub? && newPath.Sub?
    ensures SizeAt(Detached(a.sizes, oldPath), newPath) == Lost(book, oldPath, newPath)
  {
    var detached := a.(sizes := Detached(a.sizes, oldPath), cached := SaturatingSub(a.cached, SizeAt(a.sizes, oldPath)));
    TotalSplit(book, oldPath);
    DetachKeepsIndex(a, book, oldPath, detached, Pruned(book, oldPath));
  }

  lemma RenamedIsTree(sizes: Sizes, oldPath: Path, newPath: Path)
    requires IsTree(sizes) && oldPath.Sub? && newPath.Sub?
    ensures IsTree(RenamedDirectory(sizes, oldPath, newPath))
  {
    if oldPath in sizes {
      DetachedIsTree(sizes, oldPath);
      SubtreeIsTree(sizes, oldPath);
      AttachedIsTree(Detached(sizes, oldPath), newPath, Subtree(sizes, oldPath));
    }
  }

  lemma RenameAtNode(a: Account, book: Book, oldPath: Path, newPath: Path, q: Path)
    requires Indexed(a, book) && oldPath.Sub? && newPath.Sub? && q.Sub?
    requires Lost(book, oldPath, newPath) == 0
    ensures SizeAt(RenamedDirectory(a.sizes, oldPath, newPath), q) == SumUnder(MovedTree(book, oldPath, newPath), q)
  {
    if oldPath in a.sizes {
      MovedTreeAtNode(a, book, oldPath, newPath, q);
    } else {
      MovedNothingAtNode(book, oldPath, newPath, q);
    }
  }

  /** Renaming a directory keeps the index, with the moved charges booked under the new path, exactly
      when the node it replaces records no bytes: what it records is lost from the tree but stays in
      the cached total. */
  lemma RenameKeepsIndexIff(a: Account, book: Book, oldPath: Path, newPath: Path, a': Account, book': Book)
    requires Indexed(a, book) && oldPath.Sub? && newPath.Sub?
    requires a'.sizes == RenamedDirectory(a.sizes, oldPath, newPath) && a'.cached == a.cached
    requires book' == MovedTree(book, oldPath, newPath)
    ensures Indexed(a', book') <==> SizeAt(Detached(a.sizes, oldPath), newPath) == 0
  {
    var lost := Lost(book, oldPath, newPath);
    assert Total(book') == Total(book) - lost by {
      MovedTreeTotal(book, oldPath, newPath);
    }
    assert SizeAt(Detached(a.sizes, oldPath), newPath) == lost by {
      DetachedSize(a, book, oldPath, newPath);
    }
    if lost == 0 {
      RenamedIsTree(a.sizes, oldPath, newPath);
      forall q: Path | q.Sub?
        ensures SizeAt(a'.sizes, q) == SumUnder(book', q)
      {
        RenameAtNode(a, book, oldPath, newPath, q);
      }
    }
  }

  lemma KeptSums(moved: Book, up: Path, lost: nat, q: Path)
    ensures SumUnder(Kept(moved, up, lost), q) == SumUnder(moved, q) + (if Under(up, q) then lost else 0)
    ensures Total(Kept(moved, up, lost)) == Total(moved) + lost
  {
    SumUnderUpdate(moved, up, Own(moved, up) + lost, q);
    TotalUpdate(moved, up, Own(moved, up) + lost);
  }

  lemma MovedOverAtNode(sizes: Sizes, moved: Book, up: Path, lost: nat, q: Path)
    requires SizeAt(sizes, q) == SumUnder(moved, q) + (if Under(up, q) then lost else 0)
    ensures SizeAt(sizes, q) == SumUnder(Kept(moved, up, lost), q)
  {
    KeptSums(moved, up, lost, q);
  }

  /** A tree that holds `lost` bytes more at `up` and above indexes the book that keeps them there. */
  lemma KeptIsIndexed(a: Account, moved: Book, up: Path, lost: nat)
    requires IsTree(a.sizes) && a.cached == Total(moved) + lost <= I64_MAX
    requires forall q: Path :: q.Sub? ==> SizeAt(a.sizes, q) == SumUnder(moved, q) + (if Under(up, q) then lost else 0)
    ensures Indexed(a, Kept(moved, up, lost))
  {
    KeptSums(moved, up, lost, Root);
    forall q: Path | q.Sub?
      ensures SizeAt(a.sizes, q) == SumUnder(Kept(moved, up, lost), q)
    {
      MovedOverAtNode(a.sizes, moved, up, lost, q);
    }
  }

  /** Whatever a renamed directory replaces, the tree stays the exact index of its charges moved and of
      the replaced bytes, which its parent and the cached total keep. */
  lemma RenameKeepsMovedOver(a: Account, book: Book, oldPath: Path, newPath: Path, a': Account)
    requires Indexed(a, book) && oldPath.Sub? && newPath.Sub? && oldPath in a.sizes
    requires a'.sizes == RenamedDirectory(a.sizes, oldPath, newPath) && a'.cached == a.cached
    ensures Indexed(a', MovedOver(book, oldPath, newPath))
  {
    var moved, lost := MovedTree(book, oldPath, newPath), Lost(book, oldPath, newPath);
    MovedTreeTotal(book, oldPath, newPath);
    RenamedIsTree(a.sizes, oldPath, newPath);
    forall q: Path | q.Sub?
      ensures SizeAt(a'.sizes, q) == SumUnder(moved, q) + (if Under(newPath.up, q) then lost else 0)
    {
      MovedTreeAtNode(a, book, oldPath, newPath, q);
    }
    KeptIsIndexed(a', moved, newPath.up, lost);
  }
}
