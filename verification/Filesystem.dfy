/** The disk accounting operations of a server's file system, in place on the tree of sizes. */
module Filesystem {
  import opened Usage
  import opened Accounting
  import opened DiskUsageTree
  import opened Scan

  /** An entry of a directory walk, with its path as components. */
  datatype WalkEntry = WalkEntry(path: seq<Name>, isDir: bool, len: u64)

  function Scanned(entries: seq<WalkEntry>): seq<Entry> {
    seq(|entries|, i requires 0 <= i < |entries| =>
      Entry(Extend(Root, entries[i].path), entries[i].isDir, entries[i].len))
  }

  lemma ScanStep(scanned: seq<Entry>, i: nat)
    requires i < |scanned|
    ensures ScanSizes(scanned[..i + 1]) == Charged(ScanSizes(scanned[..i]), ChargedTo(scanned[i]), AsI64(scanned[i].len))
    ensures ScanTotal(scanned[..i + 1]) == AsU64(ScanTotal(scanned[..i]) + scanned[i].len)
  {
    assert scanned[..i + 1][..i] == scanned[..i];
  }

  /** The bytes a walk finds for the directory `names`: those of everything below it, and its own. */
  function WalkSum(entries: seq<WalkEntry>, names: seq<Name>): nat {
    if entries == [] then 0
    else
      var e := entries[|entries| - 1];
      WalkSum(entries[..|entries| - 1], names)
      + if names <= e.path && (e.isDir || e.path != names) then e.len else 0
  }

  lemma {:induction false} ExtendInjective(a: seq<Name>, b: seq<Name>)
    requires Extend(Root, a) == Extend(Root, b)
    ensures a == b
    decreases |a|
  {
    if a == [] || b == [] {
      if a != [] { ExtendUnder(Root, a); }
      if b != [] { ExtendUnder(Root, b); }
    } else {
      LastName(a);
      LastName(b);
      ExtendInjective(a[..|a| - 1], b[..|b| - 1]);
      assert a == a[..|a| - 1] + [a[|a| - 1]] && b == b[..|b| - 1] + [b[|b| - 1]];
    }
  }

  lemma LastName(a: seq<Name>)
    requires a != []
    ensures Extend(Root, a) == Sub(Extend(Root, a[..|a| - 1]), a[|a| - 1])
  {
    assert a[..|a|] == a;
    ExtendLast(Root, a, |a| - 1);
  }

  /** Lying below a directory is having its components in front. */
  lemma {:induction false} UnderIsPrefix(a: seq<Name>, b: seq<Name>)
    ensures Under(Extend(Root, a), Extend(Root, b)) <==> b <= a
    decreases |a|
  {
    if Extend(Root, a) == Extend(Root, b) {
      ExtendInjective(a, b);
    } else if a != [] {
      LastName(a);
      UnderIsPrefix(a[..|a| - 1], b);
      assert a == a[..|a| - 1] + [a[|a| - 1]];
      if b <= a {
        assert b != a;
        assert b <= a[..|a| - 1];
      }
    } else if b != [] {
      ExtendUnder(Root, b);
    }
  }

  lemma {:induction false} WalkSumIsScanSum(entries: seq<WalkEntry>, names: seq<Name>)
    requires names != []
    ensures ScanSum(Scanned(entries), Extend(Root, names)) == WalkSum(entries, names)
  {
    if entries != [] {
      var init, e := entries[..|entries| - 1], entries[|entries| - 1];
      WalkSumIsScanSum(init, names);
      assert Scanned(entries)[..|entries| - 1] == Scanned(init);
      ExtendUnder(Root, names);
      UnderIsPrefix(e.path, names);
      if Extend(Root, e.path) == Extend(Root, names) {
        ExtendInjective(e.path, names);
      }
    }
  }

  ghost predicate Lengths63(entries: seq<WalkEntry>) {
    forall i :: 0 <= i < |entries| ==> entries[i].len < 0x8000_0000_0000_0000
  }

  /** A directory's size after the walk is the sum of what the walk finds for it, as far as 64 bits go. */
  lemma WalkMeaning(entries: seq<WalkEntry>, names: seq<Name>)
    requires Lengths63(entries) && names != []
    ensures SizeAt(ScanSizes(Scanned(entries)), Extend(Root, names))
         == if WalkSum(entries, names) > 0xFFFF_FFFF_FFFF_FFFF then 0xFFFF_FFFF_FFFF_FFFF else WalkSum(entries, names)
  {
    var scanned := Scanned(entries);
    forall e | e in scanned ensures e.len <= I64_MAX {
      var i :| 0 <= i < |scanned| && scanned[i] == e;
      assert entries[i].len == e.len;
    }
    ExtendUnder(Root, names);
    ScanMeaning(scanned, Extend(Root, names));
    WalkSumIsScanSum(entries, names);
  }

  lemma RenamedInTwo(a: Account, b: Account, c: Account, oldParent: Path, newParent: Path, len: u64)
    requires b == Allocate(a, oldParent, -AsI64(len), true).0 && c == Allocate(b, newParent, AsI64(len), true).0
    ensures c == RenamedFile(a, oldParent, newParent, len)
  {
  }

  class Filesystem {
    var diskLimit: int
    var diskUsageCached: u64
    var diskUsage: DiskUsage

    ghost predicate Valid()
      reads this, diskUsage`nodes, diskUsage`sizes, diskUsage.nodes.Values`size, diskUsage.nodes.Values`entries
    {
      diskUsage.Valid()
    }

    ghost function State(): Account
      reads this, diskUsage`sizes
    {
      Account(diskUsage.sizes, diskUsageCached, diskLimit)
    }

    constructor (limit: u64)
      ensures Valid() && fresh(diskUsage) && fresh(diskUsage.nodes.Values)
      ensures State() == Account(map[Root := 0], 0, AsI64(limit))
    {
      diskLimit := AsI64(limit);
      diskUsageCached := 0;
      diskUsage := new DiskUsage.Default();
    }

    method UpdateDiskLimit(limit: u64)
      requires Valid()
      modifies this`diskLimit
      ensures Valid() && State() == old(State()).(limit := AsI64(limit))
    {
      diskLimit := AsI64(limit);
    }

    method AllocateInPath(path: seq<Name>, delta: int, ignorant: bool) returns (done: bool)
      requires Valid()
      modifies this`diskUsageCached, diskUsage, diskUsage.nodes.Values
      ensures Valid() && fresh(diskUsage.nodes.Values - old(diskUsage.nodes.Values))
      ensures (State(), done) == Allocate(old(State()), Extend(Root, path), delta, ignorant)
    {
      if delta == 0 {
        return true;
      }
      if delta > 0 && !ignorant {
        var currentUsage := AsI64(diskUsageCached);
        if diskLimit != 0 && AsI64(currentUsage + delta) > diskLimit {
          return false;
        }
      }
      if delta > 0 {
        diskUsageCached := AsU64(diskUsageCached + delta);
      } else {
        var absSize, current := -delta, diskUsageCached;
        if current >= absSize {
          diskUsageCached := current - absSize;
        } else {
          diskUsageCached := 0;
        }
      }
      diskUsage.UpdateSize(path, delta);
      return true;
    }

    method TruncatePath(path: seq<Name>, isDir: bool, len: u64)
      requires Valid()
      modifies this`diskUsageCached, diskUsage, diskUsage.nodes.Values
      ensures Valid() && fresh(diskUsage.nodes.Values - old(diskUsage.nodes.Values))
      ensures State() ==
              if isDir then TruncatedDirectory(old(State()), Extend(Root, path))
              else TruncatedFile(old(State()), Extend(Root, path), len)
    {
      if isDir {
        TruncateDir(path);
      } else {
        var done := AllocateInPath(path, -AsI64(len), false);
      }
    }

    /** `TruncatePath` where the metadata says directory. */
    method TruncateDir(path: seq<Name>)
      requires Valid()
      modifies this`diskUsageCached, diskUsage, diskUsage.nodes.Values
      ensures Valid() && fresh(diskUsage.nodes.Values - old(diskUsage.nodes.Values))
      ensures State() == TruncatedDirectory(old(State()), Extend(Root, path))
    {
      var size, found := diskUsage.GetSize(path);
      ghost var objects := diskUsage.nodes.Values;
      var done := AllocateInPath(path, -AsI64(size), false);
      ghost var released := diskUsage.nodes.Values;
      var removed := diskUsage.RemovePath(path);
      assert diskUsage.nodes.Values - objects <= released - objects;
    }

    method RenameDirectory(oldPath: seq<Name>, newPath: seq<Name>)
      requires Valid()
      modifies diskUsage, diskUsage.nodes.Values
      ensures Valid() && fresh(diskUsage.nodes.Values - old(diskUsage.nodes.Values))
      ensures diskUsage.sizes == RenamedDirectory(old(diskUsage.sizes), Extend(Root, oldPath), Extend(Root, newPath))
    {
      diskUsage.MoveDirectory(oldPath, newPath);
    }

    method RenameFile(oldParent: seq<Name>, newParent: seq<Name>, len: u64)
      requires Valid()
      modifies this`diskUsageCached, diskUsage, diskUsage.nodes.Values
      ensures Valid() && fresh(diskUsage.nodes.Values - old(diskUsage.nodes.Values))
      ensures State() == RenamedFile(old(State()), Extend(Root, oldParent), Extend(Root, newParent), len)
    {
      var size := AsI64(len);
      ghost var before, nodes := State(), diskUsage.nodes.Values;
      var released := AllocateInPath(oldParent, -size, true);
      ghost var between, nodes' := State(), diskUsage.nodes.Values;
      var charged := AllocateInPath(newParent, size, true);
      assert diskUsage.nodes.Values - nodes <= (diskUsage.nodes.Values - nodes') + (nodes' - nodes);
      RenamedInTwo(before, between, State(), Extend(Root, oldParent), Extend(Root, newParent), len);
    }

    method TruncateRoot()
      requires Valid()
      modifies this`diskUsageCached, diskUsage
      ensures Valid() && State() == old(State()).(sizes := map[Root := SizeAt(old(diskUsage.sizes), Root)], cached := 0)
    {
      diskUsage.Clear();
      diskUsageCached := 0;
    }

    /** What the walk does with the entry `e`, which is `scanned[i]`. */
    static method ScanEntry(tmpDiskUsage: DiskUsage, e: WalkEntry, ghost scanned: seq<Entry>, ghost i: nat)
      requires tmpDiskUsage.Valid() && i < |scanned| && tmpDiskUsage.sizes == ScanSizes(scanned[..i])
      requires scanned[i] == Entry(Extend(Root, e.path), e.isDir, e.len)
      modifies tmpDiskUsage, tmpDiskUsage.nodes.Values
      ensures tmpDiskUsage.Valid() && fresh(tmpDiskUsage.nodes.Values - old(tmpDiskUsage.nodes.Values))
      ensures tmpDiskUsage.sizes == ScanSizes(scanned[..i + 1])
    {
      ScanStep(scanned, i);
      if e.isDir {
        tmpDiskUsage.UpdateSize(e.path, AsI64(e.len));
      } else if e.path != [] {
        assert e.path[..|e.path|] == e.path;
        ExtendLast(Root, e.path, |e.path| - 1);
        tmpDiskUsage.UpdateSize(e.path[..|e.path| - 1], AsI64(e.len));
      }
    }

    /** The walk: a fresh tree and a total are filled entry by entry. */
    static method ScanWalk(entries: seq<WalkEntry>) returns (tmpDiskUsage: DiskUsage, totalSize: u64)
      ensures tmpDiskUsage.Valid() && fresh(tmpDiskUsage) && fresh(tmpDiskUsage.nodes.Values)
      ensures tmpDiskUsage.sizes == ScanSizes(Scanned(entries)) && totalSize == ScanTotal(Scanned(entries))
      ensures Lengths63(entries) ==>
                forall names: seq<Name> :: names != [] ==>
                  SizeAt(tmpDiskUsage.sizes, Extend(Root, names)) ==
                  var sum := WalkSum(entries, names);
                  if sum > 0xFFFF_FFFF_FFFF_FFFF then 0xFFFF_FFFF_FFFF_FFFF else sum
    {
      tmpDiskUsage := new DiskUsage.Default();
      totalSize := ScanEntries(tmpDiskUsage, entries);
      if Lengths63(entries) {
        forall names: seq<Name> | names != []
          ensures SizeAt(tmpDiskUsage.sizes, Extend(Root, names)) ==
                  var sum := WalkSum(entries, names);
                  if sum > 0xFFFF_FFFF_FFFF_FFFF then 0xFFFF_FFFF_FFFF_FFFF else sum
        {
          WalkMeaning(entries, names);
        }
      }
    }

    static method ScanEntries(tmpDiskUsage: DiskUsage, entries: seq<WalkEntry>) returns (totalSize: u64)
      requires tmpDiskUsage.Valid() && tmpDiskUsage.sizes == ScanSizes([])
      modifies tmpDiskUsage, tmpDiskUsage.nodes.Values
      ensures tmpDiskUsage.Valid() && fresh(tmpDiskUsage.nodes.Values - old(tmpDiskUsage.nodes.Values))
      ensures tmpDiskUsage.sizes == ScanSizes(Scanned(entries)) && totalSize == ScanTotal(Scanned(entries))
    {
      ghost var scanned := Scanned(entries);
      totalSize := 0;
      for i := 0 to |entries|
        invariant tmpDiskUsage.Valid() && fresh(tmpDiskUsage.nodes.Values - old(tmpDiskUsage.nodes.Values))
        invariant tmpDiskUsage.sizes == ScanSizes(scanned[..i])
        invariant totalSize == ScanTotal(scanned[..i])
      {
        ScanStep(scanned, i);
        ScanEntry(tmpDiskUsage, entries[i], scanned, i);
        totalSize := AsU64(totalSize + entries[i].len);
      }
      assert scanned[..|entries|] == scanned;
    }

    /** The scan puts the tree and the total of a finished walk in place. */
    method Rescan(entries: seq<WalkEntry>)
      requires Valid()
      modifies this`diskUsage, this`diskUsageCached
      ensures Valid() && fresh(diskUsage) && fresh(diskUsage.nodes.Values)
      ensures State() == old(State()).(sizes := ScanSizes(Scanned(entries)), cached := ScanTotal(Scanned(entries)))
    {
      diskUsage, diskUsageCached := ScanWalk(entries);
    }
  }
}
