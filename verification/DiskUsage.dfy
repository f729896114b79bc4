/** The mutable tree of directory sizes. */
module DiskUsageTree {
  import opened Usage

  type Nodes = map<Path, DiskUsage>

  class DiskUsage {
    var size: u64
    var entries: map<Name, DiskUsage>

    // What a caller who holds the root of a tree knows of it: every node by path, and its size.
    ghost var nodes: Nodes
    ghost var sizes: Sizes

    ghost predicate Valid()
      reads this`nodes, this`sizes, nodes.Values`size, nodes.Values`entries
    {
      && Linked()
      && sizes.Keys == nodes.Keys
      && (forall q :: q in nodes ==> nodes[q].size == sizes[q])
    }

    /** `nodes` lists exactly the objects reachable from this one, each at its one path. */
    ghost predicate Linked()
      reads this`nodes, nodes.Values`entries
    {
      && Root in nodes && nodes[Root] == this
      && (forall q, k {:trigger Sub(q, k)} :: q in nodes ==>
            (k in nodes[q].entries <==> Sub(q, k) in nodes) &&
            (k in nodes[q].entries ==> nodes[q].entries[k] == nodes[Sub(q, k)]))
      && (forall q {:trigger Parent(q)} :: q in nodes && q.Sub? ==> Parent(q) in nodes)
      && (forall q, r :: q in nodes && r in nodes && nodes[q] == nodes[r] ==> q == r)
    }

    constructor Default()
      ensures Valid()
      ensures nodes == map[Root := this] && sizes == map[Root := 0] && entries == map[]
    {
      size := 0;
      entries := map[];
      new;
      nodes := map[Root := this];
      sizes := map[Root := 0];
    }

    lemma {:induction false} Ancestors(at: Path, names: seq<Name>)
      requires Linked() && Extend(at, names) in nodes
      ensures at in nodes
      decreases |names|
    {
      if names != [] {
        Ancestors(Sub(at, names[0]), names[1..]);
        assert Parent(Sub(at, names[0])) == at;
      }
    }

    method GetSize(path: seq<Name>) returns (size: u64, found: bool)
      requires Valid()
      ensures found == (Extend(Root, path) in sizes)
      ensures size == SizeAt(sizes, Extend(Root, path))
    {
      if path == [] {
        return this.size, true;
      }
      var current := this;
      var i := 0;
      while i < |path|
        invariant 0 <= i <= |path|
        invariant Extend(Root, path[..i]) in nodes && nodes[Extend(Root, path[..i])] == current
      {
        ExtendLast(Root, path, i);
        if path[i] in current.entries {
          current := current.entries[path[i]];
        } else {
          if Extend(Root, path) in nodes {
            ExtendSplit(Root, path, i + 1);
            Ancestors(Extend(Root, path[..i + 1]), path[i + 1..]);
          }
          return 0, false;
        }
        i := i + 1;
      }
      assert path[..i] == path;
      return current.size, true;
    }

    // The steps below work on one node of a larger tree: `this` is the node at `at` in the tree of `root`.

    lemma NothingBelowMissing(path: Path)
      requires Linked() && path !in nodes
      ensures forall k {:trigger Sub(path, k)} :: Sub(path, k) !in nodes
    {
      assert forall k {:trigger Sub(path, k)} :: Sub(path, k) in nodes ==> Parent(Sub(path, k)) in nodes;
    }

    /** Enters a new leaf of size 0 under `name`. */
    method InsertLeaf(name: Name, entry: DiskUsage, ghost root: DiskUsage, ghost at: Path)
      requires root.Valid() && at in root.nodes && root.nodes[at] == this && name !in entries
      requires entry !in root.nodes.Values && entry.size == 0 && entry.entries == map[]
      modifies root`nodes, root`sizes, this`entries
      ensures root.Valid() && Sub(at, name) !in old(root.nodes)
      ensures root.nodes == old(root.nodes)[Sub(at, name) := entry]
      ensures root.sizes == old(root.sizes)[Sub(at, name) := 0]
    {
      ghost var c := Sub(at, name);
      root.NothingBelowMissing(c);
      entries := entries[name := entry];
      root.nodes := root.nodes[c := entry];
      root.sizes := root.sizes[c := 0];
    }

    /** The child under `name`, created with size 0 where it is missing. */
    method ChildOrDefault(name: Name, ghost root: DiskUsage, ghost at: Path) returns (entry: DiskUsage)
      requires root.Valid() && at in root.nodes && root.nodes[at] == this
      modifies root`nodes, root`sizes, this`entries
      ensures root.Valid()
      ensures Sub(at, name) in root.nodes && root.nodes[Sub(at, name)] == entry
      ensures
        if Sub(at, name) in old(root.nodes) then
          root.nodes == old(root.nodes) && root.sizes == old(root.sizes)
        else
          && root.nodes == old(root.nodes)[Sub(at, name) := entry] && fresh(entry)
          && root.sizes == old(root.sizes)[Sub(at, name) := 0]
    {
      if name in entries {
        entry := entries[name];
        assert Sub(at, name) in root.nodes;
      } else {
        entry := new DiskUsage.Default();
        InsertLeaf(name, entry, root, at);
      }
    }

    method Adjust(delta: int, ghost root: DiskUsage, ghost at: Path)
      requires root.Valid() && at in root.nodes && root.nodes[at] == this
      modifies this`size, root`sizes
      ensures root.Valid()
      ensures root.sizes == old(root.sizes)[at := Adjusted(old(root.sizes)[at], delta)]
    {
      size := Adjusted(size, delta);
      root.sizes := root.sizes[at := size];
    }

    method UpdateSize(path: seq<Name>, delta: int)
      requires Valid()
      modifies this, nodes.Values
      ensures Valid() && fresh(nodes.Values - old(nodes.Values))
      ensures sizes == Charged(old(sizes), Extend(Root, path), delta)
    {
      if path == [] {
        return;
      }
      var current := this;
      var i := 0;
      while i < |path|
        invariant 0 <= i <= |path|
        invariant Valid()
        invariant fresh(nodes.Values - old(nodes.Values))
        invariant Extend(Root, path[..i]) in nodes && nodes[Extend(Root, path[..i])] == current
        invariant sizes == Charged(old(sizes), Extend(Root, path[..i]), delta)
      {
        ghost var at := Extend(Root, path[..i]);
        var entry := current.ChildOrDefault(path[i], this, at);
        ChargedStep(old(sizes), Sub(at, path[i]), delta, sizes);
        entry.Adjust(delta, this, Sub(at, path[i]));
        ExtendLast(Root, path, i);
        current := entry;
        i := i + 1;
      }
      assert path[..i] == path;
    }

    // ----- removal

    /** This node is the root of what a tree of `nodes` and `sizes` held at `path`. */
    ghost predicate HoldsSubtree(path: Path, nodes: Nodes, sizes: Sizes)
      reads this`nodes, this`sizes, this.nodes.Values`size, this.nodes.Values`entries
    {
      Valid() && this.nodes == Subtree(nodes, path) && this.sizes == Subtree(sizes, path)
    }

    static lemma OutsideSubtree(nodes: Nodes, q: Path, path: Path)
      requires q in nodes && Depth(q) < Depth(path)
      requires forall q, r :: q in nodes && r in nodes && nodes[q] == nodes[r] ==> q == r
      ensures nodes[q] !in Subtree(nodes, path).Values
    {
      forall s | s in Subtree(nodes, path)
        ensures Subtree(nodes, path)[s] != nodes[q]
      {
        BelowJoin(path, s);
      }
    }

    /** Makes this node, found at `at` in the tree of `root`, the root of its own subtree. */
    ghost method Reroot(root: DiskUsage, at: Path)
      requires root.Valid() && at in root.nodes && root.nodes[at] == this && at.Sub?
      modifies this`nodes, this`sizes
      ensures root.Valid() && HoldsSubtree(at, root.nodes, root.sizes)
      ensures root.nodes == old(root.nodes) && root.sizes == old(root.sizes)
    {
      nodes := Subtree(root.nodes, at);
      sizes := Subtree(root.sizes, at);
      forall q {:trigger Parent(q)} | q in nodes && q.Sub?
        ensures Parent(q) in nodes
      {
        assert Parent(Join(at, q)) == Join(at, q.up);
      }
      forall q, r | q in nodes && r in nodes && nodes[q] == nodes[r]
        ensures q == r
      {
        BelowJoin(at, q);
        BelowJoin(at, r);
      }
    }

    /** Takes the entry `name` out. */
    method Unlink(name: Name, ghost root: DiskUsage, ghost at: Path) returns (removed: DiskUsage)
      requires root.Valid() && at in root.nodes && root.nodes[at] == this && name in entries
      modifies root`nodes, root`sizes, this`entries
      ensures root.Valid()
      ensures removed == old(entries[name])
      ensures root.nodes == Pruned(old(root.nodes), Sub(at, name))
      ensures root.sizes == Pruned(old(root.sizes), Sub(at, name))
    {
      removed := entries[name];
      entries := entries - {name};
      NotUnder(at, Sub(at, name));
      root.nodes := Pruned(root.nodes, Sub(at, name));
      root.sizes := Pruned(root.sizes, Sub(at, name));
    }

    /** `Unlink` for an entry that already is the root of its subtree, and stays it. */
    method UnlinkSubtree(name: Name, ghost root: DiskUsage, ghost at: Path) returns (removed: DiskUsage)
      requires root.Valid() && at in root.nodes && root.nodes[at] == this && name in entries
      requires entries[name].HoldsSubtree(Sub(at, name), root.nodes, root.sizes)
      requires this !in entries[name].nodes.Values && root != entries[name]
      modifies root`nodes, root`sizes, this`entries
      ensures root.Valid() && removed.HoldsSubtree(Sub(at, name), old(root.nodes), old(root.sizes))
      ensures root.nodes == Pruned(old(root.nodes), Sub(at, name))
      ensures root.sizes == Pruned(old(root.sizes), Sub(at, name))
    {
      removed := Unlink(name, root, at);
    }

    /** This tree held `nodes` and `sizes` until `path` was taken out of it; the ancestors below `from`
        already gave its size back. */
    ghost predicate Lacks(from: Path, path: Path, nodes: Nodes, sizes: Sizes)
      requires path.Sub? && path in sizes
      reads this`nodes, this`sizes
    {
      this.nodes == Pruned(nodes, path) && this.sizes == Released(sizes, from, path)
    }

    /** What a removal of `path` did to the tree of `root`: nothing where `path` is missing; otherwise
        the subtree was handed out and the ancestors below `from` gave its size back. */
    twostate predicate Removal(root: DiskUsage, from: Path, path: Path, new removed: DiskUsage?)
      requires path.Sub?
      reads root`nodes, root`sizes, root.nodes.Values`size, root.nodes.Values`entries
      reads if removed == null then {} else {removed}, if removed == null then {} else removed.nodes.Values
    {
      && root.Valid()
      && (removed != null <==> path in old(root.sizes))
      && (removed == null ==> root.nodes == old(root.nodes) && root.sizes == old(root.sizes))
      && (removed != null ==> removed.HoldsSubtree(path, old(root.nodes), old(root.sizes)))
      && (removed != null ==> root.Lacks(from, path, old(root.nodes), old(root.sizes)))
    }

    /** The last component: the entry itself goes. */
    method RemoveEntry(name: Name, ghost root: DiskUsage, ghost at: Path) returns (removed: DiskUsage?)
      requires root.Valid() && at in root.nodes && root.nodes[at] == this
      modifies root`nodes, root`sizes, root.nodes.Values
      ensures Removal(root, at, Sub(at, name), removed)
    {
      ghost var c := Sub(at, name);
      if name in entries {
        entries[name].Reroot(root, c);
        OutsideSubtree(root.nodes, at, c);
        OutsideSubtree(root.nodes, Root, c);
        removed := UnlinkSubtree(name, root, at);
      } else {
        assert c !in root.nodes;
        removed := null;
      }
    }

    /** One step back up: this node gives the removed size back. */
    method GiveBack(amount: u64, ghost root: DiskUsage, ghost c: Path, ghost path: Path, ghost nodes: Nodes, ghost sizes: Sizes)
      requires path.Sub? && path in sizes && sizes[path] == amount && nodes.Keys == sizes.Keys
      requires root.Valid() && c in root.nodes && root.nodes[c] == this && c.Sub? && Under(path.up, c)
      requires root.Lacks(c, path, nodes, sizes)
      modifies this`size, root`sizes
      ensures root.Valid() && root.Lacks(c.up, path, nodes, sizes)
    {
      ReleasedStep(sizes, c, path);
      Adjust(-(amount as int), root, c);
    }

    /** The same for the node `removed` that was taken out, which stays as it is. */
    method GiveBackSizeOf(removed: DiskUsage, ghost root: DiskUsage, ghost c: Path, ghost path: Path, ghost nodes: Nodes, ghost sizes: Sizes)
      requires path.Sub? && path in sizes && nodes.Keys == sizes.Keys
      requires root.Valid() && c in root.nodes && root.nodes[c] == this && c.Sub? && Under(path.up, c)
      requires root.Lacks(c, path, nodes, sizes)
      requires removed.HoldsSubtree(path, nodes, sizes) && this !in removed.nodes.Values && root != removed
      modifies this`size, root`sizes
      ensures root.Valid() && root.Lacks(c.up, path, nodes, sizes)
      ensures removed.HoldsSubtree(path, nodes, sizes)
    {
      assert Join(path, Root) == path;
      GiveBack(removed.size, root, c, path, nodes, sizes);
    }

    method RecursiveRemove(path: seq<Name>, ghost root: DiskUsage, ghost at: Path) returns (removed: DiskUsage?)
      requires root.Valid() && at in root.nodes && root.nodes[at] == this && path != []
      modifies root`nodes, root`sizes, root.nodes.Values
      ensures Extend(at, path).Sub? && Removal(root, at, Extend(at, path), removed)
      decreases |path|, 1
    {
      var name := path[0];
      if |path| == 1 {
        assert Extend(at, path) == Sub(at, name);
        removed := RemoveEntry(name, root, at);
      } else {
        removed := RemoveBelow(name, path[1..], root, at);
      }
    }

    /** An inner component: the removal happens further down. */
    method RemoveBelow(name: Name, path: seq<Name>, ghost root: DiskUsage, ghost at: Path) returns (removed: DiskUsage?)
      requires root.Valid() && at in root.nodes && root.nodes[at] == this && path != []
      modifies root`nodes, root`sizes, root.nodes.Values
      ensures Extend(Sub(at, name), path).Sub?
      ensures Removal(root, at, Extend(Sub(at, name), path), removed)
      decreases |path| + 1, 0
    {
      ghost var c := Sub(at, name);
      ghost var full := Extend(c, path);
      ExtendUnder(c, path);
      if name in entries {
        var usage := entries[name];
        removed := usage.RecursiveRemove(path, root, c);
        if removed != null {
          OutsideSubtree(old(root.nodes), c, full);
          OutsideSubtree(old(root.nodes), Root, full);
          NotUnder(c, full);
          usage.GiveBackSizeOf(removed, root, c, full, old(root.nodes), old(root.sizes));
        }
      } else {
        if full in root.nodes {
          root.Ancestors(c, path);
        }
        removed := null;
      }
    }

    method RemovePath(path: seq<Name>) returns (removed: DiskUsage?)
      requires Valid()
      modifies this, nodes.Values
      ensures Valid()
      ensures removed != null <==> path != [] && Extend(Root, path) in old(sizes)
      ensures sizes == Detached(old(sizes), Extend(Root, path))
      ensures removed != null ==> removed.Valid() && removed.sizes == Subtree(old(sizes), Extend(Root, path)) && Apart(removed)
      ensures nodes.Values <= old(nodes.Values)
      ensures removed != null ==> removed.nodes.Values <= old(nodes.Values)
    {
      if path == [] {
        return null;
      }
      removed := RecursiveRemove(path, this, Root);
      if removed != null {
        PrunedApart(old(nodes), Extend(Root, path));
        PrunedValues(old(nodes), Extend(Root, path));
      }
    }

    static lemma PrunedValues(nodes: Nodes, path: Path)
      ensures Pruned(nodes, path).Values <= nodes.Values
      ensures Subtree(nodes, path).Values <= nodes.Values
    {
    }

    static lemma PrunedApart(nodes: Nodes, path: Path)
      requires forall q, r :: q in nodes && r in nodes && nodes[q] == nodes[r] ==> q == r
      ensures forall q, r :: q in Pruned(nodes, path) && r in Subtree(nodes, path) ==>
                               Pruned(nodes, path)[q] != Subtree(nodes, path)[r]
    {
      forall q, r | q in Pruned(nodes, path) && r in Subtree(nodes, path)
        ensures nodes[q] != Subtree(nodes, path)[r]
      {
        BelowJoin(path, r);
      }
    }

    method Clear()
      requires Valid()
      modifies this
      ensures Valid() && nodes == map[Root := this]
      ensures sizes == map[Root := old(sizes)[Root]]
    {
      entries := map[];
      nodes := map[Root := this];
      sizes := map[Root := size];
    }

    // ----- hanging a tree up

    /** The joined node map is again closed under parents and has each object once. */
    static lemma JoinedNodes(nodes: Nodes, c: Path, sub: Nodes)
      requires c.Sub? && c.up in nodes && c !in nodes
      requires forall q {:trigger Parent(q)} :: q in nodes && q.Sub? ==> Parent(q) in nodes
      requires forall q {:trigger Parent(q)} :: q in sub && q.Sub? ==> Parent(q) in sub
      requires forall q, r :: q in nodes && r in nodes && nodes[q] == nodes[r] ==> q == r
      requires forall q, r :: q in sub && r in sub && sub[q] == sub[r] ==> q == r
      requires forall q, r :: q in nodes && r in sub ==> nodes[q] != sub[r]
      ensures forall q :: q in nodes ==> !Under(q, c)
      ensures
        var joined := nodes + Hung(c, sub);
        && (forall q {:trigger Parent(q)} :: q in joined && q.Sub? ==> Parent(q) in joined)
        && (forall q, r :: q in joined && r in joined && joined[q] == joined[r] ==> q == r)
    {
      forall q | q in nodes
        ensures !Under(q, c)
      {
        if Under(q, c) {
          NothingUnderMissing(nodes, c, q);
        }
      }
      var joined := nodes + Hung(c, sub);
      forall q {:trigger Parent(q)} | q in joined && q.Sub?
        ensures Parent(q) in joined
      {
        if Under(q, c) && q != c {
          assert Parent(Below(c, q)) == Below(c, q.up);
        }
      }
      forall q, r | q in joined && r in joined && joined[q] == joined[r]
        ensures q == r
      {
        if Under(q, c) && Under(r, c) {
          JoinBelow(c, q);
          JoinBelow(c, r);
        }
      }
    }

    /** The joined size map matches the joined node map. */
    lemma JoinedSizes(source: DiskUsage, c: Path)
      requires Valid() && source.Valid()
      ensures (nodes + Hung(c, source.nodes)).Keys == (sizes + Hung(c, source.sizes)).Keys
      ensures forall q :: q in nodes + Hung(c, source.nodes) ==>
                            (nodes + Hung(c, source.nodes))[q].size == (sizes + Hung(c, source.sizes))[q]
    {
    }

    /** Enters `source` under a free `name`: the entries now are those of the joined node map. */
    method EnterSource(name: Name, source: DiskUsage, ghost root: DiskUsage, ghost at: Path)
      requires root.Valid() && at in root.nodes && root.nodes[at] == this && name !in entries
      requires source.Valid()
      requires forall q, r :: q in root.nodes && r in source.nodes ==> root.nodes[q] != source.nodes[r]
      modifies this`entries
      ensures
        var joined := root.nodes + Hung(Sub(at, name), source.nodes);
        forall q, k {:trigger Sub(q, k)} :: q in joined ==>
          (k in joined[q].entries <==> Sub(q, k) in joined) &&
          (k in joined[q].entries ==> joined[q].entries[k] == joined[Sub(q, k)])
    {
      ghost var c := Sub(at, name);
      JoinedNodes(root.nodes, c, source.nodes);
      ghost var joined := root.nodes + Hung(c, source.nodes);
      entries := entries[name := source];
      forall q, k {:trigger Sub(q, k)} | q in joined
        ensures k in joined[q].entries <==> Sub(q, k) in joined
        ensures k in joined[q].entries ==> joined[q].entries[k] == joined[Sub(q, k)]
      {
        UnderSub(c);
        if Under(q, c) {
          assert joined[q].entries == old(source.nodes[Below(c, q)].entries);
        } else if q == at {
        } else {
          assert joined[q].entries == old(root.nodes[q].entries);
        }
      }
    }

    /** Takes `joined` for the node map, once the objects agree with it. */
    ghost method Adopt(joined: Nodes, joinedSizes: Sizes)
      requires Root in joined && joined[Root] == this && joinedSizes.Keys == joined.Keys
      requires forall q, k {:trigger Sub(q, k)} :: q in joined ==>
                 (k in joined[q].entries <==> Sub(q, k) in joined) &&
                 (k in joined[q].entries ==> joined[q].entries[k] == joined[Sub(q, k)])
      requires forall q {:trigger Parent(q)} :: q in joined && q.Sub? ==> Parent(q) in joined
      requires forall q, r :: q in joined && r in joined && joined[q] == joined[r] ==> q == r
      requires forall q :: q in joined ==> joined[q].size == joinedSizes[q]
      modifies this`nodes, this`sizes
      ensures Valid() && nodes == joined && sizes == joinedSizes
    {
      nodes := joined;
      sizes := joinedSizes;
    }

    /** Hangs the whole tree of `source` up under a free `name`. */
    method LinkSubtree(name: Name, source: DiskUsage, ghost root: DiskUsage, ghost at: Path)
      requires root.Valid() && at in root.nodes && root.nodes[at] == this && name !in entries
      requires source.Valid() && source != root
      requires forall q, r :: q in root.nodes && r in source.nodes ==> root.nodes[q] != source.nodes[r]
      modifies root`nodes, root`sizes, this`entries
      ensures root.Valid()
      ensures root.nodes == old(root.nodes) + Hung(Sub(at, name), source.nodes)
      ensures root.sizes == old(root.sizes) + Hung(Sub(at, name), source.sizes)
    {
      ghost var c := Sub(at, name);
      JoinedNodes(root.nodes, c, source.nodes);
      root.JoinedSizes(source, c);
      EnterSource(name, source, root, at);
      root.Adopt(root.nodes + Hung(c, source.nodes), root.sizes + Hung(c, source.sizes));
    }

    /** No node belongs to both trees. */
    ghost predicate Apart(source: DiskUsage)
      reads this`nodes, source`nodes
    {
      forall q, r :: q in nodes && r in source.nodes ==> nodes[q] != source.nodes[r]
    }

    /** One step of the walk to the parent of the target. */
    method OpenChild(name: Name, amount: u64, source: DiskUsage, ghost root: DiskUsage, ghost at: Path, ghost before: Sizes)
      returns (entry: DiskUsage)
      requires root.Valid() && at in root.nodes && root.nodes[at] == this
      requires Root in before && root.sizes == Opened(before, at, amount)
      requires source.Valid() && root.Apart(source)
      modifies root`nodes, root`sizes, this`entries, this`size
      ensures root.Valid() && Sub(at, name) in root.nodes && root.nodes[Sub(at, name)] == entry
      ensures root.sizes == Opened(before, Sub(at, name), amount)
      ensures source.Valid() && root.Apart(source)
      ensures source.sizes == old(source.sizes) && source.nodes == old(source.nodes)
      ensures fresh(root.nodes.Values - old(root.nodes.Values))
    {
      assert source.nodes[Root] != root.nodes[Root];
      entry := ChildOrDefault(name, root, at);
      OpenedStep(before, Sub(at, name), amount, root.sizes);
      Adjust(amount, root, at);
    }

    /** The last component: `source` replaces what was there. */
    method ReplaceEntry(leaf: Name, source: DiskUsage, ghost root: DiskUsage, ghost at: Path)
      requires root.Valid() && at in root.nodes && root.nodes[at] == this
      requires source.Valid() && root.Apart(source)
      modifies root`nodes, root`sizes, this`entries
      ensures root.Valid()
      ensures root.nodes == Pruned(old(root.nodes), Sub(at, leaf)) + Hung(Sub(at, leaf), source.nodes)
      ensures root.sizes == Pruned(old(root.sizes), Sub(at, leaf)) + Hung(Sub(at, leaf), source.sizes)
    {
      assert source.nodes[Root] != root.nodes[Root];
      if leaf in entries {
        NotUnder(at, Sub(at, leaf));
        var replaced := Unlink(leaf, root, at);
      } else {
        root.NothingToPrune(Sub(at, leaf));
      }
      LinkSubtree(leaf, source, root, at);
    }

    lemma NothingToPrune(c: Path)
      requires Valid() && c !in nodes
      ensures Pruned(nodes, c) == nodes && Pruned(sizes, c) == sizes
    {
      forall q | q in nodes
        ensures !Under(q, c)
      {
        if Under(q, c) {
          NothingUnderMissing(nodes, c, q);
        }
      }
    }

    /** The last step of the walk: the parent of the target is raised and takes `source` in. */
    method HangUp(leaf: Name, source: DiskUsage, ghost root: DiskUsage, ghost at: Path, ghost before: Sizes)
      requires root.Valid() && at in root.nodes && root.nodes[at] == this
      requires Root in before && root.sizes == Opened(before, at, source.size)
      requires source.Valid() && root.Apart(source)
      modifies root`nodes, root`sizes, this`entries, this`size
      ensures root.Valid() && root.sizes == Attached(before, Sub(at, leaf), old(source.sizes))
      ensures root.nodes.Values <= old(root.nodes.Values) + old(source.nodes.Values)
    {
      assert source.nodes[Root] != root.nodes[Root];
      OpenedLast(before, at, source.size);
      Adjust(source.size, root, at);
      ReplaceEntry(leaf, source, root, at);
    }

    method AddDirectory(target: seq<Name>, source: DiskUsage) returns (added: bool)
      requires Valid() && source.Valid() && Apart(source)
      modifies this, nodes.Values
      ensures Valid() && added == (target != [])
      ensures sizes == Attached(old(sizes), Extend(Root, target), old(source.sizes))
      ensures fresh(nodes.Values - old(nodes.Values) - old(source.nodes.Values))
    {
      if target == [] {
        return false;
      }
      var leaf, parents := target[|target| - 1], target[..|target| - 1];
      var current := this;
      var i := 0;
      while i < |parents|
        invariant 0 <= i <= |parents|
        invariant Valid() && source.Valid() && Apart(source)
        invariant source.sizes == old(source.sizes) && source.nodes == old(source.nodes)
        invariant fresh(nodes.Values - old(nodes.Values))
        invariant Extend(Root, parents[..i]) in nodes && nodes[Extend(Root, parents[..i])] == current
        invariant sizes == Opened(old(sizes), Extend(Root, parents[..i]), source.size)
      {
        ghost var at := Extend(Root, parents[..i]);
        ExtendLast(Root, parents, i);
        current := current.OpenChild(parents[i], source.size, source, this, at, old(sizes));
        i := i + 1;
      }
      assert parents[..i] == parents;
      assert Extend(Root, target) == Sub(Extend(Root, parents), leaf) by {
        assert target[..|parents|] == parents && target[..|target|] == target;
        ExtendLast(Root, target, |parents|);
      }
      current.HangUp(leaf, source, this, Extend(Root, parents), old(sizes));
      return true;
    }

    /** Hangs up again what was taken out at `oldPath`. */
    method Rehang(newPath: seq<Name>, removed: DiskUsage, ghost was: Sizes, ghost oldPath: Path,
                  ghost objects: set<DiskUsage>)
      requires Valid() && removed.Valid() && Apart(removed)
      requires nodes.Values <= objects && removed.nodes.Values <= objects
      requires oldPath.Sub? && oldPath in was
      requires sizes == Detached(was, oldPath) && removed.sizes == Subtree(was, oldPath)
      modifies this, nodes.Values
      ensures Valid() && fresh(nodes.Values - objects)
      ensures sizes == RenamedDirectory(was, oldPath, Extend(Root, newPath))
    {
      ghost var detached, sub := sizes, removed.sizes;
      var added := AddDirectory(newPath, removed);
      RenamedBy(was, oldPath, Extend(Root, newPath), detached, sub, sizes);
    }

    /** `RemovePath` followed by `AddDirectory` of what it took out, as a rename does it under one lock. */
    method MoveDirectory(oldPath: seq<Name>, newPath: seq<Name>)
      requires Valid()
      modifies this, nodes.Values
      ensures Valid() && fresh(nodes.Values - old(nodes.Values))
      ensures sizes == RenamedDirectory(old(sizes), Extend(Root, oldPath), Extend(Root, newPath))
    {
      ghost var was, old', new' := sizes, Extend(Root, oldPath), Extend(Root, newPath);
      ghost var objects := nodes.Values;
      var removed := RemovePath(oldPath);
      if removed != null {
        ExtendUnder(Root, oldPath);
        Rehang(newPath, removed, was, old', objects);
      } else {
        NothingRenamed(was, old', new');
      }
    }
  }
}
