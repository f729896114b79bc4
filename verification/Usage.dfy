/** The sizes a `DiskUsage` tree records, as one flat map from path to size, and what each
    operation of the tree does to that map. */
module Usage {
  const U64_MAX: nat := 0xFFFF_FFFF_FFFF_FFFF

  type u64 = n: nat | n <= U64_MAX

  type Name = string

  /** A path relative to the server's base directory, last component outermost. */
  datatype Path = Root | Sub(up: Path, name: Name)

  /** Every node of a tree with its recorded size. */
  type Sizes = map<Path, u64>

  function SaturatingAdd(a: u64, b: nat): u64 {
    if a + b > U64_MAX then U64_MAX else a + b
  }

  function SaturatingSub(a: u64, b: nat): u64 {
    if a < b then 0 else a - b
  }

  /** A size after a signed delta was applied to it. */
  function Adjusted(size: u64, delta: int): u64 {
    if delta >= 0 then SaturatingAdd(size, delta) else SaturatingSub(size, -delta)
  }

  function SizeAt(sizes: Sizes, path: Path): u64 {
    if path in sizes then sizes[path] else 0
  }

  // ----- paths

  /** `at` followed by the components of `names`, in their order. */
  function Extend(at: Path, names: seq<Name>): Path
    decreases |names|
  {
    if names == [] then at else Extend(Sub(at, names[0]), names[1..])
  }

  lemma {:induction false} ExtendLast(at: Path, names: seq<Name>, i: nat)
    requires i < |names|
    ensures Extend(at, names[..i + 1]) == Sub(Extend(at, names[..i]), names[i])
    decreases i
  {
    if i > 0 {
      ExtendLast(Sub(at, names[0]), names[1..], i - 1);
      assert names[1..][..i - 1] == names[..i][1..] && names[1..][..i] == names[..i + 1][1..];
    }
  }

  lemma {:induction false} ExtendSplit(at: Path, names: seq<Name>, i: nat)
    requires i <= |names|
    ensures Extend(at, names) == Extend(Extend(at, names[..i]), names[i..])
    decreases i
  {
    if i > 0 {
      ExtendSplit(Sub(at, names[0]), names[1..], i - 1);
      assert names[1..][..i - 1] == names[..i][1..] && names[1..][i - 1..] == names[i..];
    }
  }

  function Depth(path: Path): nat {
    if path.Root? then 0 else 1 + Depth(path.up)
  }

  /** `q` is `at` or lies below it. */
  predicate Under(q: Path, at: Path) {
    q == at || (q.Sub? && Under(q.up, at))
  }

  lemma UnderDepth(q: Path, at: Path)
    requires Under(q, at)
    ensures Depth(q) >= Depth(at) && (Depth(q) == Depth(at) ==> q == at)
  {
  }

  lemma {:induction false} ExtendUnder(at: Path, names: seq<Name>)
    requires names != []
    ensures Extend(at, names).Sub? && Under(Extend(at, names).up, at) && Depth(Extend(at, names)) == Depth(at) + |names|
    decreases |names|
  {
    if |names| > 1 {
      var c := Sub(at, names[0]);
      ExtendUnder(c, names[1..]);
      UnderUp(Extend(c, names[1..]).up, c);
    }
  }

  lemma UnderUp(q: Path, c: Path)
    requires c.Sub? && Under(q, c)
    ensures Under(q, c.up)
  {
  }

  lemma {:induction q} UnderTransitive(q: Path, p: Path, at: Path)
    requires Under(q, p) && Under(p, at)
    ensures Under(q, at)
  {
  }

  /** Two ancestors of one path lie one above the other. */
  lemma {:induction q} Comparable(q: Path, a: Path, b: Path)
    requires Under(q, a) && Under(q, b)
    ensures Under(a, b) || Under(b, a)
  {
  }

  lemma UnderBoth(q: Path, p: Path)
    requires Under(q, p) && Under(p, q)
    ensures p == q
  {
    UnderDepth(q, p);
    UnderDepth(p, q);
  }

  /** `rest`, seen from `at`, as a path. */
  function Join(at: Path, rest: Path): Path {
    if rest.Root? then at else Sub(Join(at, rest.up), rest.name)
  }

  /** What follows `at` in `q`. */
  function Below(at: Path, q: Path): Path
    requires Under(q, at)
  {
    if q == at then Root else Sub(Below(at, q.up), q.name)
  }

  lemma JoinBelow(at: Path, q: Path)
    requires Under(q, at)
    ensures Join(at, Below(at, q)) == q
  {
  }

  lemma BelowJoin(at: Path, rest: Path)
    ensures Depth(Join(at, rest)) == Depth(at) + Depth(rest)
    ensures Under(Join(at, rest), at) && Below(at, Join(at, rest)) == rest
  {
  }

  function Parent(path: Path): Path
    requires path.Sub?
  {
    path.up
  }

  lemma {:induction false} UnderBelow(at: Path, q: Path, p: Path)
    requires Under(q, at) && Under(p, at)
    ensures Under(q, p) <==> Under(Below(at, q), Below(at, p))
  {
    if q == at {
      if Under(q, p) {
        UnderBoth(q, p);
      }
    } else {
      if q == p {
      } else if Below(at, q) == Below(at, p) {
        JoinBelow(at, q);
        JoinBelow(at, p);
      } else {
        UnderBelow(at, q.up, p);
      }
    }
  }

  lemma UnderSub(at: Path)
    ensures forall q, k {:trigger Sub(q, k)} :: Under(q, at) ==>
                                                  Under(Sub(q, k), at) && Below(at, Sub(q, k)) == Sub(Below(at, q), k)
  {
    forall q, k {:trigger Sub(q, k)} | Under(q, at)
      ensures Under(Sub(q, k), at) && Below(at, Sub(q, k)) == Sub(Below(at, q), k)
    {
      UnderDepth(q, at);
    }
  }

  lemma {:induction false} NothingUnderMissing<T>(m: map<Path, T>, at: Path, q: Path)
    requires forall q {:trigger Parent(q)} :: q in m && q.Sub? ==> Parent(q) in m
    requires at !in m && Under(q, at)
    ensures q !in m
  {
    if q != at {
      NothingUnderMissing(m, at, Parent(q));
    }
  }

  // ----- charging

  /** `delta` applied to every node on the way from below `from` to `path`, missing ones created. */
  function ChargedFrom(sizes: Sizes, from: Path, path: Path, delta: int): Sizes {
    if path == from || path.Root? then sizes
    else ChargedFrom(sizes, from, path.up, delta)[path := Adjusted(SizeAt(sizes, path), delta)]
  }

  function Charged(sizes: Sizes, path: Path, delta: int): Sizes {
    ChargedFrom(sizes, Root, path, delta)
  }

  /** `q` lies on the way from below `from` to `path`. */
  predicate Between(q: Path, from: Path, path: Path) {
    Under(path, q) && Under(q, from) && q != from
  }

  /** What a charge does, node by node. */
  lemma {:induction false} ChargedMeaning(sizes: Sizes, from: Path, path: Path, delta: int)
    requires Under(path, from)
    ensures forall q :: q in ChargedFrom(sizes, from, path, delta) <==> q in sizes || Between(q, from, path)
    ensures forall q :: q in ChargedFrom(sizes, from, path, delta) ==>
                          ChargedFrom(sizes, from, path, delta)[q] ==
                          Adjusted(SizeAt(sizes, q), if Between(q, from, path) then delta else 0)
  {
    if path == from {
      forall q ensures !Between(q, from, path) {
        if Between(q, from, path) {
          UnderDepth(q, from);
          UnderDepth(path, q);
        }
      }
    } else {
      ChargedMeaning(sizes, from, path.up, delta);
    }
  }

  /** What a charge does to one node: the walk adjusts `path` and its ancestors, but never the root. */
  lemma ChargedSizeAt(sizes: Sizes, path: Path, delta: int, q: Path)
    ensures SizeAt(Charged(sizes, path, delta), q) ==
            Adjusted(SizeAt(sizes, q), if q.Sub? && Under(path, q) then delta else 0)
    ensures q in Charged(sizes, path, delta) <==> q in sizes || (q.Sub? && Under(path, q))
  {
    UnderRoot(path);
    UnderRoot(q);
    ChargedMeaning(sizes, Root, path, delta);
  }

  /** A tree's node set: the root, and with every node its parent. */
  ghost predicate IsTree(sizes: Sizes) {
    && Root in sizes
    && forall q {:trigger Parent(q)} :: q in sizes && q.Sub? ==> Parent(q) in sizes
  }

  lemma ChargedIsTree(sizes: Sizes, path: Path, delta: int)
    requires IsTree(sizes)
    ensures IsTree(Charged(sizes, path, delta))
  {
    UnderRoot(path);
    ChargedMeaning(sizes, Root, path, delta);
    forall q {:trigger Parent(q)} | q in Charged(sizes, path, delta) && q.Sub?
      ensures Parent(q) in Charged(sizes, path, delta)
    {
      if Under(path, q) && Parent(q) != Root {
        UnderUp(path, q);
        UnderRoot(Parent(q));
      }
    }
  }

  /** One step of the walk: the child found or made with size 0, then adjusted. */
  lemma ChargedStep(sizes: Sizes, path: Path, delta: int, grown: Sizes)
    requires path.Sub?
    requires
      var before := Charged(sizes, path.up, delta);
      grown == if path in before then before else before[path := 0]
    ensures grown[path := Adjusted(grown[path], delta)] == Charged(sizes, path, delta)
  {
    UnderRoot(path.up);
    ChargedMeaning(sizes, Root, path.up, delta);
    if Under(path.up, path) {
      UnderDepth(path.up, path);
    }
  }

  lemma UnderRoot(path: Path)
    ensures Under(path, Root)
  {
  }

  // ----- whole subtrees

  /** `m` without everything at and below `at`. */
  function Pruned<T>(m: map<Path, T>, at: Path): map<Path, T> {
    map q | q in m && !Under(q, at) :: m[q]
  }

  /** The part of `m` at and below `at`, seen from `at`. */
  function Subtree<T>(m: map<Path, T>, at: Path): (sub: map<Path, T>)
    ensures forall s :: s in sub <==> Join(at, s) in m
    ensures forall s :: s in sub ==> sub[s] == m[Join(at, s)]
  {
    var rests := set q | q in m && Under(q, at) :: Below(at, q);
    assert forall q :: q in m && Under(q, at) ==> Join(at, Below(at, q)) == q by {
      forall q | q in m && Under(q, at) ensures Join(at, Below(at, q)) == q { JoinBelow(at, q); }
    }
    assert forall s :: Join(at, s) in m ==> s in rests by {
      forall s | Join(at, s) in m ensures s in rests { BelowJoin(at, s); }
    }
    map s | s in rests :: m[Join(at, s)]
  }

  /** `sub`, seen from the root of the tree it hangs in at `at`. */
  function Hung<T>(at: Path, sub: map<Path, T>): (hung: map<Path, T>)
    ensures forall q :: q in hung <==> Under(q, at) && Below(at, q) in sub
    ensures forall q :: q in hung ==> hung[q] == sub[Below(at, q)]
  {
    var paths := set s | s in sub :: Join(at, s);
    assert forall s :: s in sub ==> Under(Join(at, s), at) && Below(at, Join(at, s)) == s by {
      forall s | s in sub ensures Under(Join(at, s), at) && Below(at, Join(at, s)) == s { BelowJoin(at, s); }
    }
    assert forall q :: Under(q, at) && Below(at, q) in sub ==> q in paths by {
      forall q | Under(q, at) && Below(at, q) in sub ensures q in paths { JoinBelow(at, q); }
    }
    map q | q in paths :: sub[Below(at, q)]
  }

  /** `path` and everything below it taken out, its size taken off its ancestors below `from`. */
  function Released(sizes: Sizes, from: Path, path: Path): Sizes
    requires path.Sub? && path in sizes
  {
    Pruned(ChargedFrom(sizes, from, path.up, -(sizes[path] as int)), path)
  }

  /** `path` and everything below it taken out, its size taken off every ancestor but the root. */
  function Detached(sizes: Sizes, path: Path): Sizes {
    if path.Root? || path !in sizes then sizes else Released(sizes, Root, path)
  }

  lemma {:induction false} ChargedFromUp(sizes: Sizes, c: Path, path: Path, delta: int)
    requires c.Sub? && Under(path, c)
    ensures c in ChargedFrom(sizes, c, path, delta) <==> c in sizes
    ensures SizeAt(ChargedFrom(sizes, c, path, delta), c) == SizeAt(sizes, c)
    ensures ChargedFrom(sizes, c.up, path, delta)
         == ChargedFrom(sizes, c, path, delta)[c := Adjusted(SizeAt(sizes, c), delta)]
  {
    if path != c {
      ChargedFromUp(sizes, c, path.up, delta);
      UnderDepth(path.up, c);
    }
  }

  lemma PrunedUpdate<T>(m: map<Path, T>, c: Path, value: T, path: Path)
    requires !Under(c, path)
    ensures Pruned(m[c := value], path) == Pruned(m, path)[c := value]
  {
  }

  lemma PrunedKeeps<T>(m: map<Path, T>, c: Path, path: Path)
    requires c in m && !Under(c, path)
    ensures c in Pruned(m, path) && Pruned(m, path)[c] == m[c]
  {
  }

  lemma NotUnder(c: Path, path: Path)
    requires path.Sub? && Under(path.up, c)
    ensures !Under(c, path)
  {
    if Under(c, path) {
      UnderDepth(c, path);
      UnderDepth(path.up, c);
    }
  }

  lemma PrunedStep(charged: Sizes, c: Path, path: Path, delta: int)
    requires c in charged && !Under(c, path)
    ensures
      var before := Pruned(charged, path);
      c in before && Pruned(charged[c := Adjusted(charged[c], delta)], path) == before[c := Adjusted(before[c], delta)]
  {
    PrunedKeeps(charged, c, path);
    PrunedUpdate(charged, c, Adjusted(charged[c], delta), path);
  }

  lemma ChargedStepUp(sizes: Sizes, c: Path, path: Path, delta: int)
    requires c.Sub? && c in sizes && Under(path, c)
    ensures
      var charged := ChargedFrom(sizes, c, path, delta);
      c in charged && ChargedFrom(sizes, c.up, path, delta) == charged[c := Adjusted(charged[c], delta)]
  {
    ChargedFromUp(sizes, c, path, delta);
  }

  /** One step back up a removal: `c` is lowered after everything below it. */
  lemma ReleasedStep(sizes: Sizes, c: Path, path: Path)
    requires path.Sub? && path in sizes && c.Sub? && c in sizes && Under(path.up, c)
    ensures c in Released(sizes, c, path)
    ensures
      var before := Released(sizes, c, path);
      Released(sizes, c.up, path) == before[c := Adjusted(before[c], -(sizes[path] as int))]
  {
    var delta := -(sizes[path] as int);
    NotUnder(c, path);
    ChargedStepUp(sizes, c, path.up, delta);
    PrunedStep(ChargedFrom(sizes, c, path.up, delta), c, path, delta);
  }

  /** `delta` applied to every node on the way to `path` and to the root. */
  function Raised(sizes: Sizes, path: Path, delta: int): Sizes {
    Charged(sizes, path, delta)[Root := Adjusted(SizeAt(sizes, Root), delta)]
  }

  /** `source` hung up at `target` in place of what was there, its size added to every ancestor of
      `target`, the root included and missing ones created. */
  function Attached(sizes: Sizes, target: Path, source: Sizes): Sizes {
    if target.Root? then sizes
    else Pruned(Raised(sizes, target.up, SizeAt(source, Root)), target) + Hung(target, source)
  }

  /** The directory taken out at `oldPath` and, if there was one, hung up at `newPath`. */
  function RenamedDirectory(sizes: Sizes, oldPath: Path, newPath: Path): Sizes {
    if oldPath.Root? || oldPath !in sizes then sizes
    else Attached(Detached(sizes, oldPath), newPath, Subtree(sizes, oldPath))
  }

  lemma RenamedBy(sizes: Sizes, oldPath: Path, newPath: Path, detached: Sizes, sub: Sizes, renamed: Sizes)
    requires oldPath.Sub? && oldPath in sizes
    requires detached == Detached(sizes, oldPath) && sub == Subtree(sizes, oldPath) && renamed == Attached(detached, newPath, sub)
    ensures renamed == RenamedDirectory(sizes, oldPath, newPath)
  {
  }

  lemma NothingRenamed(sizes: Sizes, oldPath: Path, newPath: Path)
    requires oldPath.Root? || oldPath !in sizes
    ensures RenamedDirectory(sizes, oldPath, newPath) == sizes == Detached(sizes, oldPath)
  {
  }

  /** The sizes while a directory is being attached: the walk has reached `at`, whose own size is not yet raised. */
  function Opened(sizes: Sizes, at: Path, delta: int): Sizes {
    if at.Root? then sizes else Raised(sizes, at.up, delta)[at := SizeAt(sizes, at)]
  }

  lemma OpenedStep(sizes: Sizes, c: Path, delta: int, grown: Sizes)
    requires Root in sizes && c.Sub?
    requires
      var before := Opened(sizes, c.up, delta);
      grown == if c in before then before else before[c := 0]
    ensures c.up in grown
    ensures grown[c.up := Adjusted(grown[c.up], delta)] == Opened(sizes, c, delta)
  {
    var at := c.up;
    if at.Sub? {
      var base := Raised(sizes, at.up, delta);
      BaseKeeps(sizes, c, delta);
      assert Raised(sizes, at, delta) == base[at := Adjusted(SizeAt(sizes, at), delta)];
      SameStep(base, at, c, SizeAt(sizes, at), Adjusted(SizeAt(sizes, at), delta));
    }
  }

  lemma BaseKeeps(sizes: Sizes, c: Path, delta: int)
    requires c.Sub? && c.up.Sub?
    ensures
      var base := Raised(sizes, c.up.up, delta);
      (c in base <==> c in sizes) && SizeAt(base, c) == SizeAt(sizes, c)
  {
    UnderRoot(c.up.up);
    ChargedMeaning(sizes, Root, c.up.up, delta);
    NotUnder(c.up.up, c);
  }

  lemma SameStep(base: Sizes, at: Path, c: Path, x: u64, y: u64)
    requires at != c
    ensures (if c in base then base[at := x] else base[at := x][c := 0])[at := y] == base[at := y][c := SizeAt(base, c)]
  {
  }

  lemma OpenedLast(sizes: Sizes, at: Path, delta: int)
    requires Root in sizes
    ensures at in Opened(sizes, at, delta)
    ensures
      var before := Opened(sizes, at, delta);
      before[at := Adjusted(before[at], delta)] == Raised(sizes, at, delta)
  {
  }
}
