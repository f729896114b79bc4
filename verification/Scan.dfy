/** The periodic disk scan: it charges every entry of a directory walk to a fresh tree, in whatever
    order the walking threads deliver them. */
module Scan {
  import opened Usage
  import opened Ledger
  import opened Accounting

  /** The bytes of all scanned entries that count for `p`. */
  function ScanSum(entries: seq<Entry>, p: Path): nat {
    if entries == [] then 0
    else ScanSum(entries[..|entries| - 1], p) + Share(entries[|entries| - 1], p)
  }

  /** The entry counts for `p`: it stands below `p`, or it is the directory `p` itself. For the root all do. */
  predicate CountsFor(e: Entry, p: Path) {
    p.Root? || (Under(e.path, p) && (e.isDir || e.path != p))
  }

  function Share(e: Entry, p: Path): nat {
    if CountsFor(e, p) then e.len else 0
  }

  ghost predicate Met(entries: seq<Entry>, p: Path) {
    exists e :: e in entries && CountsFor(e, p)
  }

  /** That is where the scan charges it. */
  lemma CountsWhereCharged(e: Entry, p: Path)
    ensures CountsFor(e, p) <==> Under(ChargedTo(e), p)
  {
    UnderRoot(ChargedTo(e));
    if !e.isDir && e.path.Sub? && Under(e.path.up, p) {
      NotUnder(p, e.path);
    }
  }

  ghost predicate SignedLengths(entries: seq<Entry>) {
    forall e :: e in entries ==> e.len <= I64_MAX
  }

  /** The scan agrees with the naive definition: every node but the root records the saturating sum of all
      files and directories below it and its own entry's bytes, and it exists exactly when there is any. */
  lemma {:induction false} ScanMeaning(entries: seq<Entry>, p: Path)
    requires SignedLengths(entries) && p.Sub?
    ensures SizeAt(ScanSizes(entries), p) == if ScanSum(entries, p) > 0xFFFF_FFFF_FFFF_FFFF then 0xFFFF_FFFF_FFFF_FFFF else ScanSum(entries, p)
    ensures p in ScanSizes(entries) <==> Met(entries, p)
  {
    if entries != [] {
      var init, e := entries[..|entries| - 1], entries[|entries| - 1];
      ScanMeaning(init, p);
      assert AsI64(e.len) == e.len;
      ChargedSizeAt(ScanSizes(init), ChargedTo(e), e.len, p);
      CountsWhereCharged(e, p);
      MetNext(entries, p);
    }
  }

  lemma MetNext(entries: seq<Entry>, p: Path)
    requires entries != []
    ensures Met(entries, p)
       <==> Met(entries[..|entries| - 1], p) || CountsFor(entries[|entries| - 1], p)
  {
    assert entries == entries[..|entries| - 1] + [entries[|entries| - 1]];
  }

  /** The scan never touches the root's own size. */
  lemma {:induction false} ScanRoot(entries: seq<Entry>)
    requires SignedLengths(entries)
    ensures IsTree(ScanSizes(entries)) && SizeAt(ScanSizes(entries), Root) == 0
  {
    if entries != [] {
      var init, e := entries[..|entries| - 1], entries[|entries| - 1];
      ScanRoot(init);
      ChargedIsTree(ScanSizes(init), ChargedTo(e), AsI64(e.len));
      ChargedSizeAt(ScanSizes(init), ChargedTo(e), AsI64(e.len), Root);
    }
  }

  function Without(entries: seq<Entry>, i: nat): seq<Entry>
    requires i < |entries|
  {
    entries[..i] + entries[i + 1..]
  }

  lemma {:induction false} ScanSumWithout(entries: seq<Entry>, i: nat, p: Path)
    requires i < |entries|
    ensures ScanSum(entries, p) == ScanSum(Without(entries, i), p) + Share(entries[i], p)
  {
    var init := entries[..|entries| - 1];
    if i < |init| {
      ScanSumWithout(init, i, p);
      assert Without(entries, i)[..|entries| - 2] == Without(init, i);
    } else {
      assert Without(entries, i) == init;
    }
  }

  lemma MultisetWithout(entries: seq<Entry>, i: nat)
    requires i < |entries|
    ensures multiset(Without(entries, i)) == multiset(entries) - multiset{entries[i]}
  {
    assert entries == entries[..i] + [entries[i]] + entries[i + 1..];
  }

  lemma {:induction false} ScanSumPermuted(a: seq<Entry>, b: seq<Entry>, p: Path)
    requires multiset(a) == multiset(b)
    ensures ScanSum(a, p) == ScanSum(b, p)
    decreases |a|
  {
    if a != [] {
      var e := a[|a| - 1];
      assert e in multiset(b);
      var i :| 0 <= i < |b| && b[i] == e;
      ScanSumWithout(a, |a| - 1, p);
      ScanSumWithout(b, i, p);
      MultisetWithout(a, |a| - 1);
      MultisetWithout(b, i);
      ScanSumPermuted(Without(a, |a| - 1), Without(b, i), p);
    } else {
      assert |multiset(b)| == 0;
    }
  }

  /** The order in which the entries are met does not matter. */
  lemma ScanOrderIndependent(a: seq<Entry>, b: seq<Entry>)
    requires multiset(a) == multiset(b) && SignedLengths(a)
    ensures ScanSizes(a) == ScanSizes(b) && ScanTotal(a) == ScanTotal(b)
  {
    assert forall e :: e in a <==> e in multiset(a);
    assert forall e :: e in b <==> e in multiset(b);
    ScanRoot(a);
    ScanRoot(b);
    forall p
      ensures p in ScanSizes(a) <==> p in ScanSizes(b)
      ensures SizeAt(ScanSizes(a), p) == SizeAt(ScanSizes(b), p)
    {
      if p.Sub? {
        ScanSumPermuted(a, b, p);
        ScanMeaning(a, p);
        ScanMeaning(b, p);
      }
    }
    assert forall p :: p in ScanSizes(a) ==> ScanSizes(a)[p] == SizeAt(ScanSizes(a), p) == ScanSizes(b)[p];
    ScanTotalMeaning(a);
    ScanTotalMeaning(b);
    ScanSumPermuted(a, b, Root);
  }

  /** The cached total a scan leaves is the sum of all entries, in 64 bits. */
  lemma {:induction false} ScanTotalMeaning(entries: seq<Entry>)
    ensures ScanTotal(entries) == ScanSum(entries, Root) % 0x1_0000_0000_0000_0000
  {
    if entries != [] {
      ScanTotalMeaning(entries[..|entries| - 1]);
      Wrapped(ScanSum(entries[..|entries| - 1], Root), entries[|entries| - 1].len);
    }
  }

  lemma Wrapped(a: nat, b: nat)
    ensures AsU64(a % 0x1_0000_0000_0000_0000 + b) == (a + b) % 0x1_0000_0000_0000_0000
  {
  }

  /** The plain book of the scanned entries says the same sums. */
  lemma {:induction false} ScanBookMeaning(entries: seq<Entry>, p: Path)
    ensures SumUnder(ScanBook(entries), p) == ScanSum(entries, p)
  {
    if entries == [] {
      assert Within(map[], p) == map[];
      assert Bytes(map[]) == {};
    } else {
      var init, e := entries[..|entries| - 1], entries[|entries| - 1];
      ScanBookMeaning(init, p);
      SumUnderUpdate(ScanBook(init), ChargedTo(e), Own(ScanBook(init), ChargedTo(e)) + e.len, p);
      CountsWhereCharged(e, p);
    }
  }

  lemma ScanSignedLengths(entries: seq<Entry>)
    requires ScanSum(entries, Root) <= I64_MAX
    ensures SignedLengths(entries)
  {
    forall e | e in entries
      ensures e.len <= I64_MAX
    {
      var i :| 0 <= i < |entries| && entries[i] == e;
      ScanSumWithout(entries, i, Root);
      UnderRoot(ChargedTo(e));
    }
  }

  lemma ScanIsIndexed(entries: seq<Entry>, a: Account)
    requires ScanSum(entries, Root) <= I64_MAX
    requires a.sizes == ScanSizes(entries) && a.cached == ScanTotal(entries)
    ensures Indexed(a, ScanBook(entries))
  {
    ScanSignedLengths(entries);
    ScanRoot(entries);
    ScanTotalMeaning(entries);
    ScanBookMeaning(entries, Root);
    SumUnderRoot(ScanBook(entries));
    forall p: Path | p.Sub?
      ensures SizeAt(a.sizes, p) == SumUnder(ScanBook(entries), p)
    {
      ScannedNode(entries, p);
    }
  }

  lemma ScannedNode(entries: seq<Entry>, p: Path)
    requires p.Sub? && SignedLengths(entries) && SumUnder(ScanBook(entries), Root) <= I64_MAX
    ensures SizeAt(ScanSizes(entries), p) == SumUnder(ScanBook(entries), p)
  {
    ScanMeaning(entries, p);
    ScanBookMeaning(entries, p);
    UnderRoot(p);
    SumUnderAtMost(ScanBook(entries), Root, p);
  }
}
