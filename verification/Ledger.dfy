/** The plain bookkeeping the tree of sizes is an index of: how many bytes were charged to each
    directory itself, and sums over them. */
module Ledger {
  import opened Usage

  /** The bytes charged to each directory itself, its subdirectories not counted. */
  type Book = map<Path, nat>

  function Own(book: Book, path: Path): nat {
    if path in book then book[path] else 0
  }

  /** Every single byte charged, numbered within its directory. */
  ghost function Bytes(book: Book): set<(Path, nat)> {
    set q, i | q in book && 0 <= i < book[q] :: (q, i)
  }

  ghost function Total(book: Book): nat {
    |Bytes(book)|
  }

  function Within(book: Book, path: Path): Book {
    map q | q in book && Under(q, path) :: book[q]
  }

  /** The bytes charged at or below `path`: what the tree should say. */
  ghost function SumUnder(book: Book, path: Path): nat {
    Total(Within(book, path))
  }

  ghost function BytesOf(q: Path, n: nat): set<(Path, nat)> {
    set i | 0 <= i < n :: (q, i)
  }

  lemma {:induction false} CountBytesOf(q: Path, n: nat)
    ensures |BytesOf(q, n)| == n
  {
    if n > 0 {
      CountBytesOf(q, n - 1);
      assert BytesOf(q, n) == BytesOf(q, n - 1) + {(q, n - 1)};
    }
  }

  lemma TotalWithout(book: Book, q: Path)
    requires q in book
    ensures Total(book) == book[q] + Total(book - {q})
  {
    CountBytesOf(q, book[q]);
    assert Bytes(book) == Bytes(book - {q}) + BytesOf(q, book[q]);
  }

  lemma TotalUpdate(book: Book, q: Path, value: nat)
    ensures Total(book[q := value]) == Total(book) - Own(book, q) + value
  {
    TotalWithout(book[q := value], q);
    assert book[q := value] - {q} == book - {q};
    if q in book {
      TotalWithout(book, q);
    } else {
      assert book - {q} == book;
    }
  }

  lemma TotalCharge(book: Book, q: Path, delta: int)
    requires Own(book, q) + delta >= 0
    ensures Total(book[q := Own(book, q) + delta]) == Total(book) + delta
  {
    var value: nat := Own(book, q) + delta;
    TotalUpdate(book, q, value);
  }

  lemma TotalJoin(a: Book, b: Book)
    requires a.Keys !! b.Keys
    ensures Total(a + b) == Total(a) + Total(b)
  {
    assert Bytes(a + b) == Bytes(a) + Bytes(b);
  }

  lemma SumUnderUpdate(book: Book, q: Path, value: nat, path: Path)
    ensures SumUnder(book[q := value], path) ==
            if Under(q, path) then SumUnder(book, path) - Own(book, q) + value else SumUnder(book, path)
  {
    if Under(q, path) {
      assert Within(book[q := value], path) == Within(book, path)[q := value];
      TotalUpdate(Within(book, path), q, value);
    } else {
      assert Within(book[q := value], path) == Within(book, path);
    }
  }

  /** The total splits into what lies under `path` and the rest. */
  lemma TotalSplit(book: Book, path: Path)
    ensures Total(book) == SumUnder(book, path) + Total(Pruned(book, path))
  {
    assert book == Pruned(book, path) + Within(book, path);
    TotalJoin(Pruned(book, path), Within(book, path));
  }

  lemma OwnWithin(book: Book, q: Path, path: Path)
    requires Under(q, path)
    ensures Own(book, q) <= SumUnder(book, path) <= Total(book)
  {
    TotalSplit(book, path);
    if q in book {
      TotalWithout(Within(book, path), q);
    }
  }

  lemma SumUnderRoot(book: Book)
    ensures SumUnder(book, Root) == Total(book)
  {
    forall q | q in book ensures Under(q, Root) { UnderRoot(q); }
    assert Within(book, Root) == book;
  }

  lemma HungAt(at: Path, sub: Book, s: Path)
    requires s in sub
    ensures Join(at, s) in Hung(at, sub) && Hung(at, sub)[Join(at, s)] == sub[s]
  {
    BelowJoin(at, s);
  }

  lemma HungWithout(at: Path, sub: Book, s: Path)
    requires s in sub
    ensures Hung(at, sub) - {Join(at, s)} == Hung(at, sub - {s})
  {
    var c := Join(at, s);
    BelowJoin(at, s);
    forall q
      ensures q in Hung(at, sub) - {c} <==> q in Hung(at, sub - {s})
    {
      if Under(q, at) && Below(at, q) == s {
        JoinBelow(at, q);
      }
    }
  }

  /** Moving a whole map of charges to another place keeps its total. */
  lemma {:induction false} TotalHung(at: Path, sub: Book)
    ensures Total(Hung(at, sub)) == Total(sub)
  {
    if sub == map[] {
      assert Hung(at, sub) == map[];
    } else {
      var s :| s in sub;
      TotalHung(at, sub - {s});
      TotalWithout(sub, s);
      HungAt(at, sub, s);
      HungWithout(at, sub, s);
      TotalWithout(Hung(at, sub), Join(at, s));
    }
  }

  lemma SumUnderJoin(a: Book, b: Book, path: Path)
    requires a.Keys !! b.Keys
    ensures SumUnder(a + b, path) == SumUnder(a, path) + SumUnder(b, path)
  {
    assert Within(a + b, path) == Within(a, path) + Within(b, path);
    TotalJoin(Within(a, path), Within(b, path));
  }

  lemma WithinHungBelow(at: Path, sub: Book, path: Path)
    requires Under(path, at)
    ensures Within(Hung(at, sub), path) == Hung(at, Within(sub, Below(at, path)))
  {
    forall q
      ensures q in Within(Hung(at, sub), path) <==> q in Hung(at, Within(sub, Below(at, path)))
    {
      if Under(q, path) {
        UnderTransitive(q, path, at);
      }
      if Under(q, at) {
        UnderBelow(at, q, path);
      }
    }
  }

  lemma WithinHungAbove(at: Path, sub: Book, path: Path)
    requires !Under(path, at)
    ensures Within(Hung(at, sub), path) == if Under(at, path) then Hung(at, sub) else map[]
  {
    forall q | Under(q, at)
      ensures Under(q, path) <==> Under(at, path)
    {
      if Under(at, path) {
        UnderTransitive(q, at, path);
      }
      if Under(q, path) {
        Comparable(q, at, path);
      }
    }
  }

  lemma SumUnderHung(at: Path, sub: Book, path: Path)
    ensures SumUnder(Hung(at, sub), path) ==
            if Under(path, at) then SumUnder(sub, Below(at, path)) else if Under(at, path) then Total(sub) else 0
  {
    if Under(path, at) {
      WithinHungBelow(at, sub, path);
      TotalHung(at, Within(sub, Below(at, path)));
    } else {
      WithinHungAbove(at, sub, path);
      TotalHung(at, sub);
      assert Bytes(map[]) == {};
    }
  }

  lemma WithinWithin(book: Book, at: Path, path: Path)
    requires Under(path, at)
    ensures Within(Within(book, at), path) == Within(book, path)
  {
    forall q | Under(q, path)
      ensures Under(q, at)
    {
      UnderTransitive(q, path, at);
    }
  }

  lemma WithinIsHungSubtree(book: Book, at: Path)
    ensures Hung(at, Subtree(book, at)) == Within(book, at)
  {
    forall q | Under(q, at)
      ensures Join(at, Below(at, q)) == q
    {
      JoinBelow(at, q);
    }
  }

  lemma SumUnderSubtree(book: Book, at: Path, rest: Path)
    ensures SumUnder(Subtree(book, at), rest) == SumUnder(book, Join(at, rest))
  {
    BelowJoin(at, rest);
    SumUnderHung(at, Subtree(book, at), Join(at, rest));
    WithinIsHungSubtree(book, at);
    WithinWithin(book, at, Join(at, rest));
  }

  lemma WithinPruned(book: Book, at: Path, path: Path)
    ensures Within(Pruned(book, at), path) == Pruned(Within(book, path), at)
  {
  }

  lemma SumUnderPruned(book: Book, at: Path, path: Path)
    ensures SumUnder(Pruned(book, at), path) ==
            if Under(path, at) then 0 else if Under(at, path) then SumUnder(book, path) - SumUnder(book, at) else SumUnder(book, path)
  {
    WithinPruned(book, at, path);
    if Under(path, at) {
      forall q | Under(q, path)
        ensures Under(q, at)
      {
        UnderTransitive(q, path, at);
      }
      assert Within(Pruned(book, at), path) == map[];
    } else if Under(at, path) {
      TotalSplit(Within(book, path), at);
      WithinWithin(book, path, at);
    } else {
      forall q | Under(q, at)
        ensures !Under(q, path)
      {
        if Under(q, path) {
          Comparable(q, at, path);
        }
      }
      assert Pruned(Within(book, path), at) == Within(book, path);
    }
  }

  /** `moved` booked at and below `at`, in place of what was there. */
  function Rebooked(book: Book, at: Path, moved: Book): Book {
    Pruned(book, at) + Hung(at, moved)
  }

  lemma SumUnderRebooked(book: Book, at: Path, moved: Book, path: Path)
    ensures SumUnder(Rebooked(book, at, moved), path) ==
            if Under(path, at) then SumUnder(moved, Below(at, path))
            else if Under(at, path) then SumUnder(book, path) - SumUnder(book, at) + Total(moved)
            else SumUnder(book, path)
  {
    SumUnderJoin(Pruned(book, at), Hung(at, moved), path);
    SumUnderPruned(book, at, path);
    SumUnderHung(at, moved, path);
  }

  lemma TotalRebooked(book: Book, at: Path, moved: Book)
    ensures Total(Rebooked(book, at, moved)) == Total(book) - SumUnder(book, at) + Total(moved)
  {
    SumUnderRebooked(book, at, moved, Root);
    SumUnderRoot(Rebooked(book, at, moved));
    SumUnderRoot(book);
    UnderRoot(at);
    if at.Root? {
      SumUnderRoot(moved);
    }
  }

  lemma SumUnderAtMost(book: Book, at: Path, path: Path)
    requires Under(path, at)
    ensures SumUnder(book, path) <= SumUnder(book, at) <= Total(book)
  {
    TotalSplit(book, at);
    WithinWithin(book, at, path);
    TotalSplit(Within(book, at), path);
  }

  lemma TotalSubtree(book: Book, at: Path)
    ensures Total(Subtree(book, at)) == SumUnder(book, at)
  {
    SumUnderSubtree(book, at, Root);
    SumUnderRoot(Subtree(book, at));
  }
}
