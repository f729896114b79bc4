/** The queue of logged activities, merged before each batch is sent. */
module Activities {
  import opened Common
  import opened JsonValues

  datatype Event =
    | PowerStart | PowerStop | PowerRestart | PowerKill
    | ConsoleCommand
    | SftpWrite | SftpCreate | SftpCreateDirectory | SftpRename | SftpDelete
    | FileUploaded | FileCompress | FileDecompress | FileCreateDirectory | FileWrite
    | FileCopy | FileDelete | FileRename | FilePull

  type User = string

  /** The timestamp counts nanoseconds. */
  datatype Activity = Activity(
    user: Option<User>, event: Event, metadata: Option<Json>, ip: Option<string>, timestamp: int)

  /** What activities are merged by. */
  datatype Key = Sftp(event: Event, user: Option<User>) | Upload(user: Option<User>, directory: string)

  /** The first activity of a group, and where in the queue its members stand. */
  datatype Group = Group(base: Activity, indices: seq<nat>)

  predicate IsSftpEvent(e: Event) {
    e.SftpWrite? || e.SftpCreate? || e.SftpCreateDirectory? || e.SftpRename? || e.SftpDelete?
  }

  function Field(a: Activity, name: string): Option<Json> {
    if a.metadata.Some? then Member(a.metadata.value, name) else None
  }

  function KeyOf(a: Activity): Option<Key> {
    var directory := Field(a, "directory");
    if Field(a, "files").None? then None
    else if IsSftpEvent(a.event) then Some(Sftp(a.event, a.user))
    else if a.event.FileUploaded? && directory.Some? && directory.value.Str? then
      Some(Upload(a.user, directory.value.s))
    else None
  }

  const MINUTE: nat := 60

  /** At most a minute apart, counted in whole seconds. */
  predicate Near(a: Activity, b: Activity) {
    var d := a.timestamp - b.timestamp;
    (if d < 0 then -d else d) / 1_000_000_000 <= MINUTE
  }

  /** Less than 61 seconds apart: the minute as it counts for merging, in nanoseconds. */
  predicate WithinMinute(a: Activity, b: Activity) {
    -61_000_000_000 < a.timestamp - b.timestamp < 61_000_000_000
  }

  lemma NearIsWithinMinute(a: Activity, b: Activity)
    ensures Near(a, b) <==> WithinMinute(a, b)
  {
  }

  predicate ListsFiles(a: Activity) {
    var files := Field(a, "files");
    files.Some? && files.value.Array?
  }

  function ListedFiles(a: Activity): seq<Json> {
    if ListsFiles(a) then Field(a, "files").value.items else []
  }

  function WithFiles(a: Activity, files: seq<Json>): Activity {
    if Field(a, "files").Some? then
      a.(metadata := Some(Object(a.metadata.value.members["files" := Array(files)])))
    else a
  }

  // ----- merging, as a function of the queue

  /** The group of a key after the first `n` activities; an activity too far from the group's first
      one starts the group anew. */
  function GroupUpTo(q: seq<Activity>, n: nat, key: Key): (g: Option<Group>)
    requires n <= |q|
    ensures g.Some? ==> forall k :: 0 <= k < |g.value.indices| ==> g.value.indices[k] < n
  {
    if n == 0 then None
    else
      var earlier := GroupUpTo(q, n - 1, key);
      var a := q[n - 1];
      if KeyOf(a) != Some(key) then earlier
      else if earlier.Some? && Near(a, earlier.value.base) then
        Some(earlier.value.(indices := earlier.value.indices + [n - 1]))
      else Some(Group(a, [n - 1]))
  }

  predicate Has(q: seq<Activity>, i: nat, key: Key)
    requires i < |q|
  {
    KeyOf(q[i]) == Some(key)
  }

  predicate IsKey(q: seq<Activity>, key: Key) {
    exists i :: 0 <= i < |q| && Has(q, i, key)
  }

  /** A group holds every activity of its key from its first one on, all near that one. */
  ghost predicate GroupSound(q: seq<Activity>, n: nat, key: Key, g: Group)
    requires n <= |q|
  {
    && g.indices != []
    && (forall k :: 0 <= k < |g.indices| ==> g.indices[0] <= g.indices[k] < n)
    && g.base == q[g.indices[0]]
    && (forall i :: g.indices[0] <= i < n ==> (i in g.indices <==> Has(q, i, key)))
    && (forall i :: i in g.indices ==> WithinMinute(q[i], g.base))
  }

  lemma {:induction false} GroupMeaning(q: seq<Activity>, n: nat, key: Key)
    requires n <= |q|
    ensures var g := GroupUpTo(q, n, key);
            && (g.Some? <==> exists i :: 0 <= i < n && Has(q, i, key))
            && (g.Some? ==> GroupSound(q, n, key, g.value))
  {
    if n > 0 {
      GroupMeaning(q, n - 1, key);
      var earlier := GroupUpTo(q, n - 1, key);
      if !Has(q, n - 1, key) {
        if earlier.Some? {
          GroupStays(q, n, key, earlier.value);
        }
      } else if earlier.Some? && Near(q[n - 1], earlier.value.base) {
        NearIsWithinMinute(q[n - 1], earlier.value.base);
        GroupGrows(q, n, key, earlier.value);
      } else {
        GroupStarts(q, n, key);
      }
    }
  }

  lemma GroupStays(q: seq<Activity>, n: nat, key: Key, g: Group)
    requires 0 < n <= |q| && GroupSound(q, n - 1, key, g) && !Has(q, n - 1, key)
    ensures GroupSound(q, n, key, g)
  {
  }

  lemma GroupStarts(q: seq<Activity>, n: nat, key: Key)
    requires 0 < n <= |q| && Has(q, n - 1, key)
    ensures GroupSound(q, n, key, Group(q[n - 1], [n - 1]))
  {
    NearIsWithinMinute(q[n - 1], q[n - 1]);
  }

  lemma GroupGrows(q: seq<Activity>, n: nat, key: Key, g: Group)
    requires 0 < n <= |q| && GroupSound(q, n - 1, key, g)
    requires Has(q, n - 1, key) && WithinMinute(q[n - 1], g.base)
    ensures GroupSound(q, n, key, g.(indices := g.indices + [n - 1]))
  {
    var indices := g.indices + [n - 1];
    assert indices[0] == g.indices[0];
    assert forall i :: i in indices <==> i in g.indices || i == n - 1;
  }

  function GroupOf(q: seq<Activity>, key: Key): (g: Group)
    requires IsKey(q, key)
    ensures Indexes(q, g.indices) && g.indices != []
  {
    GroupMeaning(q, |q|, key);
    GroupUpTo(q, |q|, key).value
  }

  predicate Indexes(q: seq<Activity>, indices: seq<nat>) {
    forall k :: 0 <= k < |indices| ==> indices[k] < |q|
  }

  function AllFiles(q: seq<Activity>, indices: seq<nat>): seq<Json>
    requires Indexes(q, indices)
  {
    if indices == [] then []
    else AllFiles(q, indices[..|indices| - 1]) + ListedFiles(q[indices[|indices| - 1]])
  }

  function Merged(q: seq<Activity>, g: Group): Activity
    requires Indexes(q, g.indices)
  {
    if |g.indices| > 1 then WithFiles(g.base, AllFiles(q, g.indices)) else g.base
  }

  function Ungrouped(q: seq<Activity>): seq<Activity> {
    if q == [] then []
    else
      var last := q[|q| - 1];
      Ungrouped(q[..|q| - 1]) + (if KeyOf(last).None? then [last] else [])
  }

  predicate Distinct(order: seq<Key>) {
    forall i, j :: 0 <= i < j < |order| ==> order[i] != order[j]
  }

  predicate UploadsLast(order: seq<Key>) {
    forall i, j :: 0 <= i < j < |order| && order[i].Upload? ==> order[j].Upload?
  }

  /** The keys of a queue, each once, the sftp ones first. */
  ghost predicate Enumerates(q: seq<Activity>, order: seq<Key>) {
    && Grouped(q, order)
    && (forall k :: IsKey(q, k) ==> k in order)
    && Distinct(order)
    && UploadsLast(order)
  }

  function MergedGroup(q: seq<Activity>, key: Key): Activity
    requires IsKey(q, key)
  {
    Merged(q, GroupOf(q, key))
  }

  predicate Grouped(q: seq<Activity>, order: seq<Key>) {
    forall i :: 0 <= i < |order| ==> IsKey(q, order[i])
  }

  function MergedGroups(q: seq<Activity>, order: seq<Key>): seq<Activity>
    requires Grouped(q, order)
  {
    seq(|order|, i requires 0 <= i < |order| => MergedGroup(q, order[i]))
  }

  /** What merging makes of a queue: the activities without a key, then one for each key. */
  ghost predicate IsMerge(q: seq<Activity>, m: seq<Activity>) {
    exists order ::
      Enumerates(q, order) && m == Ungrouped(q) + MergedGroups(q, order)
  }

  // ----- the files an activity reports

  /** A listed file, or a files field that is no list. */
  datatype File = Listed(file: Json) | Bare(value: Json)

  function Listings(files: seq<Json>): seq<File> {
    seq(|files|, i requires 0 <= i < |files| => Listed(files[i]))
  }

  function Carried(a: Activity): multiset<File> {
    if ListsFiles(a) then multiset(Listings(ListedFiles(a)))
    else if Field(a, "files").Some? then multiset{Bare(Field(a, "files").value)}
    else multiset{}
  }

  function CarriedUnder(a: Activity, key: Key): multiset<File> {
    if KeyOf(a) == Some(key) then Carried(a) else multiset{}
  }

  /** The files reported under a key: by one user in one kind of event, or into one directory. */
  function FilesUnder(q: seq<Activity>, key: Key): multiset<File> {
    if q == [] then multiset{}
    else
      var last := q[|q| - 1];
      FilesUnder(q[..|q| - 1], key) + CarriedUnder(last, key)
  }

  lemma {:induction false} FilesUnderAppend(p: seq<Activity>, q: seq<Activity>, key: Key)
    ensures FilesUnder(p + q, key) == FilesUnder(p, key) + FilesUnder(q, key)
  {
    if q == [] {
      assert p + q == p;
    } else {
      var n := |q| - 1;
      FilesUnderAppend(p, q[..n], key);
      assert (p + q)[..|p + q| - 1] == p + q[..n] && (p + q)[|p + q| - 1] == q[n];
    }
  }

  lemma FilesUnderMore(q: seq<Activity>, a: Activity, key: Key)
    ensures FilesUnder(q + [a], key) == FilesUnder(q, key) + CarriedUnder(a, key)
  {
    assert (q + [a])[..|q|] == q;
  }

  lemma FilesUnderOne(a: Activity, key: Key)
    ensures FilesUnder([a], key) == CarriedUnder(a, key)
  {
    assert [a][..0] == [];
  }

  lemma FilesUnderNext(q: seq<Activity>, n: nat, key: Key)
    requires n < |q|
    ensures FilesUnder(q[..n + 1], key) == FilesUnder(q[..n], key) + CarriedUnder(q[n], key)
  {
    assert q[..n + 1] == q[..n] + [q[n]];
    FilesUnderMore(q[..n], q[n], key);
  }

  lemma {:induction false} UngroupedAppend(p: seq<Activity>, q: seq<Activity>)
    ensures Ungrouped(p + q) == Ungrouped(p) + Ungrouped(q)
  {
    if q == [] {
      assert p + q == p;
    } else {
      UngroupedAppend(p, q[..|q| - 1]);
      assert (p + q)[..|p + q| - 1] == p + q[..|q| - 1];
    }
  }

  lemma {:induction false} UngroupedHasNoKeys(q: seq<Activity>)
    ensures forall i :: 0 <= i < |Ungrouped(q)| ==> KeyOf(Ungrouped(q)[i]).None?
  {
    if q != [] {
      UngroupedHasNoKeys(q[..|q| - 1]);
    }
  }

  lemma {:induction false} NoKeys(q: seq<Activity>, key: Key)
    requires forall i :: 0 <= i < |q| ==> KeyOf(q[i]).None?
    ensures FilesUnder(q, key) == multiset{} && Ungrouped(q) == q
  {
    if q != [] {
      NoKeys(q[..|q| - 1], key);
      assert q == q[..|q| - 1] + [q[|q| - 1]];
    }
  }

  function CarriedBy(q: seq<Activity>, indices: seq<nat>): multiset<File>
    requires Indexes(q, indices)
  {
    if indices == [] then multiset{}
    else CarriedBy(q, indices[..|indices| - 1]) + Carried(q[indices[|indices| - 1]])
  }

  predicate AllListed(q: seq<Activity>, indices: seq<nat>)
    requires Indexes(q, indices)
  {
    forall k :: 0 <= k < |indices| ==> ListsFiles(q[indices[k]])
  }

  lemma CarriedByMore(q: seq<Activity>, indices: seq<nat>, i: nat)
    requires Indexes(q, indices) && i < |q|
    ensures CarriedBy(q, indices + [i]) == CarriedBy(q, indices) + Carried(q[i])
  {
    assert (indices + [i])[..|indices|] == indices;
  }

  lemma ListingsAppend(files: seq<Json>, more: seq<Json>)
    ensures multiset(Listings(files + more)) == multiset(Listings(files)) + multiset(Listings(more))
  {
    assert Listings(files + more) == Listings(files) + Listings(more);
  }

  lemma ListedIsCarried(a: Activity)
    requires Field(a, "files").Some?
    ensures multiset(Listings(ListedFiles(a))) <= Carried(a)
    ensures multiset(Listings(ListedFiles(a))) == Carried(a) <==> ListsFiles(a)
  {
    if !ListsFiles(a) {
      assert Carried(a)[Bare(Field(a, "files").value)] == 1;
    }
  }

  /** The concatenated lists carry the group's files, exactly when each of its activities lists them. */
  lemma {:induction false} AllFilesCarry(q: seq<Activity>, indices: seq<nat>)
    requires Indexes(q, indices) && forall k :: 0 <= k < |indices| ==> Field(q[indices[k]], "files").Some?
    ensures multiset(Listings(AllFiles(q, indices))) <= CarriedBy(q, indices)
    ensures multiset(Listings(AllFiles(q, indices))) == CarriedBy(q, indices) <==> AllListed(q, indices)
  {
    if indices != [] {
      var n := |indices| - 1;
      var init, a := indices[..n], q[indices[n]];
      AllFilesCarry(q, init);
      ListedIsCarried(a);
      ListingsAppend(AllFiles(q, init), ListedFiles(a));
      Smaller(multiset(Listings(AllFiles(q, init))), CarriedBy(q, init), multiset(Listings(ListedFiles(a))), Carried(a));
      AllListedMore(q, indices);
    }
  }

  lemma AllListedMore(q: seq<Activity>, indices: seq<nat>)
    requires Indexes(q, indices) && indices != []
    ensures AllListed(q, indices)
       <==> AllListed(q, indices[..|indices| - 1]) && ListsFiles(q[indices[|indices| - 1]])
  {
    var n := |indices| - 1;
    forall k | 0 <= k < |indices| ensures indices[k] == if k < n then indices[..n][k] else indices[n] {}
    if AllListed(q, indices) {
      forall k | 0 <= k < n ensures ListsFiles(q[indices[..n][k]]) { assert ListsFiles(q[indices[k]]); }
    }
  }

  /** Sums of multisets included one in another are equal exactly when the parts are. */
  lemma Smaller<T>(a: multiset<T>, a': multiset<T>, b: multiset<T>, b': multiset<T>)
    requires a <= a' && b <= b'
    ensures a + b <= a' + b'
    ensures a + b == a' + b' <==> a == a' && b == b'
  {
    if a + b == a' + b' {
      assert forall x :: a[x] <= a'[x] && b[x] <= b'[x] && (a + b)[x] == (a' + b')[x];
    }
  }

  /** The files under a key are those before its group, and those of the group. */
  lemma {:induction false} GroupFiles(q: seq<Activity>, n: nat, key: Key)
    requires n <= |q| && GroupUpTo(q, n, key).Some?
    ensures var g := GroupUpTo(q, n, key).value;
            && g.indices != [] && g.indices[0] < n
            && FilesUnder(q[..n], key) == FilesUnder(q[..g.indices[0]], key) + CarriedBy(q, g.indices)
  {
    FilesUnderNext(q, n - 1, key);
    if !Has(q, n - 1, key) {
      GroupFiles(q, n - 1, key);
    } else {
      var earlier := GroupUpTo(q, n - 1, key);
      if earlier.Some? && Near(q[n - 1], earlier.value.base) {
        GroupFiles(q, n - 1, key);
        var indices := earlier.value.indices;
        CarriedByMore(q, indices, n - 1);
        Regroup(FilesUnder(q[..indices[0]], key), CarriedBy(q, indices), Carried(q[n - 1]));
      } else {
        CarriedByMore(q, [], n - 1);
      }
    }
  }

  lemma Regroup<T>(a: multiset<T>, b: multiset<T>, c: multiset<T>)
    ensures a + b + c == a + (b + c)
  {}

  // ----- what merging keeps

  lemma WithFilesMeaning(a: Activity, files: seq<Json>)
    requires Field(a, "files").Some?
    ensures KeyOf(WithFiles(a, files)) == KeyOf(a)
    ensures Carried(WithFiles(a, files)) == multiset(Listings(files))
  {
    assert Field(WithFiles(a, files), "directory") == Field(a, "directory");
  }

  /** The files a group reports: all of them while it has one member, the listed ones otherwise. */
  function Reported(q: seq<Activity>, g: Group): multiset<File>
    requires Indexes(q, g.indices)
  {
    if |g.indices| > 1 then multiset(Listings(AllFiles(q, g.indices))) else CarriedBy(q, g.indices)
  }

  lemma MergedMeaning(q: seq<Activity>, key: Key)
    requires IsKey(q, key)
    ensures KeyOf(MergedGroup(q, key)) == Some(key)
    ensures Carried(MergedGroup(q, key)) == Reported(q, GroupOf(q, key))
  {
    GroupMeaning(q, |q|, key);
    var g := GroupOf(q, key);
    assert g.indices[0] in g.indices && Has(q, g.indices[0], key);
    if |g.indices| > 1 {
      WithFilesMeaning(g.base, AllFiles(q, g.indices));
    } else {
      CarriedByMore(q, [], g.indices[0]);
      assert g.indices == [] + [g.indices[0]];
    }
  }

  lemma {:induction false} MergedGroupsFiles(q: seq<Activity>, order: seq<Key>, key: Key)
    requires Grouped(q, order)
    requires Distinct(order)
    ensures FilesUnder(MergedGroups(q, order), key)
         == if key in order then Reported(q, GroupOf(q, key)) else multiset{}
  {
    if order != [] {
      MergedGroupsFiles(q, order[..|order| - 1], key);
      LastGroupFiles(q, order, key);
      LastOf(order, key);
    }
  }

  lemma LastGroupFiles(q: seq<Activity>, order: seq<Key>, key: Key)
    requires Grouped(q, order) && order != []
    ensures FilesUnder(MergedGroups(q, order), key)
         == FilesUnder(MergedGroups(q, order[..|order| - 1]), key)
            + CarriedUnder(MergedGroup(q, order[|order| - 1]), key)
    ensures CarriedUnder(MergedGroup(q, order[|order| - 1]), key)
         == if key == order[|order| - 1] then Reported(q, GroupOf(q, key)) else multiset{}
  {
    MergedMeaning(q, order[|order| - 1]);
    MergedGroupsSplit(q, order);
    FilesUnderMore(MergedGroups(q, order[..|order| - 1]), MergedGroup(q, order[|order| - 1]), key);
  }

  lemma MergedGroupsSplit(q: seq<Activity>, order: seq<Key>)
    requires Grouped(q, order) && order != []
    ensures MergedGroups(q, order)
         == MergedGroups(q, order[..|order| - 1]) + [MergedGroup(q, order[|order| - 1])]
  {}

  lemma LastOf(order: seq<Key>, key: Key)
    requires order != []
    ensures key in order <==> key in order[..|order| - 1] || key == order[|order| - 1]
  {
    assert order == order[..|order| - 1] + [order[|order| - 1]];
  }

  lemma {:induction false} AllKeyed(q: seq<Activity>)
    requires forall i :: 0 <= i < |q| ==> KeyOf(q[i]).Some?
    ensures Ungrouped(q) == []
  {
    if q != [] {
      AllKeyed(q[..|q| - 1]);
    }
  }

  lemma MergedGroupsKeys(q: seq<Activity>, order: seq<Key>)
    requires Grouped(q, order)
    ensures forall i :: 0 <= i < |order| ==> KeyOf(MergedGroups(q, order)[i]) == Some(order[i])
  {
    forall i | 0 <= i < |order| ensures KeyOf(MergedGroups(q, order)[i]) == Some(order[i]) {
      MergedMeaning(q, order[i]);
    }
  }

  /** Merging keeps the activities without a key as they were, in order. */
  lemma MergeKeepsUngrouped(q: seq<Activity>, m: seq<Activity>)
    requires IsMerge(q, m)
    ensures Ungrouped(m) == Ungrouped(q)
    ensures Ungrouped(q) <= m
  {
    var order :| Enumerates(q, order) && m == Ungrouped(q) + MergedGroups(q, order);
    var groups := MergedGroups(q, order);
    MergedGroupsKeys(q, order);
    AllKeyed(groups);
    UngroupedHasNoKeys(q);
    NoKeys(Ungrouped(q), Upload(None, ""));
    UngroupedAppend(Ungrouped(q), groups);
  }

  /** After a merge each key of the queue stands at exactly one activity. */
  lemma MergeListsKeysOnce(q: seq<Activity>, m: seq<Activity>, key: Key)
    requires IsMerge(q, m)
    ensures IsKey(m, key) <==> IsKey(q, key)
    ensures forall i, j :: 0 <= i < j < |m| && Has(m, i, key) ==> !Has(m, j, key)
  {
    var order :| Enumerates(q, order) && m == Ungrouped(q) + MergedGroups(q, order);
    MergedKeys(q, order, m);
    KeysInOrder(m, |Ungrouped(q)|, order, key);
    Enumerated(q, order, key);
  }

  lemma Enumerated(q: seq<Activity>, order: seq<Key>, key: Key)
    requires Enumerates(q, order)
    ensures key in order <==> IsKey(q, key)
  {}

  /** The first `n` activities have no key, the others those of `order`. */
  predicate KeysFrom(m: seq<Activity>, n: nat, order: seq<Key>) {
    && |m| == n + |order|
    && forall i :: 0 <= i < |m| ==> KeyOf(m[i]) == if i < n then None else Some(order[i - n])
  }

  lemma KeysInOrder(m: seq<Activity>, n: nat, order: seq<Key>, key: Key)
    requires Distinct(order) && KeysFrom(m, n, order)
    ensures IsKey(m, key) <==> key in order
    ensures forall i, j :: 0 <= i < j < |m| && Has(m, i, key) ==> !Has(m, j, key)
  {
    if key in order {
      var i :| 0 <= i < |order| && order[i] == key;
      assert Has(m, n + i, key);
    }
    if IsKey(m, key) {
      var i :| 0 <= i < |m| && Has(m, i, key);
      assert order[i - n] == key;
    }
  }

  lemma MergedKeys(q: seq<Activity>, order: seq<Key>, m: seq<Activity>)
    requires Grouped(q, order) && m == Ungrouped(q) + MergedGroups(q, order)
    ensures KeysFrom(m, |Ungrouped(q)|, order)
  {
    UngroupedHasNoKeys(q);
    MergedGroupsKeys(q, order);
  }

  /** The files a merge reports under a key: those of the key's last group. */
  lemma MergeFiles(q: seq<Activity>, m: seq<Activity>, key: Key)
    requires IsMerge(q, m)
    ensures FilesUnder(m, key) == if IsKey(q, key) then Reported(q, GroupOf(q, key)) else multiset{}
  {
    var order :| Enumerates(q, order) && m == Ungrouped(q) + MergedGroups(q, order);
    FilesUnderAppend(Ungrouped(q), MergedGroups(q, order), key);
    UngroupedHasNoKeys(q);
    NoKeys(Ungrouped(q), key);
    MergedGroupsFiles(q, order, key);
  }

  /** Each of the first `n` activities with the key lists no file. */
  predicate NothingBefore(q: seq<Activity>, n: nat, key: Key)
    requires n <= |q|
  {
    forall i :: 0 <= i < n && Has(q, i, key) ==> ListsNothing(q[i])
  }

  predicate ListsNothing(a: Activity) {
    ListsFiles(a) && ListedFiles(a) == []
  }

  lemma {:induction false} NothingUnder(q: seq<Activity>, n: nat, key: Key)
    requires n <= |q|
    ensures FilesUnder(q[..n], key) == multiset{} <==> NothingBefore(q, n, key)
  {
    if n > 0 {
      NothingUnder(q, n - 1, key);
      FilesUnderNext(q, n - 1, key);
      Empty(FilesUnder(q[..n - 1], key), CarriedUnder(q[n - 1], key));
      if Has(q, n - 1, key) {
        CarriesNothing(q[n - 1]);
      }
      NothingBeforeNext(q, n - 1, key);
    }
  }

  lemma NothingBeforeNext(q: seq<Activity>, n: nat, key: Key)
    requires n < |q|
    ensures NothingBefore(q, n + 1, key)
       <==> NothingBefore(q, n, key) && (Has(q, n, key) ==> ListsNothing(q[n]))
  {}

  lemma Empty<T>(a: multiset<T>, b: multiset<T>)
    ensures a + b == multiset{} <==> a == multiset{} && b == multiset{}
  {
    assert |a + b| == |a| + |b|;
  }

  lemma CarriesNothing(a: Activity)
    requires Field(a, "files").Some?
    ensures Carried(a) == multiset{} <==> ListsNothing(a)
  {
    assert |Carried(a)| == if ListsFiles(a) then |ListedFiles(a)| else 1;
  }

  /** Nothing the queue reports under the key is lost: every activity before its last group lists no
      file, and one merged with others lists its files. */
  ghost predicate Mergeable(q: seq<Activity>, key: Key) {
    IsKey(q, key) ==>
      var indices := GroupOf(q, key).indices;
      && NothingBefore(q, indices[0], key)
      && (|indices| > 1 ==> AllListed(q, indices))
  }

  /** Merging invents no file, and keeps each file under a key exactly when the key is mergeable. */
  lemma MergeKeepsFilesIff(q: seq<Activity>, m: seq<Activity>, key: Key)
    requires IsMerge(q, m)
    ensures FilesUnder(m, key) <= FilesUnder(q, key)
    ensures FilesUnder(m, key) == FilesUnder(q, key) <==> Mergeable(q, key)
  {
    MergeFiles(q, m, key);
    assert q[..|q|] == q;
    if IsKey(q, key) {
      var g := GroupOf(q, key);
      GroupMeaning(q, |q|, key);
      GroupFiles(q, |q|, key);
      NothingUnder(q, g.indices[0], key);
      ReportedIsCarried(q, key);
      Smaller(multiset{}, FilesUnder(q[..g.indices[0]], key), Reported(q, g), CarriedBy(q, g.indices));
      assert multiset{} + Reported(q, g) == Reported(q, g);
    } else {
      NothingUnder(q, |q|, key);
    }
  }

  lemma ReportedIsCarried(q: seq<Activity>, key: Key)
    requires IsKey(q, key)
    ensures var g := GroupOf(q, key);
            && Reported(q, g) <= CarriedBy(q, g.indices)
            && (Reported(q, g) == CarriedBy(q, g.indices) <==> |g.indices| <= 1 || AllListed(q, g.indices))
  {
    GroupMeaning(q, |q|, key);
    var g := GroupOf(q, key);
    forall k | 0 <= k < |g.indices| ensures Field(q[g.indices[k]], "files").Some? {
      assert g.indices[k] in g.indices;
      assert Has(q, g.indices[k], key);
    }
    AllFilesCarry(q, g.indices);
  }

  // ----- keys, and what a merged activity keeps, in plain terms

  predicate IsObjectWith(a: Activity, name: string) {
    a.metadata.Some? && a.metadata.value.Object? && name in a.metadata.value.members
  }

  /** Which activities are merged with which: those of one sftp event and user, and uploads of one user into
      one directory, as far as they have a files field. */
  lemma KeyMeaning(a: Activity, key: Key)
    ensures KeyOf(a) == Some(key) <==>
            && IsObjectWith(a, "files")
            && match key
               case Sftp(event, user) =>
                 && a.event == event && a.user == user
                 && event in {SftpWrite, SftpCreate, SftpCreateDirectory, SftpRename, SftpDelete}
               case Upload(user, directory) =>
                 && a.event == FileUploaded && a.user == user
                 && IsObjectWith(a, "directory") && a.metadata.value.members["directory"] == Str(directory)
  {
  }

  /** A group of several keeps everything of its first activity but the files; one alone is kept whole. */
  lemma MergedKeepsFirst(q: seq<Activity>, key: Key)
    requires IsKey(q, key)
    ensures
      var g, m := GroupOf(q, key), MergedGroup(q, key);
      var first := q[g.indices[0]];
      && m.(metadata := first.metadata) == first
      && (|g.indices| == 1 ==> m == first)
      && IsObjectWith(m, "files") && IsObjectWith(first, "files")
      && m.metadata.value.members.Keys == first.metadata.value.members.Keys
      && forall name :: name in first.metadata.value.members && name != "files" ==>
                          m.metadata.value.members[name] == first.metadata.value.members[name]
  {
    GroupMeaning(q, |q|, key);
    var g := GroupOf(q, key);
    assert g.indices[0] in g.indices && Has(q, g.indices[0], key);
    KeyMeaning(g.base, key);
  }

  /** All files the activities of a key list, in the order of the queue. */
  function ListsUnder(q: seq<Activity>, key: Key): seq<Json> {
    if q == [] then []
    else ListsUnder(q[..|q| - 1], key) + if Has(q, |q| - 1, key) then ListedFiles(q[|q| - 1]) else []
  }

  lemma ListsUnderNext(q: seq<Activity>, n: nat, key: Key)
    requires n < |q|
    ensures ListsUnder(q[..n + 1], key) == ListsUnder(q[..n], key) + if Has(q, n, key) then ListedFiles(q[n]) else []
  {
    assert q[..n + 1][..n] == q[..n];
  }

  lemma AllFilesMore(q: seq<Activity>, indices: seq<nat>, i: nat)
    requires Indexes(q, indices) && i < |q|
    ensures AllFiles(q, indices + [i]) == AllFiles(q, indices) + ListedFiles(q[i])
  {
    assert (indices + [i])[..|indices|] == indices;
  }

  lemma {:induction false} GroupLists(q: seq<Activity>, n: nat, key: Key)
    requires n <= |q| && GroupUpTo(q, n, key).Some?
    ensures
      var g := GroupUpTo(q, n, key).value;
      && g.indices != [] && g.indices[0] < n
      && ListsUnder(q[..n], key) == ListsUnder(q[..g.indices[0]], key) + AllFiles(q, g.indices)
  {
    ListsUnderNext(q, n - 1, key);
    if !Has(q, n - 1, key) {
      GroupLists(q, n - 1, key);
    } else {
      var earlier := GroupUpTo(q, n - 1, key);
      if earlier.Some? && Near(q[n - 1], earlier.value.base) {
        GroupLists(q, n - 1, key);
        GrownGroupLists(q, n - 1, earlier.value.indices, key);
      } else {
        NewGroupLists(q, n - 1, key);
      }
    }
  }

  lemma GrownGroupLists(q: seq<Activity>, i: nat, indices: seq<nat>, key: Key)
    requires i < |q| && Has(q, i, key) && Indexes(q, indices) && indices != []
    requires ListsUnder(q[..i], key) == ListsUnder(q[..indices[0]], key) + AllFiles(q, indices)
    ensures ListsUnder(q[..i + 1], key) == ListsUnder(q[..indices[0]], key) + AllFiles(q, indices + [i])
  {
    ListsUnderNext(q, i, key);
    AllFilesMore(q, indices, i);
    Regrouped(ListsUnder(q[..indices[0]], key), AllFiles(q, indices), ListedFiles(q[i]));
  }

  lemma NewGroupLists(q: seq<Activity>, i: nat, key: Key)
    requires i < |q| && Has(q, i, key)
    ensures ListsUnder(q[..i + 1], key) == ListsUnder(q[..i], key) + AllFiles(q, [i])
  {
    ListsUnderNext(q, i, key);
    FilesOfOne(q, i);
  }

  lemma FilesOfOne(q: seq<Activity>, i: nat)
    requires i < |q|
    ensures AllFiles(q, [i]) == ListedFiles(q[i])
  {
    AllFilesMore(q, [], i);
    assert [] + [i] == [i];
  }

  lemma WithFilesLists(a: Activity, files: seq<Json>)
    requires Field(a, "files").Some?
    ensures ListedFiles(WithFiles(a, files)) == files
  {
  }

  lemma MergedLists(q: seq<Activity>, key: Key)
    requires IsKey(q, key) && |GroupOf(q, key).indices| > 1
    ensures ListedFiles(MergedGroup(q, key)) == AllFiles(q, GroupOf(q, key).indices)
  {
    MergedKeepsFirst(q, key);
    var g := GroupOf(q, key);
    GroupMeaning(q, |q|, key);
    WithFilesLists(g.base, AllFiles(q, g.indices));
  }

  /** A merged activity lists its group's files in the order they were logged: all that the key's activities
      list, after those that stand before the group. */
  lemma MergedListsInOrder(q: seq<Activity>, key: Key)
    requires IsKey(q, key) && |GroupOf(q, key).indices| > 1
    ensures
      ListsUnder(q, key)
      == ListsUnder(q[..GroupOf(q, key).indices[0]], key) + ListedFiles(MergedGroup(q, key))
  {
    MergedLists(q, key);
    GroupMeaning(q, |q|, key);
    WholeGroupLists(q, GroupOf(q, key), key);
  }

  lemma WholeGroupLists(q: seq<Activity>, g: Group, key: Key)
    requires GroupUpTo(q, |q|, key) == Some(g)
    requires Indexes(q, g.indices) && g.indices != []
    ensures ListsUnder(q, key) == ListsUnder(q[..g.indices[0]], key) + AllFiles(q, g.indices)
  {
    GroupLists(q, |q|, key);
    assert q[..|q|] == q;
  }

  // ----- keys whose activities all stand near the first

  predicate IsFirst(q: seq<Activity>, f: nat, key: Key) {
    f < |q| && Has(q, f, key) && forall i :: 0 <= i < f ==> !Has(q, i, key)
  }

  predicate AllNear(q: seq<Activity>, n: nat, key: Key, a: Activity)
    requires n <= |q|
  {
    forall i :: 0 <= i < n && Has(q, i, key) ==> WithinMinute(q[i], a)
  }

  lemma {:induction false} GroupStartsFirst(q: seq<Activity>, n: nat, f: nat, key: Key)
    requires IsFirst(q, f, key) && f < n <= |q|
    ensures var g := GroupUpTo(q, n, key);
            && g.Some? && g.value.indices != [] && g.value.base == q[g.value.indices[0]]
            && (g.value.indices[0] == f <==> AllNear(q, n, key, q[f]))
            && f <= g.value.indices[0] < n && Has(q, g.value.indices[0], key)
  {
    if n - 1 > f {
      GroupStartsFirst(q, n - 1, f, key);
    } else {
      GroupMeaning(q, f, key);
    }
    NearIsWithinMinute(q[n - 1], q[f]);
    assert AllNear(q, n, key, q[f])
      <==> AllNear(q, n - 1, key, q[f]) && (Has(q, n - 1, key) ==> WithinMinute(q[n - 1], q[f]));
  }

  /** Where each activity of a key lists some file, merging keeps the key's files exactly when all of
      them stand within a minute of the key's first activity. */
  lemma SteadyKeysAreKept(q: seq<Activity>, m: seq<Activity>, f: nat, key: Key)
    requires IsMerge(q, m) && IsFirst(q, f, key)
    requires forall i :: 0 <= i < |q| && Has(q, i, key) ==> ListedFiles(q[i]) != []
    ensures FilesUnder(m, key) == FilesUnder(q, key)
       <==> forall i :: 0 <= i < |q| && Has(q, i, key) ==>
                          -61_000_000_000 < q[i].timestamp - q[f].timestamp < 61_000_000_000
  {
    MergeKeepsFilesIff(q, m, key);
    GroupStartsFirst(q, |q|, f, key);
    GroupMeaning(q, |q|, key);
    var g := GroupOf(q, key);
    forall k | 0 <= k < |g.indices| ensures ListsFiles(q[g.indices[k]]) {
      assert g.indices[k] in g.indices;
      assert Has(q, g.indices[k], key);
    }
    if g.indices[0] != f {
      assert !NothingBefore(q, g.indices[0], key) by { assert Has(q, f, key); }
    }
  }

  /** Two writes of one user more than a minute apart: the first one's file is lost. */
  lemma LateWriteLosesFirst(a: Activity, b: Activity, file: Json)
    requires a.event == b.event == SftpWrite && a.user == b.user
    requires Field(a, "files") == Some(Array([file])) && Field(b, "files") == Some(Array([file]))
    requires b.timestamp - a.timestamp == 61_000_000_000
    ensures IsMerge([a, b], [b])
    ensures FilesUnder([a, b], Sftp(SftpWrite, a.user)) == multiset{Listed(file), Listed(file)}
    ensures FilesUnder([b], Sftp(SftpWrite, a.user)) == multiset{Listed(file)}
  {
    var key := Sftp(SftpWrite, a.user);
    var q := [a, b];
    assert GroupUpTo(q, 1, key) == Some(Group(a, [0]));
    assert GroupUpTo(q, 2, key) == Some(Group(b, [1]));
    assert Has(q, 0, key);
    assert Enumerates(q, [key]);
    assert q[..1] == [a] && [a][..0] == [] && Ungrouped([]) == [];
    assert Ungrouped(q) == Ungrouped([a]);
    assert [b] == Ungrouped(q) + MergedGroups(q, [key]);
    assert Listings([file]) == [Listed(file)];
    FilesUnderOne(a, key);
    FilesUnderOne(b, key);
  }

  // ----- rounds

  /** One round: the merged queue's first activities are sent, at most `count` of them. */
  ghost predicate Round(q: seq<Activity>, count: nat, batch: seq<Activity>, rest: seq<Activity>) {
    IsMerge(q, batch + rest) && |batch| == if count < |batch + rest| then count else |batch + rest|
  }

  datatype History = History(logged: seq<Activity>, sent: seq<Activity>, queue: seq<Activity>)

  ghost predicate Logs(h: History, h': History) {
    exists a :: h' == History(h.logged + [a], h.sent, h.queue + [a])
  }

  ghost predicate Sends(h: History, h': History) {
    && h'.logged == h.logged && h.sent <= h'.sent
    && exists count :: Round(h.queue, count, h'.sent[|h.sent|..], h'.queue)
  }

  ghost predicate IsRun(run: seq<History>) {
    && run != [] && run[0] == History([], [], [])
    && forall i :: 0 <= i < |run| - 1 ==> Logs(run[i], run[i + 1]) || Sends(run[i], run[i + 1])
  }

  /** Activities without a key are all sent or queued, in the order logged, and every file sent or
      queued was logged. */
  ghost predicate Accounted(h: History) {
    && Ungrouped(h.sent + h.queue) == Ungrouped(h.logged)
    && forall key :: FilesUnder(h.sent + h.queue, key) <= FilesUnder(h.logged, key)
  }

  /** Every file logged is sent or queued. */
  ghost predicate Complete(h: History) {
    forall key :: FilesUnder(h.sent + h.queue, key) == FilesUnder(h.logged, key)
  }

  ghost predicate AllMergeable(q: seq<Activity>) {
    forall key :: Mergeable(q, key)
  }

  lemma LogKeepsAccount(h: History, h': History)
    requires Logs(h, h') && Accounted(h)
    ensures Accounted(h') && (Complete(h') <==> Complete(h))
  {
    var a :| h' == History(h.logged + [a], h.sent, h.queue + [a]);
    assert h'.sent + h'.queue == h.sent + h.queue + [a];
    UngroupedAppend(h.sent + h.queue, [a]);
    UngroupedAppend(h.logged, [a]);
    forall key
      ensures FilesUnder(h'.sent + h'.queue, key) <= FilesUnder(h'.logged, key)
      ensures FilesUnder(h'.sent + h'.queue, key) == FilesUnder(h'.logged, key)
         <==> FilesUnder(h.sent + h.queue, key) == FilesUnder(h.logged, key)
    {
      FilesUnderMore(h.sent + h.queue, a, key);
      FilesUnderMore(h.logged, a, key);
      Smaller(FilesUnder(h.sent + h.queue, key), FilesUnder(h.logged, key), CarriedUnder(a, key), CarriedUnder(a, key));
    }
  }

  lemma SendKeepsAccount(h: History, h': History)
    requires Sends(h, h') && Accounted(h)
    ensures Accounted(h') && (Complete(h') <==> Complete(h) && AllMergeable(h.queue))
  {
    var batch := h'.sent[|h.sent|..];
    var m := batch + h'.queue;
    assert h'.sent + h'.queue == h.sent + m;
    SendKeepsUngrouped(h.sent, h.queue, m);
    forall key
      ensures FilesUnder(h'.sent + h'.queue, key) <= FilesUnder(h'.logged, key)
      ensures FilesUnder(h'.sent + h'.queue, key) == FilesUnder(h'.logged, key)
         <==> FilesUnder(h.sent + h.queue, key) == FilesUnder(h.logged, key) && Mergeable(h.queue, key)
    {
      SendKeepsKey(h, h', m, key);
    }
  }

  lemma SendKeepsUngrouped(sent: seq<Activity>, queue: seq<Activity>, m: seq<Activity>)
    requires IsMerge(queue, m)
    ensures Ungrouped(sent + m) == Ungrouped(sent + queue)
  {
    UngroupedAppend(sent, queue);
    UngroupedAppend(sent, m);
    MergeKeepsUngrouped(queue, m);
  }

  lemma SendKeepsKey(h: History, h': History, m: seq<Activity>, key: Key)
    requires IsMerge(h.queue, m) && h'.sent + h'.queue == h.sent + m && h'.logged == h.logged
    requires FilesUnder(h.sent + h.queue, key) <= FilesUnder(h.logged, key)
    ensures FilesUnder(h'.sent + h'.queue, key) <= FilesUnder(h'.logged, key)
    ensures FilesUnder(h'.sent + h'.queue, key) == FilesUnder(h'.logged, key)
       <==> FilesUnder(h.sent + h.queue, key) == FilesUnder(h.logged, key) && Mergeable(h.queue, key)
  {
    FilesUnderAppend(h.sent, h.queue, key);
    FilesUnderAppend(h.sent, m, key);
    MergeKeepsFilesIff(h.queue, m, key);
    var s := FilesUnder(h.sent, key);
    Smaller(s, s, FilesUnder(m, key), FilesUnder(h.queue, key));
  }

  ghost predicate RoundsMergeable(run: seq<History>) {
    forall i :: 0 <= i < |run| - 1 && Sends(run[i], run[i + 1]) ==> AllMergeable(run[i].queue)
  }

  /** Over a whole run nothing is invented or reordered, and no file is lost exactly when every round
      found its queue mergeable. */
  lemma {:induction false} RunKeepsEverythingIff(run: seq<History>)
    requires IsRun(run)
    ensures Accounted(run[|run| - 1])
    ensures Complete(run[|run| - 1]) <==> RoundsMergeable(run)
  {
    var n := |run| - 1;
    if n > 0 {
      var init := run[..n];
      RunKeepsEverythingIff(init);
      RoundsMergeableNext(run);
      var h, h' := run[n - 1], run[n];
      assert init[|init| - 1] == h;
      if Sends(h, h') {
        SendKeepsAccount(h, h');
      } else {
        LogKeepsAccount(h, h');
      }
    }
  }

  lemma RoundsMergeableNext(run: seq<History>)
    requires |run| > 1
    ensures var n := |run| - 1;
            RoundsMergeable(run) <==>
            RoundsMergeable(run[..n]) && (Sends(run[n - 1], run[n]) ==> AllMergeable(run[n - 1].queue))
  {
    var init := run[..|run| - 1];
    assert forall i :: 0 <= i < |init| ==> init[i] == run[i];
    if RoundsMergeable(run) {
      forall i | 0 <= i < |init| - 1 && Sends(init[i], init[i + 1]) ensures AllMergeable(init[i].queue) {
        assert Sends(run[i], run[i + 1]);
      }
    }
  }

  // ----- the manager

  class ActivityManager {
    var activities: seq<Activity>

    constructor ()
      ensures activities == []
    {
      activities := [];
    }

    method LogActivity(activity: Activity)
      modifies this
      ensures activities == old(activities) + [activity]
    {
      activities := activities + [activity];
    }

    /** One pass of the sending loop; the activities returned are handed to the panel. */
    method SendRound(sendCount: nat) returns (batch: seq<Activity>)
      modifies this
      ensures Round(old(activities), sendCount, batch, activities)
    {
      if |activities| == 0 {
        EmptyRound(activities, sendCount);
        return [];
      }
      var merged := Merge(activities);
      var n := if sendCount < |merged| then sendCount else |merged|;
      Drained(activities, merged, sendCount);
      batch, activities := merged[..n], merged[n..];
    }
  }

  lemma EmptyRound(q: seq<Activity>, count: nat)
    requires q == []
    ensures Round(q, count, [], q)
  {
    assert Enumerates(q, []);
    assert q == Ungrouped(q) + MergedGroups(q, []);
    assert [] + q == q;
  }

  lemma Drained(q: seq<Activity>, m: seq<Activity>, count: nat)
    requires IsMerge(q, m)
    ensures var n := if count < |m| then count else |m|; Round(q, count, m[..n], m[n..])
  {
    var n := if count < |m| then count else |m|;
    SplitAt(m, n);
    RoundOf(q, m, count, m[..n], m[n..]);
  }

  lemma SplitAt<T>(m: seq<T>, n: nat)
    requires n <= |m|
    ensures m == m[..n] + m[n..]
  {}

  lemma RoundOf(q: seq<Activity>, m: seq<Activity>, count: nat, batch: seq<Activity>, rest: seq<Activity>)
    requires IsMerge(q, m) && m == batch + rest && |batch| == if count < |m| then count else |m|
    ensures Round(q, count, batch, rest)
  {}

  /** The map holds the groups, of one kind of key, of the first `n` activities. */
  ghost predicate Holds(groups: map<Key, Group>, q: seq<Activity>, n: nat, uploads: bool)
    requires n <= |q|
  {
    && (forall k :: k in groups <==> k.Upload? == uploads && GroupUpTo(q, n, k).Some?)
    && (forall k :: k in groups ==> groups[k] == GroupUpTo(q, n, k).value)
  }

  /** Adds the activity at `i` to the group of its key, or starts the group anew. */
  method Place(groups: map<Key, Group>, key: Key, q: seq<Activity>, i: nat, ghost uploads: bool)
    returns (groups': map<Key, Group>)
    requires i < |q| && Has(q, i, key) && key.Upload? == uploads
    requires Holds(groups, q, i, uploads)
    ensures Holds(groups', q, i + 1, uploads)
  {
    if key in groups && Near(q[i], groups[key].base) {
      var g := groups[key];
      groups' := groups[key := g.(indices := g.indices + [i])];
    } else {
      groups' := groups[key := Group(q[i], [i])];
    }
    forall k: Key | k != key ensures GroupUpTo(q, i + 1, k) == GroupUpTo(q, i, k) {}
  }

  lemma Unplaced(groups: map<Key, Group>, q: seq<Activity>, n: nat, uploads: bool)
    requires n < |q| && Holds(groups, q, n, uploads)
    requires KeyOf(q[n]).Some? ==> KeyOf(q[n]).value.Upload? != uploads
    ensures Holds(groups, q, n + 1, uploads)
  {
    forall k: Key | k.Upload? == uploads ensures GroupUpTo(q, n + 1, k) == GroupUpTo(q, n, k) {}
  }

  method Gather(q: seq<Activity>)
    returns (plain: seq<Activity>, sftpEvents: map<Key, Group>, fileUploadEvents: map<Key, Group>)
    ensures plain == Ungrouped(q)
    ensures Holds(sftpEvents, q, |q|, false) && Holds(fileUploadEvents, q, |q|, true)
  {
    sftpEvents, fileUploadEvents, plain := map[], map[], [];
    for i := 0 to |q|
      invariant plain == Ungrouped(q[..i])
      invariant Holds(sftpEvents, q, i, false)
      invariant Holds(fileUploadEvents, q, i, true)
    {
      UngroupedNext(q, i);
      var key := KeyOf(q[i]);
      if key.Some? && key.value.Sftp? {
        Unplaced(fileUploadEvents, q, i, true);
        sftpEvents := Place(sftpEvents, key.value, q, i, false);
      } else if key.Some? {
        Unplaced(sftpEvents, q, i, false);
        fileUploadEvents := Place(fileUploadEvents, key.value, q, i, true);
      } else {
        Unplaced(sftpEvents, q, i, false);
        Unplaced(fileUploadEvents, q, i, true);
        plain := plain + [q[i]];
      }
    }
    assert q[..|q|] == q;
  }

  lemma UngroupedNext(q: seq<Activity>, n: nat)
    requires n < |q|
    ensures Ungrouped(q[..n + 1]) == Ungrouped(q[..n]) + (if KeyOf(q[n]).None? then [q[n]] else [])
  {
    assert q[..n + 1][..n] == q[..n];
  }

  method Merge(q: seq<Activity>) returns (merged: seq<Activity>)
    ensures IsMerge(q, merged)
  {
    var plain, sftpEvents, fileUploadEvents := Gather(q);
    var sftp, sftpOrder := MergeGroups(q, sftpEvents, false);
    var uploads, uploadOrder := MergeGroups(q, fileUploadEvents, true);
    AllGathered(q, sftpEvents, fileUploadEvents, sftpOrder, uploadOrder);
    MergeOfKinds(q, sftpOrder, uploadOrder);
    merged := plain + sftp + uploads;
  }

  lemma AllGathered(q: seq<Activity>, sftpEvents: map<Key, Group>, fileUploadEvents: map<Key, Group>,
                    sftp: seq<Key>, uploads: seq<Key>)
    requires Holds(sftpEvents, q, |q|, false) && Holds(fileUploadEvents, q, |q|, true)
    requires forall k :: k in sftpEvents ==> k in sftp
    requires forall k :: k in fileUploadEvents ==> k in uploads
    ensures forall k: Key :: IsKey(q, k) ==> k in if k.Sftp? then sftp else uploads
  {
    forall k | IsKey(q, k) ensures k in if k.Sftp? then sftp else uploads {
      GroupMeaning(q, |q|, k);
    }
  }

  lemma MergeOfKinds(q: seq<Activity>, sftp: seq<Key>, uploads: seq<Key>)
    requires Distinct(sftp) && Distinct(uploads)
    requires OfKind(sftp, false) && OfKind(uploads, true)
    requires Grouped(q, sftp) && Grouped(q, uploads)
    requires forall k: Key :: IsKey(q, k) ==> k in if k.Sftp? then sftp else uploads
    ensures IsMerge(q, Ungrouped(q) + MergedGroups(q, sftp) + MergedGroups(q, uploads))
  {
    BothKinds(q, sftp, uploads);
    var order := sftp + uploads;
    assert Enumerates(q, order);
    Regrouped(Ungrouped(q), MergedGroups(q, sftp), MergedGroups(q, uploads));
    assert Ungrouped(q) + MergedGroups(q, sftp) + MergedGroups(q, uploads) == Ungrouped(q) + MergedGroups(q, order);
  }

  lemma Regrouped<T>(a: seq<T>, b: seq<T>, c: seq<T>)
    ensures a + b + c == a + (b + c)
  {}

  predicate OfKind(order: seq<Key>, uploads: bool) {
    forall i :: 0 <= i < |order| ==> order[i].Upload? == uploads
  }

  lemma KindsApart(sftp: seq<Key>, uploads: seq<Key>)
    requires Distinct(sftp) && Distinct(uploads)
    requires OfKind(sftp, false) && OfKind(uploads, true)
    ensures Distinct(sftp + uploads) && UploadsLast(sftp + uploads)
  {}

  lemma BothKinds(q: seq<Activity>, sftp: seq<Key>, uploads: seq<Key>)
    requires Distinct(sftp) && Distinct(uploads)
    requires OfKind(sftp, false) && OfKind(uploads, true)
    requires Grouped(q, sftp) && Grouped(q, uploads)
    requires forall k: Key :: IsKey(q, k) ==> k in if k.Sftp? then sftp else uploads
    ensures Enumerates(q, sftp + uploads)
    ensures MergedGroups(q, sftp + uploads) == MergedGroups(q, sftp) + MergedGroups(q, uploads)
  {
    KindsApart(sftp, uploads);
    GroupsAppend(q, sftp, uploads);
    AllListedIn(q, sftp, uploads);
  }

  lemma GroupsAppend(q: seq<Activity>, a: seq<Key>, b: seq<Key>)
    requires Grouped(q, a) && Grouped(q, b)
    ensures Grouped(q, a + b) && MergedGroups(q, a + b) == MergedGroups(q, a) + MergedGroups(q, b)
  {
    assert forall i :: 0 <= i < |a + b| ==> (a + b)[i] == if i < |a| then a[i] else b[i - |a|];
  }

  lemma AllListedIn(q: seq<Activity>, sftp: seq<Key>, uploads: seq<Key>)
    requires forall k: Key :: IsKey(q, k) ==> k in if k.Sftp? then sftp else uploads
    ensures forall k :: IsKey(q, k) ==> k in sftp + uploads
  {
    forall k | IsKey(q, k) ensures k in sftp + uploads {
      assert k in if k.Sftp? then sftp else uploads;
    }
  }

  /** Turns each group into one activity, in whatever order the map is walked. */
  method MergeGroups(q: seq<Activity>, groups: map<Key, Group>, ghost uploads: bool)
    returns (merged: seq<Activity>, ghost order: seq<Key>)
    requires Holds(groups, q, |q|, uploads)
    ensures forall k :: k in groups ==> k in order
    ensures Distinct(order) && OfKind(order, uploads)
    ensures Grouped(q, order) && merged == MergedGroups(q, order)
  {
    merged, order := [], [];
    forall k: Key ensures GroupUpTo(q, |q|, k).Some? <==> IsKey(q, k) { GroupMeaning(q, |q|, k); }
    var keys := groups.Keys;
    while keys != {}
      invariant keys <= groups.Keys
      invariant forall k :: k in order <==> k in groups && k !in keys
      invariant Distinct(order) && OfKind(order, uploads)
      invariant Grouped(q, order) && merged == MergedGroups(q, order)
    {
      var key :| key in keys;
      var activity := MergeGroupOf(q, groups[key]);
      merged, order, keys := merged + [activity], order + [key], keys - {key};
    }
  }

  method MergeGroupOf(q: seq<Activity>, g: Group) returns (activity: Activity)
    requires Indexes(q, g.indices)
    ensures activity == Merged(q, g)
  {
    activity := g.base;
    if |g.indices| > 1 {
      var allFiles := [];
      for k := 0 to |g.indices|
        invariant allFiles == AllFiles(q, g.indices[..k])
      {
        assert g.indices[..k + 1][..k] == g.indices[..k];
        if ListsFiles(q[g.indices[k]]) {
          var files := ListedFiles(q[g.indices[k]]);
          ghost var before := allFiles;
          for i := 0 to |files|
            invariant allFiles == before + files[..i]
          {
            allFiles := allFiles + [files[i]];
          }
        }
      }
      assert g.indices[..|g.indices|] == g.indices;
      if Field(activity, "files").Some? {
        activity := WithFiles(activity, allFiles);
      }
    }
  }
}
