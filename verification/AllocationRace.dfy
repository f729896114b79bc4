/** Several tasks growing one file system at once: each first compares the cached total with the limit,
    only later adds to it and then to the tree, and the other tasks run in between. */
module AllocationRace {
  import opened Usage
  import opened Accounting
  import opened Ledger
  import opened Runs
  import opened Scan

  /** A task between allocations, or one whose check passed and whose addition is still to come. */
  datatype Task = Idle | Granted(delta: nat)

  datatype Race = Race(cached: u64, limit: int, tasks: seq<Task>)

  datatype Step = Check(task: nat, delta: nat) | Add(task: nat) | Release(amount: nat)

  predicate Enabled(s: Race, step: Step, maxDelta: nat) {
    match step
    case Check(i, delta) => i < |s.tasks| && s.tasks[i].Idle? && 0 < delta <= maxDelta
    case Add(i) => i < |s.tasks| && s.tasks[i].Granted?
    case Release(_) => true
  }

  function Perform(s: Race, step: Step, maxDelta: nat): Race
    requires Enabled(s, step, maxDelta)
  {
    match step
    case Check(i, delta) =>
      if Exceeds(s.cached, s.limit, delta) then s else s.(tasks := s.tasks[i := Granted(delta)])
    case Add(i) => s.(cached := CachedAfter(s.cached, s.tasks[i].delta), tasks := s.tasks[i := Idle])
    case Release(amount) => s.(cached := CachedAfter(s.cached, -(amount as int)))
  }

  predicate EnabledAll(s: Race, steps: seq<Step>, maxDelta: nat)
    decreases |steps|
  {
    steps == [] || (Enabled(s, steps[0], maxDelta) && EnabledAll(Perform(s, steps[0], maxDelta), steps[1..], maxDelta))
  }

  function PerformAll(s: Race, steps: seq<Step>, maxDelta: nat): Race
    requires EnabledAll(s, steps, maxDelta)
    decreases |steps|
  {
    if steps == [] then s else PerformAll(Perform(s, steps[0], maxDelta), steps[1..], maxDelta)
  }

  function Amount(task: Task): nat {
    match task
    case Idle => 0
    case Granted(delta) => delta
  }

  /** The bytes granted but not yet added. */
  function Pending(tasks: seq<Task>): nat {
    if tasks == [] then 0 else Pending(tasks[1..]) + Amount(tasks[0])
  }

  ghost predicate GrantsWithin(tasks: seq<Task>, maxDelta: nat) {
    forall i :: 0 <= i < |tasks| && tasks[i].Granted? ==> tasks[i].delta <= maxDelta
  }

  lemma {:induction false} PendingUpdate(tasks: seq<Task>, i: nat, task: Task)
    requires i < |tasks|
    ensures Pending(tasks[i := task]) == Pending(tasks) - Amount(tasks[i]) + Amount(task)
  {
    if i == 0 {
      assert tasks[0 := task][1..] == tasks[1..];
    } else {
      PendingUpdate(tasks[1..], i - 1, task);
      assert tasks[i := task][1..] == tasks[1..][i - 1 := task];
    }
  }

  lemma {:induction false} PendingAtMost(tasks: seq<Task>, maxDelta: nat)
    requires GrantsWithin(tasks, maxDelta)
    ensures Pending(tasks) <= |tasks| * maxDelta
    ensures (exists i :: 0 <= i < |tasks| && tasks[i].Idle?) ==> Pending(tasks) <= (|tasks| - 1) * maxDelta
  {
    if tasks != [] {
      assert GrantsWithin(tasks[1..], maxDelta);
      PendingAtMost(tasks[1..], maxDelta);
      assert |tasks| * maxDelta == |tasks[1..]| * maxDelta + maxDelta;
      if i :| 0 <= i < |tasks| && tasks[i].Idle? {
        if i > 0 {
          assert tasks[1..][i - 1].Idle?;
          assert (|tasks| - 1) * maxDelta == (|tasks[1..]| - 1) * maxDelta + maxDelta;
        }
      }
    }
  }

  /** What every reachable state keeps, where `slack` is what all tasks but one can add. */
  ghost predicate WithinOvershoot(s: Race, maxDelta: nat, slack: nat) {
    && slack == (|s.tasks| - 1) * maxDelta
    && 0 < s.limit && s.limit + slack + maxDelta <= I64_MAX
    && GrantsWithin(s.tasks, maxDelta)
    && s.cached + Pending(s.tasks) <= s.limit + slack
  }

  lemma ExceedsExact(cached: u64, limit: int, delta: nat)
    requires cached + delta <= I64_MAX
    ensures Exceeds(cached, limit, delta) <==> limit != 0 && cached + delta > limit
  {
  }

  lemma CheckKeepsOvershoot(s: Race, i: nat, delta: nat, maxDelta: nat, slack: nat)
    requires WithinOvershoot(s, maxDelta, slack) && Enabled(s, Check(i, delta), maxDelta)
    ensures WithinOvershoot(Perform(s, Check(i, delta), maxDelta), maxDelta, slack)
  {
    PendingAtMost(s.tasks, maxDelta);
    PendingUpdate(s.tasks, i, Granted(delta));
    ExceedsExact(s.cached, s.limit, delta);
  }

  lemma AddKeepsOvershoot(s: Race, i: nat, maxDelta: nat, slack: nat)
    requires WithinOvershoot(s, maxDelta, slack) && Enabled(s, Add(i), maxDelta)
    ensures WithinOvershoot(Perform(s, Add(i), maxDelta), maxDelta, slack)
  {
    PendingUpdate(s.tasks, i, Idle);
    CachedAfterExact(s.cached, s.tasks[i].delta);
  }

  lemma {:induction false} RunKeepsOvershoot(s: Race, steps: seq<Step>, maxDelta: nat, slack: nat)
    requires WithinOvershoot(s, maxDelta, slack) && EnabledAll(s, steps, maxDelta)
    ensures WithinOvershoot(PerformAll(s, steps, maxDelta), maxDelta, slack)
    ensures PerformAll(s, steps, maxDelta).limit == s.limit
    decreases |steps|
  {
    if steps != [] {
      match steps[0] {
        case Check(i, delta) => CheckKeepsOvershoot(s, i, delta, maxDelta, slack);
        case Add(i) => AddKeepsOvershoot(s, i, maxDelta, slack);
        case Release(_) =>
      }
      RunKeepsOvershoot(Perform(s, steps[0], maxDelta), steps[1..], maxDelta, slack);
    }
  }

  /** With n tasks whose checks and additions interleave in any way, each growth at most `maxDelta`,
      the cached total never exceeds the limit by more than (n - 1) times `maxDelta`. */
  lemma OvershootBound(s: Race, steps: seq<Step>, maxDelta: nat)
    requires s.tasks != [] && (forall i :: 0 <= i < |s.tasks| ==> s.tasks[i].Idle?)
    requires 0 < s.limit && s.cached <= s.limit && s.limit + |s.tasks| * maxDelta <= I64_MAX
    requires EnabledAll(s, steps, maxDelta)
    ensures PerformAll(s, steps, maxDelta).cached <= s.limit + (|s.tasks| - 1) * maxDelta
  {
    AllIdle(s.tasks);
    RunKeepsOvershoot(s, steps, maxDelta, (|s.tasks| - 1) * maxDelta);
  }

  lemma {:induction false} AllIdle(tasks: seq<Task>)
    requires forall i :: 0 <= i < |tasks| ==> tasks[i].Idle?
    ensures Pending(tasks) == 0
  {
    if tasks != [] {
      AllIdle(tasks[1..]);
    }
  }

  /** One task alone never passes the limit. */
  lemma SingleTaskStaysWithinLimit(s: Race, steps: seq<Step>, maxDelta: nat)
    requires s.tasks == [Idle] && 0 < s.limit && s.cached <= s.limit && s.limit + maxDelta <= I64_MAX
    requires EnabledAll(s, steps, maxDelta)
    ensures PerformAll(s, steps, maxDelta).cached <= s.limit
  {
    OvershootBound(s, steps, maxDelta);
  }

  // ----- the bound is reached

  function Checks(from: nat, n: nat, delta: nat): seq<Step>
    requires from <= n
    decreases n - from
  {
    if from == n then [] else [Check(from, delta)] + Checks(from + 1, n, delta)
  }

  function Adds(from: nat, n: nat): seq<Step>
    requires from <= n
    decreases n - from
  {
    if from == n then [] else [Add(from)] + Adds(from + 1, n)
  }

  function Marked(n: nat, granted: nat, delta: nat): seq<Task> {
    seq(n, i => if i < granted then Granted(delta) else Idle)
  }

  function Cleared(n: nat, added: nat, delta: nat): seq<Task> {
    seq(n, i => if i < added then Idle else Granted(delta))
  }

  lemma OneLess(k: nat, delta: nat)
    requires k > 0
    ensures k * delta == (k - 1) * delta + delta
  {
  }

  lemma {:induction false} AllAdd(s: Race, from: nat, n: nat, delta: nat, sum: nat)
    requires 0 < delta && from <= n && s.tasks == Cleared(n, from, delta)
    requires sum == (n - from) * delta && s.cached + sum <= I64_MAX
    ensures EnabledAll(s, Adds(from, n), delta)
    ensures PerformAll(s, Adds(from, n), delta).cached == s.cached + sum
    decreases n - from
  {
    if from < n {
      var left := n - from;
      OneLess(left, delta);
      var rest := (left - 1) * delta;
      CachedAfterExact(s.cached, delta);
      assert left - 1 == n - (from + 1);
      var next := Perform(s, Add(from), delta);
      assert next.tasks == Cleared(n, from + 1, delta);
      AllAdd(next, from + 1, n, delta, rest);
    }
  }

  lemma {:induction false} AllCheckThenAdd(s: Race, from: nat, n: nat, delta: nat, sum: nat)
    requires 0 < delta && from <= n && s.tasks == Marked(n, from, delta)
    requires sum == n * delta && 0 < s.cached + delta <= s.limit && s.limit + sum <= I64_MAX
    ensures EnabledAll(s, Checks(from, n, delta) + Adds(0, n), delta)
    ensures PerformAll(s, Checks(from, n, delta) + Adds(0, n), delta).cached == s.cached + sum
    decreases n - from
  {
    if from == n {
      assert s.tasks == Cleared(n, 0, delta);
      AllAdd(s, 0, n, delta, sum);
      assert Checks(from, n, delta) + Adds(0, n) == Adds(0, n);
    } else {
      ExceedsExact(s.cached, s.limit, delta);
      var next := Perform(s, Check(from, delta), delta);
      assert next.tasks == Marked(n, from + 1, delta);
      AllCheckThenAdd(next, from + 1, n, delta, sum);
      var steps := Checks(from, n, delta) + Adds(0, n);
      assert steps[1..] == Checks(from + 1, n, delta) + Adds(0, n);
    }
  }

  /** The bound is tight: where the limit admits one growth, the run in which all tasks check before
      any of them adds ends exactly at the bound. */
  lemma OvershootIsReached(n: nat, delta: nat, limit: nat)
    requires n > 0 && 0 < delta <= limit && limit + n * delta <= I64_MAX
    ensures
      var s := Race(limit - delta, limit, Marked(n, 0, delta));
      var steps := Checks(0, n, delta) + Adds(0, n);
      && (forall i :: 0 <= i < n ==> s.tasks[i].Idle?)
      && EnabledAll(s, steps, delta)
      && PerformAll(s, steps, delta).cached == limit + (n - 1) * delta
  {
    assert n * delta == (n - 1) * delta + delta;
    AllCheckThenAdd(Race(limit - delta, limit, Marked(n, 0, delta)), 0, n, delta, n * delta);
  }

  // ----- the tree, updated in a third step

  /** A growth between its steps: checked, and then counted in the cached total but not in the tree. */
  datatype Growth = Resting | Checked(path: Path, delta: nat) | Counted(path: Path, delta: nat)

  datatype TreeRace = TreeRace(account: Account, growths: seq<Growth>)

  /** A step of a growth, or a whole operation of some other task. */
  datatype Move =
    | Compare(task: nat, path: Path, delta: nat, ignorant: bool)
    | Count(task: nat)
    | Record(task: nat)
    | Atomic(op: Op)

  /** The operation puts a total of its own in place of the cached one. */
  predicate Resets(op: Op) {
    op.TruncateRoot? || op.Rescan?
  }

  /** The task is where the move starts from, and the cached total stays below 2^63. Other operations release
      only what was charged, meet no node with bytes where they may not, and refuse nothing. */
  ghost predicate CanMove(s: TreeRace, book: Book, m: Move) {
    match m
    case Compare(i, _, delta, _) => i < |s.growths| && s.growths[i].Resting? && delta > 0
    case Count(i) => i < |s.growths| && s.growths[i].Checked? && s.account.cached + s.growths[i].delta <= I64_MAX
    case Record(i) => i < |s.growths| && s.growths[i].Counted?
    case Atomic(op) =>
      && Honest(s.account, book, op) && DeletesCleanly(s.account, op) && ReplacesNothing(s.account, op)
      && (op.Grow? ==> op.delta <= 0 || op.ignorant)
  }

  ghost function Moved(s: TreeRace, book: Book, m: Move): TreeRace
    requires CanMove(s, book, m)
  {
    var a := s.account;
    match m
    case Compare(i, path, delta, ignorant) =>
      if !ignorant && Exceeds(a.cached, a.limit, delta) then s
      else s.(growths := s.growths[i := Checked(path, delta)])
    case Count(i) =>
      var g := s.growths[i];
      TreeRace(a.(cached := CachedAfter(a.cached, g.delta)), s.growths[i := Counted(g.path, g.delta)])
    case Record(i) =>
      var g := s.growths[i];
      TreeRace(a.(sizes := Charged(a.sizes, g.path, g.delta)), s.growths[i := Resting])
    case Atomic(op) => s.(account := Apply(a, op))
  }

  /** The plain book: a growth's bytes are charged when the tree records them. */
  ghost function MovedBook(s: TreeRace, book: Book, m: Move): Book
    requires CanMove(s, book, m)
  {
    match m
    case Record(i) => book[s.growths[i].path := Own(book, s.growths[i].path) + s.growths[i].delta]
    case Atomic(op) => Booked(s.account, book, op)
    case _ => book
  }

  ghost predicate CanMoveAll(s: TreeRace, book: Book, moves: seq<Move>)
    decreases |moves|
  {
    moves == [] ||
    (CanMove(s, book, moves[0]) && CanMoveAll(Moved(s, book, moves[0]), MovedBook(s, book, moves[0]), moves[1..]))
  }

  ghost function MovedAll(s: TreeRace, book: Book, moves: seq<Move>): (TreeRace, Book)
    requires CanMoveAll(s, book, moves)
    decreases |moves|
  {
    if moves == [] then (s, book)
    else MovedAll(Moved(s, book, moves[0]), MovedBook(s, book, moves[0]), moves[1..])
  }

  function CountedBytes(g: Growth): nat {
    if g.Counted? then g.delta else 0
  }

  /** The bytes the cached total counts and the tree does not record yet. */
  function Unrecorded(growths: seq<Growth>): nat {
    if growths == [] then 0 else Unrecorded(growths[1..]) + CountedBytes(growths[0])
  }

  lemma {:induction false} UnrecordedUpdate(growths: seq<Growth>, i: nat, g: Growth)
    requires i < |growths|
    ensures Unrecorded(growths[i := g]) == Unrecorded(growths) - CountedBytes(growths[i]) + CountedBytes(g)
    ensures Unrecorded(growths) >= CountedBytes(growths[i])
  {
    if i == 0 {
      assert growths[i := g][1..] == growths[1..];
    } else {
      UnrecordedUpdate(growths[1..], i - 1, g);
      assert growths[i := g][1..] == growths[1..][i - 1 := g];
    }
  }

  predicate AllResting(growths: seq<Growth>) {
    forall i :: 0 <= i < |growths| ==> growths[i].Resting?
  }

  lemma {:induction false} RestingIsRecorded(growths: seq<Growth>)
    requires AllResting(growths)
    ensures Unrecorded(growths) == 0
  {
    if growths != [] {
      RestingIsRecorded(growths[1..]);
    }
  }

  /** The tree is an exact index of the book, and the cached total is ahead by what is not recorded yet. */
  ghost predicate Ahead(s: TreeRace, book: Book) {
    && s.account.cached == Total(book) + Unrecorded(s.growths) <= I64_MAX
    && Indexed(s.account.(cached := Total(book)), book)
  }

  lemma RecordKeepsAhead(s: TreeRace, book: Book, m: Move)
    requires m.Record? && CanMove(s, book, m) && Ahead(s, book)
    ensures Ahead(Moved(s, book, m), MovedBook(s, book, m))
  {
    var a, g := s.account, s.growths[m.task];
    var book' := MovedBook(s, book, m);
    UnrecordedUpdate(s.growths, m.task, Resting);
    TotalCharge(book, g.path, g.delta);
    CachedAfterExact(Total(book), g.delta);
    ChargeKeepsIndex(a.(cached := Total(book)), book, g.path, g.delta,
                     a.(sizes := Charged(a.sizes, g.path, g.delta), cached := Total(book')), book');
  }

  /** The account with a total that is `u` bytes ahead. */
  function AheadBy(a: Account, u: nat): Account
    requires a.cached + u <= I64_MAX
  {
    a.(cached := a.cached + u)
  }

  /** A charge or release that refuses nothing moves a total that is ahead as it moves one that is not. */
  lemma AllocateAhead(a: Account, u: nat, path: Path, delta: int, ignorant: bool)
    requires (delta <= 0 || ignorant) && 0 <= a.cached + delta && a.cached + u <= I64_MAX && a.cached + u + delta <= I64_MAX
    ensures
      var (a', done) := Allocate(a, path, delta, ignorant);
      && done && a'.cached == a.cached + delta
      && Allocate(AheadBy(a, u), path, delta, ignorant) == (AheadBy(a', u), true)
  {
  }

  ghost predicate MovesAhead(a: Account, u: nat, op: Op)
    requires a.cached + u <= I64_MAX
  {
    Apply(a, op).cached + u <= I64_MAX && Apply(AheadBy(a, u), op) == AheadBy(Apply(a, op), u)
  }

  lemma FileAhead(a: Account, u: nat, path: Path, len: u64)
    requires a.cached + u <= I64_MAX && len <= a.cached
    ensures MovesAhead(a, u, TruncateFile(path, len))
  {
    AllocateAhead(a, u, path, -(len as int), false);
    assert AsI64(len) == len;
  }

  lemma DirectoryAhead(a: Account, u: nat, path: Path)
    requires a.cached + u <= I64_MAX && SizeAt(a.sizes, path) <= a.cached
    ensures MovesAhead(a, u, TruncateDirectory(path))
  {
    AllocateAhead(a, u, path, -(SizeAt(a.sizes, path) as int), false);
    assert AsI64(SizeAt(a.sizes, path)) == SizeAt(a.sizes, path);
  }

  lemma MovedFileAhead(a: Account, u: nat, oldParent: Path, newParent: Path, len: u64)
    requires a.cached + u <= I64_MAX && len <= a.cached
    ensures MovesAhead(a, u, RenameFile(oldParent, newParent, len))
  {
    assert AsI64(len) == len;
    AllocateAhead(a, u, oldParent, -(len as int), true);
    AllocateAhead(Allocate(a, oldParent, -(len as int), true).0, u, newParent, len, true);
  }

  lemma SizeAtMostTotal(a: Account, book: Book, path: Path)
    requires Indexed(a, book) && path.Sub?
    ensures SizeAt(a.sizes, path) <= a.cached
  {
    TotalSplit(book, path);
  }

  /** An operation does the same to a total that is ahead, unless it puts its own in place. */
  lemma ApplyAhead(a: Account, u: nat, book: Book, op: Op)
    requires Indexed(a, book) && a.cached + u <= I64_MAX && Honest(AheadBy(a, u), book, op)
    requires op.Grow? ==> op.delta <= 0 || op.ignorant
    ensures if Resets(op) then Apply(AheadBy(a, u), op) == Apply(a, op) else MovesAhead(a, u, op)
  {
    match op
    case Grow(path, delta, ignorant) =>
      OwnAtMostTotal(book, path);
      AllocateAhead(a, u, path, delta, ignorant);
    case TruncateFile(path, len) =>
      OwnAtMostTotal(book, path.up);
      FileAhead(a, u, path, len);
    case TruncateDirectory(path) =>
      SizeAtMostTotal(a, book, path);
      DirectoryAhead(a, u, path);
    case RenameFile(oldParent, newParent, len) =>
      OwnAtMostTotal(book, oldParent);
      MovedFileAhead(a, u, oldParent, newParent, len);
    case _ =>
  }

  lemma BookedAhead(a: Account, u: nat, book: Book, op: Op)
    requires a.cached + u <= I64_MAX && (op.Grow? ==> op.delta <= 0 || op.ignorant)
    ensures Booked(AheadBy(a, u), book, op) == Booked(a, book, op)
  {
  }

  lemma ExactPart(s: TreeRace, book: Book, op: Op)
    requires CanMove(s, book, Atomic(op)) && Ahead(s, book)
    ensures
      var exact := s.account.(cached := Total(book));
      && Honest(exact, book, op) && DeletesCleanly(exact, op) && ReplacesNothing(exact, op)
      && s.account == AheadBy(exact, Unrecorded(s.growths))
  {
  }

  /** An operation of another task keeps the total ahead by just the unrecorded bytes, unless it puts its own
      total in place while there are some. */
  lemma AtomicKeepsAheadIff(s: TreeRace, book: Book, op: Op)
    requires CanMove(s, book, Atomic(op)) && Ahead(s, book)
    ensures Ahead(Moved(s, book, Atomic(op)), MovedBook(s, book, Atomic(op)))
       <==> !Resets(op) || Unrecorded(s.growths) == 0
  {
    var u := Unrecorded(s.growths);
    var exact := s.account.(cached := Total(book));
    ExactPart(s, book, op);
    ApplyAhead(exact, u, book, op);
    BookedAhead(exact, u, book, op);
    StepKeepsIndexIff(exact, book, op, Apply(exact, op), Booked(exact, book, op));
    AheadOfExact(Apply(s.account, op), Apply(exact, op), s.growths, Booked(exact, book, op), Resets(op));
  }

  lemma AheadOfExact(a: Account, exact: Account, growths: seq<Growth>, book: Book, reset: bool)
    requires Indexed(exact, book)
    requires reset ==> a == exact
    requires !reset ==> exact.cached + Unrecorded(growths) <= I64_MAX && a == AheadBy(exact, Unrecorded(growths))
    ensures Ahead(TreeRace(a, growths), book) <==> !reset || Unrecorded(growths) == 0
  {
    if Unrecorded(growths) == 0 || !reset {
      assert a.(cached := Total(book)) == exact;
    }
  }

  /** The move is no operation that puts its own total in place while some growth is counted only. */
  predicate Timely(s: TreeRace, m: Move) {
    m.Atomic? && Resets(m.op) ==> Unrecorded(s.growths) == 0
  }

  lemma MoveKeepsAheadIff(s: TreeRace, book: Book, m: Move)
    requires CanMove(s, book, m) && Ahead(s, book)
    ensures Ahead(Moved(s, book, m), MovedBook(s, book, m)) <==> Timely(s, m)
  {
    match m
    case Compare(i, path, delta, _) => UnrecordedUpdate(s.growths, i, Checked(path, delta));
    case Count(i) =>
      UnrecordedUpdate(s.growths, i, Counted(s.growths[i].path, s.growths[i].delta));
      CachedAfterExact(s.account.cached, s.growths[i].delta);
    case Record(_) => RecordKeepsAhead(s, book, m);
    case Atomic(op) => AtomicKeepsAheadIff(s, book, op);
  }

  ghost predicate TimelyAll(s: TreeRace, book: Book, moves: seq<Move>)
    requires CanMoveAll(s, book, moves)
    decreases |moves|
  {
    moves == [] ||
    (Timely(s, moves[0]) && TimelyAll(Moved(s, book, moves[0]), MovedBook(s, book, moves[0]), moves[1..]))
  }

  ghost predicate AheadThroughout(s: TreeRace, book: Book, moves: seq<Move>)
    requires CanMoveAll(s, book, moves)
    decreases |moves|
  {
    && Ahead(s, book)
    && (moves != [] ==> AheadThroughout(Moved(s, book, moves[0]), MovedBook(s, book, moves[0]), moves[1..]))
  }

  /** However the steps of the growths and the operations of other tasks interleave, in every state the tree
      is exact and the total ahead by just the unrecorded bytes, precisely when no rescan and no truncation
      of the root runs while a growth is counted but not recorded. */
  lemma {:induction false} RaceKeepsAheadIff(s: TreeRace, book: Book, moves: seq<Move>)
    requires CanMoveAll(s, book, moves) && Ahead(s, book)
    ensures AheadThroughout(s, book, moves) <==> TimelyAll(s, book, moves)
    ensures TimelyAll(s, book, moves) ==> Ahead(MovedAll(s, book, moves).0, MovedAll(s, book, moves).1)
    decreases |moves|
  {
    if moves != [] {
      MoveKeepsAheadIff(s, book, moves[0]);
      if Timely(s, moves[0]) {
        RaceKeepsAheadIff(Moved(s, book, moves[0]), MovedBook(s, book, moves[0]), moves[1..]);
      }
    }
  }

  /** Then, whenever no growth is in between, the tree is an exact index and the cached total its sum. */
  lemma RaceSettlesIndexed(s: TreeRace, book: Book, moves: seq<Move>)
    requires Indexed(s.account, book) && AllResting(s.growths)
    requires CanMoveAll(s, book, moves) && TimelyAll(s, book, moves)
    ensures
      var (s', book') := MovedAll(s, book, moves);
      AllResting(s'.growths) ==> Indexed(s'.account, book')
  {
    RestingIsRecorded(s.growths);
    assert s.account.(cached := Total(book)) == s.account;
    RaceKeepsAheadIff(s, book, moves);
    var (s', book') := MovedAll(s, book, moves);
    if AllResting(s'.growths) {
      RestingIsRecorded(s'.growths);
    }
  }

  /** A rescan between counting and recording one byte: the growth ends with a tree that records it and a
      cached total that does not. */
  lemma RescanWhileCounted(path: Path)
    requires path.Sub?
    ensures
      var s := TreeRace(Account(map[Root := 0], 0, 0), [Resting]);
      var moves := [Compare(0, path, 1, true), Count(0), Atomic(Rescan([])), Record(0)];
      && Indexed(s.account, map[]) && CanMoveAll(s, map[], moves)
      && var (s', book') := MovedAll(s, map[], moves);
         AllResting(s'.growths) && s'.account.cached == 0 && Total(book') == 1 && !Indexed(s'.account, book')
  {
    var empty := Account(map[Root := 0], 0, 0);
    var s := TreeRace(empty, [Resting]);
    var s1, s2 := TreeRace(empty, [Checked(path, 1)]), TreeRace(empty.(cached := 1), [Counted(path, 1)]);
    var s3 := TreeRace(empty, [Counted(path, 1)]);
    var book: Book := map[];
    EmptyBook();
    EmptyScan(book);
    var s4, book4 := Moved(s3, book, Record(0)), MovedBook(s3, book, Record(0));
    TotalUpdate(book, path, 1);
    MoveFirst(s3, book, Record(0), [], s4, book4);
    MoveFirst(s2, book, Atomic(Rescan([])), [Record(0)], s3, book);
    MoveFirst(s1, book, Count(0), [Atomic(Rescan([])), Record(0)], s2, book);
    MoveFirst(s, book, Compare(0, path, 1, true), [Count(0), Atomic(Rescan([])), Record(0)], s1, book);
    var moves := [Compare(0, path, 1, true), Count(0), Atomic(Rescan([])), Record(0)];
    assert moves == [Compare(0, path, 1, true)] + [Count(0), Atomic(Rescan([])), Record(0)];
    assert [Count(0)] + [Atomic(Rescan([])), Record(0)] == [Count(0), Atomic(Rescan([])), Record(0)];
    assert [Atomic(Rescan([]))] + [Record(0)] == [Atomic(Rescan([])), Record(0)];
    assert [Record(0)] + [] == [Record(0)];
  }

  lemma EmptyScan(book: Book)
    requires book == map[]
    ensures ScanSum([], Root) == 0 && Apply(Account(map[Root := 0], 1, 0), Rescan([])) == Account(map[Root := 0], 0, 0)
    ensures ScanBook([]) == book
  {
  }

  lemma MoveFirst(s: TreeRace, book: Book, m: Move, rest: seq<Move>, s': TreeRace, book': Book)
    requires CanMove(s, book, m) && s' == Moved(s, book, m) && book' == MovedBook(s, book, m)
    requires CanMoveAll(s', book', rest)
    ensures CanMoveAll(s, book, [m] + rest) && MovedAll(s, book, [m] + rest) == MovedAll(s', book', rest)
  {
    assert ([m] + rest)[1..] == rest;
  }

  // ----- the race of the totals alone, seen in the race with the tree

  function TaskOf(g: Growth): Task {
    if g.Checked? then Granted(g.delta) else Idle
  }

  function Projected(s: TreeRace): Race {
    Race(s.account.cached, s.account.limit, seq(|s.growths|, i requires 0 <= i < |s.growths| => TaskOf(s.growths[i])))
  }

  /** Growths are not ignorant and of at most `maxDelta`; other operations leave the limit and only lower the
      total. */
  ghost predicate Bounded(s: TreeRace, book: Book, m: Move, maxDelta: nat)
    requires CanMove(s, book, m)
  {
    match m
    case Compare(_, _, delta, ignorant) => !ignorant && delta <= maxDelta
    case Atomic(op) =>
      var a' := Apply(s.account, op);
      a'.limit == s.account.limit && a'.cached <= s.account.cached
    case _ => true
  }

  /** The step of the smaller race a move is, if it is one. */
  ghost function StepsOf(s: TreeRace, book: Book, m: Move): seq<Step>
    requires CanMove(s, book, m)
  {
    match m
    case Compare(i, _, delta, _) => [Check(i, delta)]
    case Count(i) => [Add(i)]
    case Record(_) => []
    case Atomic(op) =>
      var before, after := s.account.cached, Apply(s.account, op).cached;
      if after < before then [Release(before - after)] else []
  }

  lemma MoveProjects(s: TreeRace, book: Book, m: Move, maxDelta: nat)
    requires CanMove(s, book, m) && Bounded(s, book, m, maxDelta)
    ensures EnabledAll(Projected(s), StepsOf(s, book, m), maxDelta)
    ensures PerformAll(Projected(s), StepsOf(s, book, m), maxDelta) == Projected(Moved(s, book, m))
  {
    var p, p', steps := Projected(s), Projected(Moved(s, book, m)), StepsOf(s, book, m);
    if steps == [] {
      assert p.tasks == p'.tasks;
    } else {
      assert steps[1..] == [];
      assert Perform(p, steps[0], maxDelta).tasks == p'.tasks;
      assert PerformAll(Perform(p, steps[0], maxDelta), [], maxDelta) == Perform(p, steps[0], maxDelta);
    }
  }

  lemma {:induction false} PerformAppend(s: Race, a: seq<Step>, b: seq<Step>, maxDelta: nat)
    requires EnabledAll(s, a, maxDelta) && EnabledAll(PerformAll(s, a, maxDelta), b, maxDelta)
    ensures EnabledAll(s, a + b, maxDelta)
    ensures PerformAll(s, a + b, maxDelta) == PerformAll(PerformAll(s, a, maxDelta), b, maxDelta)
    decreases |a|
  {
    if a == [] {
      assert a + b == b;
    } else {
      assert (a + b)[1..] == a[1..] + b;
      PerformAppend(Perform(s, a[0], maxDelta), a[1..], b, maxDelta);
    }
  }

  ghost predicate BoundedAll(s: TreeRace, book: Book, moves: seq<Move>, maxDelta: nat)
    requires CanMoveAll(s, book, moves)
    decreases |moves|
  {
    moves == [] ||
    (Bounded(s, book, moves[0], maxDelta)
     && BoundedAll(Moved(s, book, moves[0]), MovedBook(s, book, moves[0]), moves[1..], maxDelta))
  }

  /** Every run of the race with the tree is, in its totals, a run of the smaller race. */
  lemma {:induction false} RaceProjects(s: TreeRace, book: Book, moves: seq<Move>, maxDelta: nat) returns (steps: seq<Step>)
    requires CanMoveAll(s, book, moves) && BoundedAll(s, book, moves, maxDelta)
    ensures EnabledAll(Projected(s), steps, maxDelta)
    ensures PerformAll(Projected(s), steps, maxDelta) == Projected(MovedAll(s, book, moves).0)
    decreases |moves|
  {
    if moves == [] {
      steps := [];
    } else {
      MoveProjects(s, book, moves[0], maxDelta);
      var rest := RaceProjects(Moved(s, book, moves[0]), MovedBook(s, book, moves[0]), moves[1..], maxDelta);
      steps := StepsOf(s, book, moves[0]) + rest;
      PerformAppend(Projected(s), StepsOf(s, book, moves[0]), rest, maxDelta);
    }
  }

  /** So the bound on the overshoot holds with the tree and the other operations in it. */
  lemma TreeRaceOvershoot(s: TreeRace, book: Book, moves: seq<Move>, maxDelta: nat)
    requires s.growths != [] && AllResting(s.growths)
    requires 0 < s.account.limit && s.account.cached <= s.account.limit
    requires s.account.limit + |s.growths| * maxDelta <= I64_MAX
    requires CanMoveAll(s, book, moves) && BoundedAll(s, book, moves, maxDelta)
    ensures MovedAll(s, book, moves).0.account.cached <= s.account.limit + (|s.growths| - 1) * maxDelta
  {
    var steps := RaceProjects(s, book, moves, maxDelta);
    ProjectedOvershoot(s, MovedAll(s, book, moves).0, steps, maxDelta);
  }

  lemma ProjectedOvershoot(s: TreeRace, s': TreeRace, steps: seq<Step>, maxDelta: nat)
    requires s.growths != [] && AllResting(s.growths)
    requires 0 < s.account.limit && s.account.cached <= s.account.limit
    requires s.account.limit + |s.growths| * maxDelta <= I64_MAX
    requires EnabledAll(Projected(s), steps, maxDelta) && PerformAll(Projected(s), steps, maxDelta) == Projected(s')
    ensures s'.account.cached <= s.account.limit + (|s.growths| - 1) * maxDelta
  {
    RestingRace(Projected(s), |s.growths|, steps, maxDelta);
  }

  lemma RestingRace(p: Race, n: nat, steps: seq<Step>, maxDelta: nat)
    requires n > 0 && |p.tasks| == n && (forall i :: 0 <= i < n ==> p.tasks[i].Idle?)
    requires 0 < p.limit && p.cached <= p.limit && p.limit + n * maxDelta <= I64_MAX
    requires EnabledAll(p, steps, maxDelta)
    ensures PerformAll(p, steps, maxDelta).cached <= p.limit + (n - 1) * maxDelta
  {
    OvershootBound(p, steps, maxDelta);
  }
}
