/** The rate-limited readers. The limited writer counts writes by the same algorithm. */
module RateLimiter {
  import opened Common

  /** The window's start and the bytes read since. */
  datatype Window = Window(start: real, count: nat)

  /** The bytes the elapsed time pays for. */
  function Allowed(rate: nat, elapsed: real): int {
    (elapsed * rate as real).Floor
  }

  /** How long a read that begins at `now` sleeps. */
  function Delay(rate: nat, w: Window, now: real): real
    requires rate > 0
  {
    var elapsed := now - w.start;
    var allowed := Allowed(rate, elapsed);
    if w.count >= allowed && elapsed < 1.0 then
      var sleep := (w.count - allowed) as real / rate as real;
      var maxSleep := 1.0 - elapsed;
      if sleep < maxSleep then sleep else maxSleep
    else
      0.0
  }

  predicate Resets(w: Window, now: real) {
    now - w.start >= 1.0
  }

  /** The window after a read of `n` bytes whose reset is decided at `now`. */
  function Counted(w: Window, now: real, n: nat): Window {
    if Resets(w, now) then Window(now, 0) else Window(w.start, w.count + n)
  }

  class LimitedReader {
    const bytesPerSecond: nat
    var lastReadTime: real
    var bytesReadSinceLastCheck: nat

    ghost function State(): Window
      reads this
    {
      Window(lastReadTime, bytesReadSinceLastCheck)
    }

    constructor (bytesPerSecond: nat, now: real)
      ensures this.bytesPerSecond == bytesPerSecond && State() == Window(now, 0)
    {
      this.bytesPerSecond := bytesPerSecond;
      lastReadTime, bytesReadSinceLastCheck := now, 0;
    }

    /** One read into a buffer of `len` bytes, beginning at `now`; `inner` is what the inner reader
        answers once the returned time has been slept. */
    method Read(len: nat, now: real, inner: Option<nat>) returns (r: Option<nat>, slept: real)
      modifies this
      ensures len == 0 || bytesPerSecond == 0 ==> State() == old(State()) && slept == 0.0
      ensures len == 0 ==> r == Some(0)
      ensures len > 0 ==> r == inner
      ensures len > 0 && bytesPerSecond > 0 ==>
                && slept == Delay(bytesPerSecond, old(State()), now)
                && State() == (if inner.Some? then Counted(old(State()), now, inner.value) else old(State()))
    {
      slept := 0.0;
      if len == 0 {
        return Some(0), slept;
      }
      if bytesPerSecond == 0 {
        return inner, slept;
      }
      var elapsed := now - lastReadTime;
      var bytesAllowed := Allowed(bytesPerSecond, elapsed);
      if bytesReadSinceLastCheck >= bytesAllowed {
        if elapsed < 1.0 {
          var bytesOver := bytesReadSinceLastCheck - bytesAllowed;
          var sleepSecs := bytesOver as real / bytesPerSecond as real;
          var maxSleep := 1.0 - elapsed;
          slept := if sleepSecs < maxSleep then sleepSecs else maxSleep;
        }
      }
      if inner.None? {
        return None, slept;
      }
      bytesReadSinceLastCheck := bytesReadSinceLastCheck + inner.value;
      if now - lastReadTime >= 1.0 {
        lastReadTime := now;
        bytesReadSinceLastCheck := 0;
      }
      return inner, slept;
    }
  }

  // ----- whole runs

  /** One read: when it began, when the inner reader was asked, and the bytes it gave. */
  datatype Read = Read(now: real, woke: real, n: nat)

  /** Reads of at most `most` bytes one after the other; each sleeps at least as long as it should. */
  ghost predicate IsRun(rate: nat, w: Window, from: real, run: seq<Read>, most: nat)
    requires rate > 0
    decreases |run|
  {
    run == [] ||
    (var r := run[0];
     && from <= r.now
     && r.now + Delay(rate, w, r.now) <= r.woke
     && r.n <= most
     && IsRun(rate, Counted(w, r.now, r.n), r.woke, run[1..], most))
  }

  function BytesRead(run: seq<Read>): nat {
    if run == [] then 0 else run[0].n + BytesRead(run[1..])
  }

  function LastNow(run: seq<Read>, from: real): real {
    if run == [] then from else run[|run| - 1].now
  }

  /** What holds after a read that finished at `t`: the bytes counted are paid for by the time since the
      window began, but for the last read; or a second has passed and the next read resets. */
  ghost predicate Paid(rate: nat, w: Window, t: real, most: nat) {
    && w.start <= t
    && w.count <= rate + 2 * most
    && (t - w.start >= 1.0 || w.count as real <= (t - w.start) * rate as real + most as real)
  }

  lemma MulMonotone(a: real, b: real, r: real)
    requires a <= b && r >= 0.0
    ensures a * r <= b * r
  {
  }

  lemma FractionOf(x: real, r: real)
    requires x <= 1.0 && r >= 0.0
    ensures x * r <= r
  {
    MulMonotone(x, 1.0, r);
  }

  lemma DivTimes(a: real, r: real)
    requires r > 0.0
    ensures (a / r) * r == a
  {
  }

  lemma SleepPays(rate: nat, w: Window, now: real, woke: real)
    requires rate > 0 && w.start <= now && now - w.start < 1.0
    requires now + Delay(rate, w, now) <= woke
    ensures woke >= now
    ensures woke - w.start >= 1.0 || w.count as real <= (woke - w.start) * rate as real
  {
    var e, r := now - w.start, rate as real;
    var allowed := Allowed(rate, e);
    assert allowed as real <= e * r;
    if w.count >= allowed {
      var sleep := (w.count - allowed) as real / r;
      DivTimes((w.count - allowed) as real, r);
      if sleep < 1.0 - e {
        assert sleep >= 0.0;
        MulMonotone(e + sleep, woke - w.start, r);
        assert (e + sleep) * r == e * r + sleep * r;
      }
    } else {
      MulMonotone(e, woke - w.start, r);
    }
  }

  /** The sleep is the least one after which the bytes counted are paid for or the second is over. */
  lemma DelayIsLeast(rate: nat, w: Window, now: real, d: real)
    requires rate > 0 && d >= 0.0
    ensures Delay(rate, w, now) <= d
       <==> (w.count as real <= ((now - w.start) * rate as real).Floor as real + d * rate as real
             || now + d - w.start >= 1.0)
  {
    LeastDelay(rate, w, now, d, d * rate as real, ((now - w.start) * rate as real).Floor);
  }

  lemma LeastDelay(rate: nat, w: Window, now: real, d: real, paid: real, allowed: int)
    requires rate > 0 && d >= 0.0 && paid == d * rate as real && allowed == Allowed(rate, now - w.start)
    ensures Delay(rate, w, now) <= d <==> w.count as real <= allowed as real + paid || now + d - w.start >= 1.0
  {
    var elapsed, over := now - w.start, w.count - allowed;
    QuotientAtMost(over as real, d, rate as real);
    NotNegative(d, rate as real);
    assert over >= 0 && elapsed < 1.0 ==> Delay(rate, w, now) == Lesser(over as real / rate as real, 1.0 - elapsed);
  }

  function Lesser(a: real, b: real): real {
    if a < b then a else b
  }

  lemma NotNegative(a: real, b: real)
    requires a >= 0.0 && b >= 0.0
    ensures a * b >= 0.0
  {
  }

  /** The window after a run of reads. */
  function AfterRun(w: Window, run: seq<Read>): Window
    decreases |run|
  {
    if run == [] then w else AfterRun(Counted(w, run[0].now, run[0].n), run[1..])
  }

  /** Reads that begin within a second of the window's start are counted in it, and the first that begins later
      empties it and starts it anew. */
  lemma {:induction false} ReadsAreCounted(w: Window, run: seq<Read>, late: Read)
    requires forall i :: 0 <= i < |run| ==> run[i].now - w.start < 1.0
    requires late.now - w.start >= 1.0
    ensures AfterRun(w, run) == Window(w.start, w.count + BytesRead(run))
    ensures AfterRun(w, run + [late]) == Window(late.now, 0)
    decreases |run|
  {
    if run == [] {
      assert run + [late] == [late] && [late][1..] == [];
    } else {
      ReadsAreCounted(Counted(w, run[0].now, run[0].n), run[1..], late);
      assert (run + [late])[1..] == run[1..] + [late];
    }
  }

  lemma Cancel(a: real, b: real, r: real)
    requires r > 0.0
    ensures a * r <= b * r <==> a <= b
  {
    var c := b - a;
    assert c * r == b * r - a * r;
  }

  lemma QuotientAtMost(over: real, d: real, r: real)
    requires r > 0.0
    ensures over / r <= d <==> over <= d * r
  {
    var q := over / r;
    DivTimes(over, r);
    assert q * r == over;
    Cancel(q, d, r);
  }

  lemma PaidCount(rate: nat, w: Window, t: real, most: nat)
    requires Paid(rate, w, t, most) && t - w.start < 1.0
    ensures w.count <= rate + most
  {
    var elapsed, r := t - w.start, rate as real;
    var paid := elapsed * r;
    assert w.count as real <= paid + most as real;
    FractionOf(elapsed, r);
    BoundedCount(w.count, paid, rate, most);
  }

  lemma BoundedCount(count: nat, paid: real, rate: nat, most: nat)
    requires count as real <= paid + most as real && paid <= rate as real
    ensures count <= rate + most
  {
    assert count as real <= (rate + most) as real;
  }

  lemma FreshWindowPaid(rate: nat, start: real, t: real, most: nat)
    requires start <= t
    ensures Paid(rate, Window(start, 0), t, most)
  {
    assert (t - start) * rate as real >= 0.0;
  }

  lemma ReadKeepsPaid(rate: nat, w: Window, t: real, now: real, woke: real, n: nat, most: nat)
    requires rate > 0 && Paid(rate, w, t, most) && t <= now && now + Delay(rate, w, now) <= woke && n <= most
    ensures Paid(rate, Counted(w, now, n), woke, most)
  {
    DelayNotNegative(rate, w, now);
    if Resets(w, now) {
      FreshWindowPaid(rate, now, woke, most);
    } else {
      PaidCount(rate, w, t, most);
      SleepPays(rate, w, now, woke);
      var paid := (woke - w.start) * rate as real;
      assert woke - w.start >= 1.0 || (w.count + n) as real <= paid + most as real;
    }
  }

  /** The bytes that pass between two resets, the resetting read's own included. */
  function PerWindow(rate: nat, most: nat): nat {
    rate + 3 * most
  }

  /** A run whose last read begins less than `resets` + 1 seconds after the window did. */
  lemma {:induction false} RunPaysPerWindow(rate: nat, w: Window, from: real, run: seq<Read>, most: nat, resets: nat)
    requires rate > 0 && Paid(rate, w, from, most) && IsRun(rate, w, from, run, most)
    requires LastNow(run, from) - w.start < (resets + 1) as real || run == []
    ensures w.count + BytesRead(run) <= (resets + 1) * PerWindow(rate, most)
    decreases |run|
  {
    if run == [] {
      Multiples(resets, PerWindow(rate, most));
    } else {
      var r := run[0];
      var w' := Counted(w, r.now, r.n);
      ReadKeepsPaid(rate, w, from, r.now, r.woke, r.n, most);
      LaterReads(rate, w, from, run, most);
      if Resets(w, r.now) {
        if run[1..] == [] {
          Multiples(resets, PerWindow(rate, most));
        } else {
          assert LastNow(run[1..], r.woke) == LastNow(run, from);
          assert resets > 0;
          RunPaysPerWindow(rate, w', r.woke, run[1..], most, resets - 1);
          Multiples(resets, PerWindow(rate, most));
        }
      } else {
        RunPaysPerWindow(rate, w', r.woke, run[1..], most, resets);
      }
    }
  }

  lemma Multiples(k: nat, m: nat)
    ensures (k + 1) * m == k * m + m && k * m >= 0
    ensures k > 0 ==> (k - 1 + 1) * m == k * m
  {
  }

  lemma {:induction false} LaterReads(rate: nat, w: Window, from: real, run: seq<Read>, most: nat)
    requires rate > 0 && run != [] && w.start <= from && IsRun(rate, w, from, run, most)
    ensures from <= run[0].now <= LastNow(run, from)
    decreases |run|
  {
    var r := run[0];
    assert Delay(rate, w, r.now) >= 0.0 by {
      DelayNotNegative(rate, w, r.now);
    }
    if |run| > 1 {
      LaterReads(rate, Counted(w, r.now, r.n), r.woke, run[1..], most);
    }
  }

  lemma DelayNotNegative(rate: nat, w: Window, now: real)
    requires rate > 0
    ensures Delay(rate, w, now) >= 0.0
  {
    var over := w.count - Allowed(rate, now - w.start);
    if over >= 0 {
      assert over as real / rate as real >= 0.0;
    }
  }

  lemma Commute(a: int, b: int)
    ensures a * b == b * a
  {
  }

  /** Resets are at least a second apart, so a run whose last read begins T seconds after the reader was
      made passes at most (rate + 3 * most) * (floor(T) + 1) bytes, however long the sleeps overrun. */
  lemma ThroughputBound(rate: nat, start: real, run: seq<Read>, most: nat)
    requires rate > 0 && IsRun(rate, Window(start, 0), start, run, most)
    ensures LastNow(run, start) >= start
    ensures BytesRead(run) <= (rate + 3 * most) * ((LastNow(run, start) - start).Floor + 1)
  {
    if run != [] {
      LaterReads(rate, Window(start, 0), start, run, most);
    }
    var seconds := (LastNow(run, start) - start).Floor;
    RunPaysPerWindow(rate, Window(start, 0), start, run, most, seconds);
    Commute(seconds + 1, PerWindow(rate, most));
  }

  // ----- the asynchronous reader

  /** The delay an asynchronous read computes; none when the bytes counted are paid for. */
  function CalculateDelay(rate: nat, w: Window, now: real): Option<real>
    requires rate > 0
  {
    var elapsed := now - w.start;
    var allowed := Allowed(rate, elapsed);
    if w.count > allowed && elapsed < 1.0 then
      var sleep := (w.count - allowed) as real / rate as real;
      var maxSleep := 1.0 - elapsed;
      Some(if sleep < maxSleep then sleep else maxSleep)
    else
      None
  }

  /** An asynchronous read waits exactly when, within the second, more bytes are counted than the time since the
      window began pays for; and it waits the least time after which they are paid for or the second is over. */
  lemma AsyncDelayIsLeast(rate: nat, w: Window, now: real, d: real)
    requires rate > 0 && d >= 0.0
    ensures var delay, allowed := CalculateDelay(rate, w, now), ((now - w.start) * rate as real).Floor;
            && (delay.Some? <==> w.count > allowed && now - w.start < 1.0)
            && (delay.Some? ==>
                  && delay.value > 0.0
                  && (delay.value <= d <==>
                      w.count as real <= allowed as real + d * rate as real || now + d - w.start >= 1.0))
  {
    LeastAsyncDelay(rate, w, now, d, d * rate as real, ((now - w.start) * rate as real).Floor);
  }

  lemma LeastAsyncDelay(rate: nat, w: Window, now: real, d: real, paid: real, allowed: int)
    requires rate > 0 && d >= 0.0 && paid == d * rate as real && allowed == Allowed(rate, now - w.start)
    ensures var delay := CalculateDelay(rate, w, now);
            && (delay.Some? <==> w.count > allowed && now - w.start < 1.0)
            && (delay.Some? ==>
                  && delay.value > 0.0
                  && (delay.value <= d <==> w.count as real <= allowed as real + paid || now + d - w.start >= 1.0))
  {
    var delay, elapsed, over := CalculateDelay(rate, w, now), now - w.start, w.count - allowed;
    if over > 0 {
      QuotientAtMost(over as real, d, rate as real);
      QuotientAtMost(over as real, 0.0, rate as real);
      assert delay.Some? ==> delay.value == Lesser(over as real / rate as real, 1.0 - elapsed);
    }
  }

  /** A read the inner reader answered: no delay was due at `now`, and the counters were checked at `checked`. */
  datatype AsyncRead = AsyncRead(now: real, checked: real, n: nat)

  ghost predicate IsAsyncRun(rate: nat, w: Window, from: real, run: seq<AsyncRead>, most: nat)
    requires rate > 0
    decreases |run|
  {
    run == [] ||
    (var r := run[0];
     && from <= r.now <= r.checked
     && CalculateDelay(rate, w, r.now).None?
     && r.n <= most
     && IsAsyncRun(rate, Counted(w, r.checked, r.n), r.checked, run[1..], most))
  }

  function AsyncBytesRead(run: seq<AsyncRead>): nat {
    if run == [] then 0 else run[0].n + AsyncBytesRead(run[1..])
  }

  function LastChecked(run: seq<AsyncRead>, from: real): real {
    if run == [] then from else run[|run| - 1].checked
  }

  lemma NoDelayMeansPaid(rate: nat, w: Window, now: real)
    requires rate > 0 && w.start <= now && CalculateDelay(rate, w, now).None? && now - w.start < 1.0
    ensures w.count <= rate
  {
    FractionOf(now - w.start, rate as real);
  }

  lemma {:induction false} LaterChecks(rate: nat, w: Window, from: real, run: seq<AsyncRead>, most: nat)
    requires rate > 0 && IsAsyncRun(rate, w, from, run, most)
    ensures from <= LastChecked(run, from)
    ensures run != [] ==> run[0].checked <= LastChecked(run, from)
    decreases |run|
  {
    if run != [] {
      LaterChecks(rate, Counted(w, run[0].checked, run[0].n), run[0].checked, run[1..], most);
    }
  }

  lemma {:induction false} AsyncRunPaysPerWindow(rate: nat, w: Window, from: real, run: seq<AsyncRead>, most: nat, resets: nat)
    requires rate > 0 && w.start <= from && w.count <= rate + most && IsAsyncRun(rate, w, from, run, most)
    requires LastChecked(run, from) - w.start < (resets + 1) as real || run == []
    ensures w.count + AsyncBytesRead(run) <= (resets + 1) * (rate + 2 * most)
    decreases |run|
  {
    Multiples(resets, rate + 2 * most);
    if run != [] {
      var r := run[0];
      var w' := Counted(w, r.checked, r.n);
      LaterChecks(rate, w, from, run, most);
      if Resets(w, r.checked) {
        if run[1..] != [] {
          assert LastChecked(run[1..], r.checked) == LastChecked(run, from);
          AsyncRunPaysPerWindow(rate, w', r.checked, run[1..], most, resets - 1);
        }
      } else {
        NoDelayMeansPaid(rate, w, r.now);
        AsyncRunPaysPerWindow(rate, w', r.checked, run[1..], most, resets);
      }
    }
  }

  /** The asynchronous reader checks its delay again before every read, and so passes at most
      (rate + 2 * most) * (floor(T) + 1) bytes in T seconds. */
  lemma AsyncThroughputBound(rate: nat, start: real, run: seq<AsyncRead>, most: nat)
    requires rate > 0 && IsAsyncRun(rate, Window(start, 0), start, run, most)
    ensures LastChecked(run, start) >= start
    ensures AsyncBytesRead(run) <= (rate + 2 * most) * ((LastChecked(run, start) - start).Floor + 1)
  {
    LaterChecks(rate, Window(start, 0), start, run, most);
    var seconds := (LastChecked(run, start) - start).Floor;
    AsyncRunPaysPerWindow(rate, Window(start, 0), start, run, most, seconds);
    Commute(seconds + 1, rate + 2 * most);
  }
}
