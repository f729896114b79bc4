/** The limit on console lines: after `lines` lines within one interval the rest are dropped. */
module Throttle {
  datatype Limits = Limits(enabled: bool, lines: nat, interval: nat)

  datatype Window = Window(counter: nat, start: real)

  /** One line arrives. `now` is the clock at the comparison, `later` at the reset that may follow it. */
  function Step(limits: Limits, w: Window, now: real, later: real): (Window, bool) {
    var counter := w.counter + 1;
    if limits.enabled && limits.interval > 0 && counter >= limits.lines then
      if now - w.start < limits.interval as real then (Window(counter, w.start), false) else (Window(0, later), true)
    else
      (Window(counter, w.start), true)
  }

  class Throttle {
    const limits: Limits
    var counter: nat
    var start: real

    ghost function State(): Window
      reads this
    {
      Window(counter, start)
    }

    constructor (limits: Limits, now: real)
      ensures this.limits == limits && State() == Window(0, now)
    {
      this.limits := limits;
      counter, start := 0, now;
    }

    method AllowRatelimit(now: real, later: real) returns (allow: bool)
      modifies this
      ensures (State(), allow) == Step(limits, old(State()), now, later)
    {
      counter := counter + 1;
      if limits.enabled && limits.interval > 0 && counter >= limits.lines {
        if now - start < limits.interval as real {
          return false;
        } else {
          counter := 0;
          start := later;
        }
      }
      return true;
    }
  }

  // ----- whole runs

  /** The two clock readings of one call. */
  datatype Call = Call(now: real, later: real)

  predicate Monotone(calls: seq<Call>, from: real) {
    calls == [] || (from <= calls[0].now <= calls[0].later && Monotone(calls[1..], calls[0].later))
  }

  function End(calls: seq<Call>, from: real): real {
    if calls == [] then from else calls[|calls| - 1].later
  }

  /** How many lines a run lets through. */
  function Passed(limits: Limits, w: Window, calls: seq<Call>): nat
    decreases |calls|
  {
    if calls == [] then 0
    else
      var (w', allow) := Step(limits, w, calls[0].now, calls[0].later);
      (if allow then 1 else 0) + Passed(limits, w', calls[1..])
  }

  /** How many lines one window lets through: the line that opens it and up to `lines` - 1 more. */
  function PerWindow(limits: Limits): nat {
    if limits.lines == 0 then 1 else limits.lines
  }

  /** What is left of the current window's share. */
  function Left(limits: Limits, w: Window): nat {
    if w.counter < PerWindow(limits) - 1 then PerWindow(limits) - 1 - w.counter else 0
  }

  /** A run that ends at `end` opens at most `resets` further windows, where that many intervals fit
      between the start of the current one and `end`. */
  lemma {:induction false} PassedBound(limits: Limits, w: Window, calls: seq<Call>, from: real, resets: nat)
    requires limits.enabled && limits.interval > 0
    requires w.start <= from && Monotone(calls, from)
    requires End(calls, from) - w.start < (resets + 1) as real * limits.interval as real
    ensures Passed(limits, w, calls) <= Left(limits, w) + resets * PerWindow(limits)
    decreases |calls|
  {
    if calls != [] {
      var c := calls[0];
      var (w', allow) := Step(limits, w, c.now, c.later);
      EndOfTail(calls, from);
      if c.now - w.start >= limits.interval as real && w.counter + 1 >= limits.lines {
        NotBefore(calls[1..], c.later);
        OneInterval(resets, limits.interval as real);
        assert resets > 0;
        PassedBound(limits, w', calls[1..], c.later, resets - 1);
        assert resets * PerWindow(limits) == (resets - 1) * PerWindow(limits) + PerWindow(limits);
      } else {
        PassedBound(limits, w', calls[1..], c.later, resets);
      }
    }
  }

  lemma EndOfTail(calls: seq<Call>, from: real)
    requires calls != []
    ensures End(calls, from) == End(calls[1..], calls[0].later)
  {
  }

  lemma {:induction false} NotBefore(calls: seq<Call>, from: real)
    requires Monotone(calls, from)
    ensures from <= End(calls, from)
    decreases |calls|
  {
    if calls != [] {
      NotBefore(calls[1..], calls[0].later);
      EndOfTail(calls, from);
    }
  }

  lemma OneInterval(resets: nat, interval: real)
    ensures (resets + 1) as real * interval == resets as real * interval + interval
  {
  }

  /** A run of T seconds lets at most `lines` times (floor(T / interval) + 1) lines through, and one less. */
  lemma RunBound(limits: Limits, calls: seq<Call>, from: real)
    requires limits.enabled && limits.interval > 0 && limits.lines >= 1 && Monotone(calls, from)
    ensures
      var windows := ((End(calls, from) - from) / limits.interval as real).Floor;
      Passed(limits, Window(0, from), calls) <= limits.lines * (windows + 1) - 1
  {
    var interval := limits.interval as real;
    var span := End(calls, from) - from;
    NotBefore(calls, from);
    FloorBound(span, interval);
    var windows := (span / interval).Floor;
    PassedBound(limits, Window(0, from), calls, from, windows);
    assert limits.lines * (windows + 1) == windows * limits.lines + limits.lines;
  }

  lemma FloorBound(span: real, interval: real)
    requires span >= 0.0 && interval > 0.0
    ensures (span / interval).Floor >= 0
    ensures span < ((span / interval).Floor + 1) as real * interval
  {
    var q := span / interval;
    assert q >= 0.0;
    assert q < (q.Floor + 1) as real;
    assert q * interval == span;
  }

  /** Nothing is dropped while the throttle is off, or before `lines` lines came in a window. */
  lemma {:induction false} FewLinesPass(limits: Limits, w: Window, calls: seq<Call>)
    requires !limits.enabled || limits.interval == 0 || w.counter + |calls| < limits.lines
    ensures Passed(limits, w, calls) == |calls|
    decreases |calls|
  {
    if calls != [] {
      FewLinesPass(limits, Step(limits, w, calls[0].now, calls[0].later).0, calls[1..]);
    }
  }

  // ----- what is let through

  /** Each line comes less than `interval` seconds after `start`. */
  predicate AllWithin(calls: seq<Call>, start: real, interval: nat) {
    forall i :: 0 <= i < |calls| ==> calls[i].now - start < interval as real
  }

  function Least(a: int, b: nat): nat {
    if a < 0 then 0 else if a < b then a else b
  }

  /** While the interval lasts, a window lets exactly the first lines through, as many as are missing to one less
      than `lines`; the window stays open for what follows. */
  lemma {:induction false} WindowShare(limits: Limits, counter: nat, start: real, calls: seq<Call>, more: seq<Call>)
    requires limits.enabled && limits.interval > 0 && AllWithin(calls, start, limits.interval)
    ensures Passed(limits, Window(counter, start), calls + more)
         == Least(limits.lines - 1 - counter, |calls|) + Passed(limits, Window(counter + |calls|, start), more)
    decreases |calls|
  {
    if calls == [] {
      assert calls + more == more;
    } else {
      assert (calls + more)[1..] == calls[1..] + more;
      WindowShare(limits, counter + 1, start, calls[1..], more);
    }
  }

  /** A line that comes when `lines` are reached and the interval is over is let through and opens a window of its
      own: while the interval after it lasts, `lines` - 1 more lines are let through. */
  lemma DueLineReopens(limits: Limits, counter: nat, start: real, due: Call, calls: seq<Call>)
    requires limits.enabled && limits.interval > 0
    requires counter + 1 >= limits.lines && due.now - start >= limits.interval as real
    requires AllWithin(calls, due.later, limits.interval)
    ensures Passed(limits, Window(counter, start), [due] + calls) == 1 + Least(limits.lines - 1, |calls|)
  {
    assert ([due] + calls)[1..] == calls;
    assert calls + [] == calls;
    WindowShare(limits, 0, due.later, calls, []);
  }

  /** The lines before `lines` are reached leave the window's start where it is, however late they come. */
  lemma {:induction false} EarlyLinesKeepWindow(
      limits: Limits, counter: nat, start: real, calls: seq<Call>, more: seq<Call>)
    requires limits.enabled && limits.interval > 0 && counter + |calls| < limits.lines
    ensures Passed(limits, Window(counter, start), calls + more)
         == |calls| + Passed(limits, Window(counter + |calls|, start), more)
    decreases |calls|
  {
    if calls == [] {
      assert calls + more == more;
    } else {
      assert (calls + more)[1..] == calls[1..] + more;
      EarlyLinesKeepWindow(limits, counter + 1, start, calls[1..], more);
    }
  }

  /** Each line comes at least `interval` seconds after the one before it, the first after `last`. */
  predicate Spaced(calls: seq<Call>, last: real, interval: nat) {
    calls == [] || (
      && calls[0].now - last >= interval as real && calls[0].now <= calls[0].later
      && Spaced(calls[1..], calls[0].later, interval))
  }

  /** Lines that come an interval apart are all let through, however many came before. */
  lemma {:induction false} SpacedLinesPass(limits: Limits, counter: nat, start: real, calls: seq<Call>, last: real)
    requires start <= last && Spaced(calls, last, limits.interval)
    ensures Passed(limits, Window(counter, start), calls) == |calls|
    decreases |calls|
  {
    if calls != [] {
      var (w, _) := Step(limits, Window(counter, start), calls[0].now, calls[0].later);
      SpacedLinesPass(limits, w.counter, w.start, calls[1..], calls[0].later);
    }
  }

  /** A throttle that has dropped lines lets one through as soon as the interval is over, and from then on
      loses none of the next `lines` - 1. */
  lemma ThrottleRecovers(limits: Limits, counter: nat, start: real, dropped: seq<Call>, due: Call, calls: seq<Call>)
    requires limits.enabled && limits.interval > 0 && limits.lines >= 1
    requires AllWithin(dropped, start, limits.interval) && counter + 1 >= limits.lines
    requires due.now - start >= limits.interval as real && |calls| < limits.lines
    ensures Passed(limits, Window(counter, start), dropped + [due] + calls) == 1 + |calls|
  {
    Regrouped(dropped, [due], calls);
    WindowShare(limits, counter, start, dropped, [due] + calls);
    assert ([due] + calls)[1..] == calls;
    FewLinesPass(limits, Window(0, due.later), calls);
  }

  lemma Regrouped(a: seq<Call>, b: seq<Call>, c: seq<Call>)
    ensures a + b + c == a + (b + c)
  {}
}
