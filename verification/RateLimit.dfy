/**
 The fixed-window limiter (ratelimit/ratelimit.go) on one key: a counter that Redis increments, and expires a
 window after it was created.
 */
module RateLimit {

  /**
   A script run at a millisecond of Redis's clock; `late` says that a counter expiring in that very millisecond
   is gone.
   */
  datatype Hit = Hit(time: int, late: bool)

  /** A counted hit: which counting window it fell into, when that window opened, and the count it got. */
  datatype Entry = Entry(time: int, window: nat, opening: int, n: nat)

  /** The counter made by the window of `last` no longer exists. A window of no length deletes the counter at once. */
  predicate Expired(last: Entry, hit: Hit, window: int) {
    window <= 0 || hit.time > last.opening + window || (hit.time == last.opening + window && hit.late)
  }

  function Record(log: seq<Entry>, hit: Hit, window: int): (e: Entry) {
    if log == [] then Entry(hit.time, 0, hit.time, 1)
    else
      var last := log[|log| - 1];
      if Expired(last, hit, window) then Entry(hit.time, last.window + 1, hit.time, 1)
      else Entry(hit.time, last.window, last.opening, last.n + 1)
  }

  /** The log of any sequence of hits. */
  function Log(hits: seq<Hit>, window: int): (log: seq<Entry>)
    ensures |log| == |hits|
  {
    if hits == [] then []
    else
      var before := Log(hits[..|hits| - 1], window);
      before + [Record(before, hits[|hits| - 1], window)]
  }

  ghost predicate ClockForward(hits: seq<Hit>) {
    forall i, j :: 0 <= i < j < |hits| ==> hits[i].time <= hits[j].time
  }

  // ---------------------------------------------------------------- shape of the log

  /**
   How the entry `b` stands to an earlier entry `a`: windows do not overlap, and a window between two takes its
   full length.
   */
  ghost predicate After(a: Entry, b: Entry, window: int) {
    && a.time <= b.time && a.window <= b.window && b.opening <= b.time
    && (a.window == b.window ==> a.opening == b.opening)
    && (a.window < b.window ==> b.opening >= a.time && b.opening >= a.opening + window)
    && (a.window + 1 < b.window ==> b.opening >= a.time + window)
  }

  ghost predicate Spaced(log: seq<Entry>, window: int) {
    && (forall i :: 0 <= i < |log| ==>
        log[i].opening <= log[i].time && (log[i].n == 1 ==> log[i].time == log[i].opening))
    && (forall i, j :: 0 <= i < j < |log| ==> After(log[i], log[j], window))
  }

  lemma {:induction false} LogIsSpaced(hits: seq<Hit>, window: int)
    requires ClockForward(hits)
    ensures Spaced(Log(hits, window), window)
    ensures hits != [] ==> Log(hits, window)[|hits| - 1].time == hits[|hits| - 1].time
    decreases |hits|
  {
    if hits != [] {
      var init := hits[..|hits| - 1];
      var log := Log(init, window);
      LogIsSpaced(init, window);
      var e := Record(log, hits[|hits| - 1], window);
      if init != [] {
        var last := log[|log| - 1];
        assert last.time == init[|init| - 1].time <= e.time;
        assert After(last, e, window);
        forall i | 0 <= i < |log| ensures After(log[i], e, window) {
          assert i < |log| - 1 ==> After(log[i], last, window);
        }
      }
    }
  }

  lemma {:induction false} LogAt(hits: seq<Hit>, window: int, i: nat)
    requires i < |hits|
    ensures Log(hits, window)[..i] == Log(hits[..i], window)
    ensures Log(hits, window)[i] == Record(Log(hits[..i], window), hits[i], window)
    decreases |hits|
  {
    var n := |hits| - 1;
    if i < n {
      LogAt(hits[..n], window, i);
      assert hits[..n][..i] == hits[..i];
      assert Log(hits, window)[..n] == Log(hits[..n], window);
    }
  }

  /** Hit `i` is counted in the window of the hit before it. */
  predicate Joins(log: seq<Entry>, i: nat)
    requires 1 <= i < |log|
  {
    && log[i].window == log[i - 1].window && log[i].opening == log[i - 1].opening && log[i].n == log[i - 1].n + 1
  }

  predicate Opens(log: seq<Entry>, i: nat)
    requires 1 <= i < |log|
  {
    log[i].window == log[i - 1].window + 1 && log[i].opening == log[i].time && log[i].n == 1
  }

  /**
   A window lasts its full length and no longer, however many hits fall into it: a hit joins the window of the
   one before exactly if that opened less than a window ago, or just a window ago where the counter is still
   there; else it opens the next one.
   */
  lemma WindowsEnd(hits: seq<Hit>, window: int, i: nat)
    requires 1 <= i < |hits|
    ensures var log := Log(hits, window);
      var due := log[i - 1].opening + window;
      && log[i].time == hits[i].time
      && (Joins(log, i) <==> window > 0 && (hits[i].time < due || (hits[i].time == due && !hits[i].late)))
      && (Joins(log, i) || Opens(log, i))
  {
    LogAt(hits, window, i);
    assert Log(hits, window)[..i][i - 1] == Log(hits, window)[i - 1];
  }

  /** Hits counted in a window. */
  function Hits(log: seq<Entry>, k: nat): (n: nat) {
    if log == [] then 0 else Hits(log[..|log| - 1], k) + (if log[|log| - 1].window == k then 1 else 0)
  }

  /** Those with a count from `lo` to `hi`. */
  function Tally(log: seq<Entry>, k: nat, lo: int, hi: int): (n: nat) {
    if log == [] then 0
    else
      var e := log[|log| - 1];
      Tally(log[..|log| - 1], k, lo, hi) + (if e.window == k && lo <= e.n <= hi then 1 else 0)
  }

  lemma {:induction false} LastCount(hits: seq<Hit>, window: int, k: nat)
    ensures var log := Log(hits, window);
      log != [] ==> var last := log[|log| - 1];
        (k == last.window ==> Hits(log, k) == last.n) && (k > last.window ==> Hits(log, k) == 0)
    decreases |hits|
  {
    if hits != [] {
      var init := hits[..|hits| - 1];
      LastCount(init, window, k);
      assert Log(hits, window)[..|init|] == Log(init, window);
    }
  }

  /** The counts within a window are 1, 2, 3, ... up to the number of its hits. */
  lemma {:induction false} TallyIs(hits: seq<Hit>, window: int, k: nat, lo: int, hi: int)
    requires lo >= 1
    ensures var m := Hits(Log(hits, window), k);
      var top := if m < hi then m else hi;
      Tally(Log(hits, window), k, lo, hi) == if top < lo then 0 else top - lo + 1
    decreases |hits|
  {
    if hits != [] {
      var init := hits[..|hits| - 1];
      TallyIs(init, window, k, lo, hi);
      LastCount(init, window, k);
      LastCount(hits, window, k);
      assert Log(hits, window)[..|init|] == Log(init, window);
    }
  }

  /** The verdict on a counted hit. */
  predicate Allowed(e: Entry, limit: int) {
    e.n <= limit
  }

  /** A counting window admits its first `limit` hits, no more and no fewer. */
  lemma WindowAdmits(hits: seq<Hit>, window: int, k: nat, limit: int)
    ensures Tally(Log(hits, window), k, 1, limit) ==
            if limit <= 0 then 0 else if Hits(Log(hits, window), k) < limit then Hits(Log(hits, window), k) else limit
  {
    TallyIs(hits, window, k, 1, limit);
  }

  /** A hit is refused exactly when its own window has admitted `limit` hits before it. */
  lemma RefusedIff(hits: seq<Hit>, window: int, limit: int)
    requires hits != []
    ensures var log := Log(hits, window);
      var last := log[|log| - 1];
      !Allowed(last, limit) <==> Tally(log[..|log| - 1], last.window, 1, limit) >= limit
  {
    var init := hits[..|hits| - 1];
    var last := Log(hits, window)[|hits| - 1];
    assert Log(hits, window)[..|init|] == Log(init, window);
    WindowAdmits(init, window, last.window, limit);
    LastCount(hits, window, last.window);
  }

  // ---------------------------------------------------------------- sliding intervals

  /** Hits admitted at times in [from, to). */
  function Admitted(log: seq<Entry>, from: int, to: int, limit: int): (n: nat) {
    if log == [] then 0
    else
      var e := log[|log| - 1];
      Admitted(log[..|log| - 1], from, to, limit) + (if from <= e.time < to && Allowed(e, limit) then 1 else 0)
  }

  /** Every admitted hit of the interval is counted in window `k` from `lo` on, or in the next window. */
  lemma {:induction false} AdmittedAtMost(log: seq<Entry>, from: int, to: int, limit: int, k: nat, lo: int)
    requires forall e :: e in log && from <= e.time < to && Allowed(e, limit) ==>
      (e.window == k && lo <= e.n) || (e.window == k + 1 && 1 <= e.n)
    ensures Admitted(log, from, to, limit) <= Tally(log, k, lo, limit) + Tally(log, k + 1, 1, limit)
    decreases |log|
  {
    if log != [] { AdmittedAtMost(log[..|log| - 1], from, to, limit, k, lo); }
  }

  lemma {:induction false} NoneAdmitted(log: seq<Entry>, from: int, to: int, limit: int)
    requires forall e :: e in log ==> !(from <= e.time < to && Allowed(e, limit))
    ensures Admitted(log, from, to, limit) == 0
    decreases |log|
  {
    if log != [] { NoneAdmitted(log[..|log| - 1], from, to, limit); }
  }

  lemma {:induction false} CountsPositive(hits: seq<Hit>, window: int)
    ensures forall e :: e in Log(hits, window) ==> e.n >= 1
    decreases |hits|
  {
    if hits != [] { CountsPositive(hits[..|hits| - 1], window); }
  }

  /** The first entry of an interval. */
  lemma {:induction false} FirstIn(log: seq<Entry>, from: int, to: int) returns (i: nat)
    requires exists e :: e in log && from <= e.time < to
    ensures i < |log| && from <= log[i].time < to
    ensures forall j :: 0 <= j < i ==> !(from <= log[j].time < to)
    decreases |log|
  {
    var init := log[..|log| - 1];
    if exists e :: e in init && from <= e.time < to {
      i := FirstIn(init, from, to);
      assert forall j :: 0 <= j < i ==> init[j] == log[j];
    } else {
      i := |log| - 1;
      assert forall j :: 0 <= j < i ==> init[j] == log[j] && init[j] in init;
    }
  }

  /**
   However the counting windows lie, any half-open interval of a window's length admits fewer than two limits.
   Two windows that meet in it leave the hit that opened the first one outside.
   */
  lemma IntervalBound(hits: seq<Hit>, window: int, limit: int, from: int)
    requires ClockForward(hits)
    ensures limit <= 0 ==> Admitted(Log(hits, window), from, from + window, limit) == 0
    ensures limit > 0 ==> Admitted(Log(hits, window), from, from + window, limit) <= 2 * limit - 1
  {
    CountsPositive(hits, window);
    LogIsSpaced(hits, window);
    forall k: nat, lo: int | lo >= 1 ensures Tally(Log(hits, window), k, lo, limit) <= Room(lo, limit) {
      TallyIs(hits, window, k, lo, limit);
    }
    IntervalBoundOf(Log(hits, window), window, limit, from);
  }

  function Room(lo: int, hi: int): (n: nat) {
    if hi < lo then 0 else hi - lo + 1
  }

  lemma IntervalBoundOf(log: seq<Entry>, window: int, limit: int, from: int)
    requires Spaced(log, window) && forall e :: e in log ==> e.n >= 1
    requires forall k: nat, lo: int :: lo >= 1 ==> Tally(log, k, lo, limit) <= Room(lo, limit)
    ensures limit <= 0 ==> Admitted(log, from, from + window, limit) == 0
    ensures limit > 0 ==> Admitted(log, from, from + window, limit) <= 2 * limit - 1
  {
    var to := from + window;
    if limit <= 0 || !exists e :: e in log && from <= e.time < to {
      NoneAdmitted(log, from, to, limit);
    } else {
      var i := FirstIn(log, from, to);
      var k := log[i].window;
      assert Tally(log, k, 1, limit) <= limit && Tally(log, k, 2, limit) <= limit - 1;
      assert Tally(log, k + 1, 1, limit) <= limit;
      if j :| i < j < |log| && log[j].time < to && log[j].window > k {
        TwoWindows(log, window, from, i, j);
        AdmittedAtMost(log, from, to, limit, k, 2);
      } else {
        OneWindow(log, window, from, i);
        AdmittedInOne(log, from, to, limit, k);
      }
    }
  }

  lemma TwoWindows(log: seq<Entry>, window: int, from: int, i: nat, j: nat)
    requires Spaced(log, window) && i < j < |log| && (forall e :: e in log ==> e.n >= 1)
    requires from <= log[i].time && log[j].time < from + window && log[j].window > log[i].window
    requires forall l :: 0 <= l < i ==> !(from <= log[l].time < from + window)
    ensures forall e :: e in log && from <= e.time < from + window ==>
      (e.window == log[i].window && e.n >= 2) || e.window == log[i].window + 1
  {
    assert After(log[i], log[j], window);
    forall l | 0 <= l < |log| && from <= log[l].time < from + window
      ensures (log[l].window == log[i].window && log[l].n >= 2) || log[l].window == log[i].window + 1
    {
      assert l == i || (i < l && After(log[i], log[l], window));
      assert log[l] in log;
    }
  }

  lemma OneWindow(log: seq<Entry>, window: int, from: int, i: nat)
    requires Spaced(log, window) && i < |log|
    requires forall l :: 0 <= l < i ==> !(from <= log[l].time < from + window)
    requires forall j :: i < j < |log| && log[j].time < from + window ==> log[j].window <= log[i].window
    ensures forall e :: e in log && from <= e.time < from + window ==> e.window == log[i].window
  {
    forall l | 0 <= l < |log| && from <= log[l].time < from + window ensures log[l].window == log[i].window {
      assert l == i || (i < l && After(log[i], log[l], window));
    }
  }

  lemma {:induction false} AdmittedInOne(log: seq<Entry>, from: int, to: int, limit: int, k: nat)
    requires forall e :: e in log && from <= e.time < to ==> e.window == k
    requires forall e :: e in log ==> e.n >= 1
    ensures Admitted(log, from, to, limit) <= Tally(log, k, 1, limit)
    decreases |log|
  {
    if log != [] { AdmittedInOne(log[..|log| - 1], from, to, limit, k); }
  }

  // ---------------------------------------------------------------- the bound is reached

  function Burst(time: int, late: bool, n: nat): (hits: seq<Hit>) {
    seq(n, _ => Hit(time, late))
  }

  /** `n` more hits at `time` while the last window is alive. */
  lemma {:induction false} BurstLogged(hits: seq<Hit>, all: seq<Hit>, window: int, time: int, n: nat, last: Entry,
                                       from: int, to: int, limit: int)
    requires hits != [] && Log(hits, window)[|hits| - 1] == last && all == hits + Burst(time, true, n)
    requires last.opening <= time < last.opening + window && last.n + n <= limit && from <= time < to
    ensures var log := Log(all, window);
      && (log[|log| - 1] == if n == 0 then last else Entry(time, last.window, last.opening, last.n + n))
      && Admitted(log, from, to, limit) == Admitted(Log(hits, window), from, to, limit) + n
    decreases n
  {
    if n == 0 {
      assert all == hits;
    } else {
      var before := hits + Burst(time, true, n - 1);
      BurstLogged(hits, before, window, time, n - 1, last, from, to, limit);
      BurstSnoc(hits, time, n);
      if n == 1 {
        OneMore(before, window, time, last, from, to, limit);
      } else {
        OneMore(before, window, time, Entry(time, last.window, last.opening, last.n + n - 1), from, to, limit);
      }
    }
  }

  lemma BurstSnoc(hits: seq<Hit>, time: int, n: nat)
    requires n > 0
    ensures hits + Burst(time, true, n) == hits + Burst(time, true, n - 1) + [Hit(time, true)]
  {
  }

  lemma OneMore(hits: seq<Hit>, window: int, time: int, last: Entry, from: int, to: int, limit: int)
    requires hits != [] && Log(hits, window)[|hits| - 1] == last
    requires last.opening <= time < last.opening + window && last.n + 1 <= limit && from <= time < to
    ensures var log := Log(hits + [Hit(time, true)], window);
      && log[|log| - 1] == Entry(time, last.window, last.opening, last.n + 1)
      && Admitted(log, from, to, limit) == Admitted(Log(hits, window), from, to, limit) + 1
  {
    var log := Log(hits, window);
    LogOne(hits, Hit(time, true), window);
    AdmittedOne(log, Record(log, Hit(time, true), window), from, to, limit);
  }

  lemma LogOne(hits: seq<Hit>, hit: Hit, window: int)
    ensures Log(hits + [hit], window) == Log(hits, window) + [Record(Log(hits, window), hit, window)]
  {
    assert (hits + [hit])[..|hits|] == hits;
  }

  lemma AdmittedOne(log: seq<Entry>, e: Entry, from: int, to: int, limit: int)
    ensures Admitted(log + [e], from, to, limit) ==
            Admitted(log, from, to, limit) + (if from <= e.time < to && Allowed(e, limit) then 1 else 0)
  {
    assert (log + [e])[..|log|] == log;
  }

  /** One hit, then the rest of the limit at the end of its window, then a whole limit at the start of the next. */
  lemma IntervalBoundIsTight(window: int, limit: nat) returns (hits: seq<Hit>)
    requires window >= 2 && limit >= 1
    ensures ClockForward(hits) && Admitted(Log(hits, window), window - 1, window - 1 + window, limit) == 2 * limit - 1
  {
    var from, to := window - 1, window - 1 + window;
    var first := [Hit(0, true)];
    FirstLogged(window, first, from, to, limit);
    var before := ThenBurst(first, window, window - 1, limit - 1, Entry(0, 0, 0, 1), from, to, limit);
    var next := before + [Hit(window, true)];
    var e := OpenWindow(before, next, window, limit, from, to);
    hits := ThenBurst(next, window, window, limit - 1, e, from, to, limit);
  }

  lemma FirstLogged(window: int, hits: seq<Hit>, from: int, to: int, limit: int)
    requires hits == [Hit(0, true)] && from > 0
    ensures Log(hits, window) == [Entry(0, 0, 0, 1)] && Admitted(Log(hits, window), from, to, limit) == 0
  {
    assert [] + [Hit(0, true)] == hits;
    LogOne([], Hit(0, true), window);
    AdmittedOne([], Entry(0, 0, 0, 1), from, to, limit);
    assert [] + [Entry(0, 0, 0, 1)] == [Entry(0, 0, 0, 1)];
  }

  /** A run with its last window alive goes on with `n` hits at one time. */
  lemma ThenBurst(hits: seq<Hit>, window: int, time: int, n: nat, last: Entry, from: int, to: int, limit: int)
    returns (more: seq<Hit>)
    requires hits != [] && Log(hits, window)[|hits| - 1] == last
    requires last.opening <= time < last.opening + window && last.n + n <= limit && from <= time < to
    requires ClockForward(hits) && forall h :: h in hits ==> h.time <= time
    ensures more != [] && ClockForward(more) && forall h :: h in more ==> h.time <= time
    ensures Log(more, window)[|more| - 1].opening == last.opening
    ensures Admitted(Log(more, window), from, to, limit) == Admitted(Log(hits, window), from, to, limit) + n
  {
    more := hits + Burst(time, true, n);
    BurstLogged(hits, more, window, time, n, last, from, to, limit);
    BurstForward(hits, Burst(time, true, n), time);
  }

  lemma BurstForward(hits: seq<Hit>, burst: seq<Hit>, time: int)
    requires ClockForward(hits) && forall h :: h in hits ==> h.time <= time
    requires forall h :: h in burst ==> h.time == time
    ensures ClockForward(hits + burst) && forall h :: h in hits + burst ==> h.time <= time
  {
    var all := hits + burst;
    forall i, j | 0 <= i < j < |all| ensures all[i].time <= all[j].time {
      assert i < |hits| ==> all[i] == hits[i] && hits[i] in hits;
      assert i >= |hits| ==> all[i] == burst[i - |hits|] && burst[i - |hits|] in burst;
      assert j >= |hits| ==> all[j] == burst[j - |hits|] && burst[j - |hits|] in burst;
    }
  }

  /** The hit that finds the first window over. */
  lemma OpenWindow(hits: seq<Hit>, next: seq<Hit>, window: int, limit: nat, from: int, to: int) returns (e: Entry)
    requires hits != [] && window >= 2 && limit >= 1 && from <= window < to
    requires ClockForward(hits) && forall h :: h in hits ==> h.time <= window - 1
    requires next == hits + [Hit(window, true)] && Log(hits, window)[|hits| - 1].opening == 0
    ensures Log(next, window)[|hits|] == e && e.opening == e.time == window && e.n == 1
    ensures ClockForward(next) && forall h :: h in next ==> h.time <= window
    ensures Admitted(Log(next, window), from, to, limit) == Admitted(Log(hits, window), from, to, limit) + 1
  {
    e := Record(Log(hits, window), Hit(window, true), window);
    LogOne(hits, Hit(window, true), window);
    AdmittedOne(Log(hits, window), e, from, to, limit);
    BurstForward(hits, [Hit(window, true)], window);
  }

  // ---------------------------------------------------------------- Allow

  /** What became of a script run: executed and answered, executed with the answer lost, or not executed. */
  datatype Run = Answered | Unanswered | NotRun

  /** The counter in Redis is that of the last window. */
  ghost predicate Shows(hits: seq<Hit>, window: int, alive: bool, count: nat, expiresAt: int) {
    && (alive <==> hits != [] && window > 0)
    && (alive ==> var last := Log(hits, window)[|hits| - 1]; count == last.n && expiresAt == last.opening + window)
  }

  lemma ShowsNext(hits: seq<Hit>, hit: Hit, window: int, alive: bool, count: nat, expiresAt: int)
    requires Shows(hits, window, alive, count, expiresAt)
    ensures if !alive || hit.time > expiresAt || (hit.time == expiresAt && hit.late)
      then Shows(hits + [hit], window, window > 0, 1, hit.time + window) && Log(hits + [hit], window)[|hits|].n == 1
      else Shows(hits + [hit], window, true, count + 1, expiresAt) && Log(hits + [hit], window)[|hits|].n == count + 1
  {
    LogOne(hits, hit, window);
  }

  /** The Redis key of one limiter. */
  class Key {
    var alive: bool
    var count: nat
    var expiresAt: int
    ghost var hits: seq<Hit>
    ghost const window: int

    ghost predicate Valid()
      reads this
    {
      ClockForward(hits) && Shows(hits, window, alive, count, expiresAt)
    }

    constructor (ghost window: int)
      ensures Valid() && hits == [] && this.window == window
    {
      alive, count, expiresAt, hits, this.window := false, 0, 0, [], window;
    }

    /** The script: INCR, and PEXPIRE on a fresh counter. */
    method IncrExpire(hit: Hit, millis: int) returns (n: nat)
      requires Valid() && millis == window && forall h :: h in hits ==> h.time <= hit.time
      modifies this
      ensures Valid() && hits == old(hits) + [hit] && n == Log(hits, window)[|hits| - 1].n
    {
      ghost var all := hits + [hit];
      ShowsNext(hits, hit, window, alive, count, expiresAt);
      BurstForward(hits, [hit], hit.time);
      if !alive || hit.time > expiresAt || (hit.time == expiresAt && hit.late) {
        n := 1;
        alive, expiresAt := millis > 0, hit.time + millis;
      } else {
        n := count + 1;
      }
      count, hits := n, all;
    }
  }

  /**
   `Allow`. Fails open: without Redis, or without an answer, the request passes. With an answer it passes
   exactly when its count in the current window is within the limit.
   */
  method Allow(key: Key?, limit: int, millis: int, hit: Hit, run: Run) returns (ok: bool, failed: bool)
    requires key != null ==> key.Valid() && millis == key.window && forall h :: h in key.hits ==> h.time <= hit.time
    modifies key
    ensures key == null ==> ok && !failed
    ensures key != null ==> key.Valid() && failed == !run.Answered?
    ensures key != null ==> key.hits == if run.NotRun? then old(key.hits) else old(key.hits) + [hit]
    ensures key != null ==> ok == (failed || Log(key.hits, key.window)[|key.hits| - 1].n <= limit)
  {
    if key == null {
      return true, false;
    }
    if run.NotRun? {
      return true, true;
    }
    var n := key.IncrExpire(hit, millis);
    if run.Unanswered? {
      return true, true;
    }
    return n <= limit, false;
  }
}
