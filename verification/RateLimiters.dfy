/** The three rate limiters, each with the bound it really enforces. Times are whole milliseconds of a
    clock that does not run backwards. */
module RateLimiters {
  import opened Results

  /** Request times in order, none later than `now`. */
  ghost predicate Clocked(times: seq<int>, now: int)
  {
    times == [] ||
    var n := |times| - 1;
    times[n] <= now && Clocked(times[..n], times[n])
  }

  /** How many of some times lie in the closed interval from a to b. */
  function CountIn(times: seq<int>, a: int, b: int): nat
  {
    if times == [] then 0
    else CountIn(times[..|times| - 1], a, b) + (if a <= times[|times| - 1] <= b then 1 else 0)
  }

  lemma CountSnoc(times: seq<int>, t: int, a: int, b: int)
    ensures CountIn(times + [t], a, b) == CountIn(times, a, b) + if a <= t <= b then 1 else 0
  {
    assert (times + [t])[..|times|] == times;
  }

  lemma {:induction false} CountSplit(times: seq<int>, a: int, m: int, b: int)
    requires a <= m <= b + 1
    ensures CountIn(times, a, b) == CountIn(times, a, m - 1) + CountIn(times, m, b)
  {
    if times != [] { CountSplit(times[..|times| - 1], a, m, b); }
  }

  lemma {:induction false} CountUpTo(times: seq<int>, a: int, b: int, b': int)
    requires Clocked(times, b) && b <= b'
    ensures CountIn(times, a, b) == CountIn(times, a, b')
    ensures a > b ==> CountIn(times, a, b') == 0
  {
    if times != [] {
      var n := |times| - 1;
      ClockedLater(times[..n], times[n], b);
      CountUpTo(times[..n], a, b, b');
    }
  }

  lemma {:induction false} CountWider(times: seq<int>, a: int, b: int, a': int, b': int)
    requires a' <= a && b <= b'
    ensures CountIn(times, a, b) <= CountIn(times, a', b')
  {
    if times != [] { CountWider(times[..|times| - 1], a, b, a', b'); }
  }

  lemma ClockedLater(times: seq<int>, now: int, later: int)
    requires Clocked(times, now) && now <= later
    ensures Clocked(times, later)
  {}

  lemma ClockedSnoc(times: seq<int>, t: int, now: int)
    requires Clocked(times, t) && t <= now
    ensures Clocked(times + [t], now)
  {
    assert (times + [t])[..|times|] == times;
  }

  // ---- sliding-window log (services/relayer/fee-manager/index.ts:55-64) ----

  /** A limiter's new state for one client, and its answer. */
  datatype Decision<S> = Decision(state: S, ok: bool)

  /** A limiter's state after a run, and the times it admitted. */
  datatype Outcome<S> = Outcome(state: S, admitted: seq<int>)

  function Record<S>(o: Outcome<S>, d: Decision<S>, now: int): Outcome<S>
  {
    Outcome(d.state, if d.ok then o.admitted + [now] else o.admitted)
  }

  /** The hits after `after`, oldest first. */
  function Recent(log: seq<int>, after: int): seq<int>
  {
    if log == [] then []
    else Recent(log[..|log| - 1], after) + (if log[|log| - 1] > after then [log[|log| - 1]] else [])
  }

  /** One request at `now`: the pruned log is stored only when the request is admitted. */
  function LogStep(log: seq<int>, now: int, maxHits: int, windowMs: nat): Decision<seq<int>>
  {
    var recent := Recent(log, now - windowMs);
    if |recent| >= maxHits then Decision(log, false) else Decision(recent + [now], true)
  }

  class FeeManager {
    const maxPerWindow: int
    const windowMs: nat
    var hits: map<string, seq<int>>

    constructor (maxPerWindow: int, windowMs: nat)
      ensures hits == map[] && this.maxPerWindow == maxPerWindow && this.windowMs == windowMs
    {
      this.maxPerWindow, this.windowMs, hits := maxPerWindow, windowMs, map[];
    }

    function LogOf(key: string): seq<int>
      reads this
    {
      if key in hits then hits[key] else []
    }

    method AssertWithinRate(key: string, now: int) returns (ok: bool)
      modifies this
      ensures Decision(LogOf(key), ok) == LogStep(old(LogOf(key)), now, maxPerWindow, windowMs)
      ensures forall k :: k != key ==> LogOf(k) == old(LogOf(k))
      ensures !ok ==> hits == old(hits)
    {
      var window := now - windowMs;
      var log := LogOf(key);
      var recent: seq<int> := [];
      for i := 0 to |log|
        invariant recent == Recent(log[..i], window)
      {
        assert log[..i + 1][..i] == log[..i];
        if log[i] > window { recent := recent + [log[i]]; }
      }
      assert log[..|log|] == log;
      if |recent| >= maxPerWindow { return false; }
      hits := hits[key := recent + [now]];
      ok := true;
    }
  }

  /** A run of requests of one client, oldest first. */
  function LogRun(times: seq<int>, maxHits: int, windowMs: nat): Outcome<seq<int>>
  {
    if times == [] then Outcome([], [])
    else
      var n := |times| - 1;
      var before := LogRun(times[..n], maxHits, windowMs);
      Record(before, LogStep(before.state, times[n], maxHits, windowMs), times[n])
  }

  lemma RecentSnoc(log: seq<int>, t: int, after: int)
    ensures Recent(log + [t], after) == Recent(log, after) + if t > after then [t] else []
  {
    assert (log + [t])[..|log|] == log;
  }

  /** Pruning earlier loses nothing a later look would keep. */
  lemma {:induction false} RecentTwice(log: seq<int>, early: int, late: int)
    requires early <= late
    ensures Recent(Recent(log, early), late) == Recent(log, late)
  {
    if log != [] {
      var n := |log| - 1;
      RecentTwice(log[..n], early, late);
      var kept := Recent(log[..n], early);
      RecentSnoc(kept, log[n], late);
      assert kept + [] == kept && Recent(log[..n], late) + [] == Recent(log[..n], late);
    }
  }

  lemma {:induction false} RecentIsCount(times: seq<int>, after: int, upTo: int)
    requires Clocked(times, upTo)
    ensures |Recent(times, after)| == CountIn(times, after + 1, upTo)
  {
    if times != [] {
      var n := |times| - 1;
      ClockedLater(times[..n], times[n], upTo);
      RecentIsCount(times[..n], after, upTo);
    }
  }

  /** The stored, pruned log answers every present and future window like the full history of admissions. */
  lemma {:induction false} LogMatchesHistory(times: seq<int>, maxHits: int, windowMs: nat, now: int)
    requires Clocked(times, now)
    ensures var r := LogRun(times, maxHits, windowMs);
            Recent(r.state, now - windowMs) == Recent(r.admitted, now - windowMs) && Clocked(r.admitted, now)
  {
    if times != [] {
      hide LogStep, Recent, Record;
      var n := |times| - 1;
      LogMatchesHistory(times[..n], maxHits, windowMs, times[n]);
      LogStepMatches(LogRun(times[..n], maxHits, windowMs), times[n], now, maxHits, windowMs);
    }
  }

  lemma LogStepMatches(o: Outcome<seq<int>>, t: int, now: int, maxHits: int, windowMs: nat)
    requires Recent(o.state, t - windowMs) == Recent(o.admitted, t - windowMs) && Clocked(o.admitted, t) && t <= now
    ensures var r := Record(o, LogStep(o.state, t, maxHits, windowMs), t);
            Recent(r.state, now - windowMs) == Recent(r.admitted, now - windowMs) && Clocked(r.admitted, now)
  {
    hide Recent;
    LogMatchesLater(o.state, o.admitted, t - windowMs, now - windowMs);
    ClockedLater(o.admitted, t, now);
    ClockedSnoc(o.admitted, t, now);
    RecentTwice(o.state, t - windowMs, now - windowMs);
    RecentSnoc(Recent(o.state, t - windowMs), t, now - windowMs);
    RecentSnoc(o.admitted, t, now - windowMs);
  }

  lemma LogMatchesLater(a: seq<int>, b: seq<int>, early: int, late: int)
    requires early <= late && Recent(a, early) == Recent(b, early)
    ensures Recent(a, late) == Recent(b, late)
  {
    RecentTwice(a, early, late);
    RecentTwice(b, early, late);
  }

  /** A request is admitted exactly when fewer than the maximum were admitted in the last window. */
  lemma LogAdmitsExactly(times: seq<int>, now: int, maxHits: int, windowMs: nat)
    requires Clocked(times, now)
    ensures var r := LogRun(times, maxHits, windowMs);
            LogStep(r.state, now, maxHits, windowMs).ok <==> CountIn(r.admitted, now - windowMs + 1, now) < maxHits
  {
    hide Recent, CountIn, LogRun, Clocked;
    LogMatchesHistory(times, maxHits, windowMs, now);
    RecentIsCount(LogRun(times, maxHits, windowMs).admitted, now - windowMs, now);
  }

  /** No stretch of one window length ever holds more than the maximum. */
  lemma {:induction false} LogBound(times: seq<int>, now: int, a: int, maxHits: nat, windowMs: nat)
    requires Clocked(times, now)
    ensures CountIn(LogRun(times, maxHits, windowMs).admitted, a, a + windowMs - 1) <= maxHits
  {
    if times != [] {
      hide LogStep, Record, CountIn;
      var n := |times| - 1;
      LogBound(times[..n], times[n], a, maxHits, windowMs);
      LogAdmitsExactly(times[..n], times[n], maxHits, windowMs);
      LogMatchesHistory(times[..n], maxHits, windowMs, times[n]);
      LogBoundStep(LogRun(times[..n], maxHits, windowMs), times[n], a, maxHits, windowMs);
    }
  }

  lemma LogBoundStep(o: Outcome<seq<int>>, t: int, a: int, maxHits: nat, windowMs: nat)
    requires CountIn(o.admitted, a, a + windowMs - 1) <= maxHits && Clocked(o.admitted, t)
    requires LogStep(o.state, t, maxHits, windowMs).ok <==> CountIn(o.admitted, t - windowMs + 1, t) < maxHits
    ensures CountIn(Record(o, LogStep(o.state, t, maxHits, windowMs), t).admitted, a, a + windowMs - 1) <= maxHits
  {
    hide LogStep, CountIn;
    var end := a + windowMs - 1;
    CountSnoc(o.admitted, t, a, end);
    if a <= t <= end {
      CountUpTo(o.admitted, a, t, end);
      CountWider(o.admitted, a, t, t - windowMs + 1, t);
    }
  }

  // ---- fixed window (services/relayer/api/index.ts:44-57) ----

  datatype Window = Window(count: int, resetAt: int)

  function WindowStep(e: Option<Window>, now: int, maxHits: int, windowMs: nat): Decision<Option<Window>>
  {
    if e.None? || now > e.value.resetAt then Decision(Some(Window(1, now + windowMs)), true)
    else if e.value.count >= maxHits then Decision(e, false)
    else Decision(Some(Window(e.value.count + 1, e.value.resetAt)), true)
  }

  class FixedWindowLimiter {
    const maxHits: int
    const windowMs: nat
    var hits: map<string, Window>

    constructor (maxHits: int, windowMs: nat)
      ensures hits == map[] && this.maxHits == maxHits && this.windowMs == windowMs
    {
      this.maxHits, this.windowMs, hits := maxHits, windowMs, map[];
    }

    function WindowOf(key: string): Option<Window>
      reads this
    {
      if key in hits then Some(hits[key]) else None
    }

    method Allow(key: string, now: int) returns (ok: bool)
      modifies this
      ensures Decision(WindowOf(key), ok) == WindowStep(old(WindowOf(key)), now, maxHits, windowMs)
      ensures forall k :: k != key ==> WindowOf(k) == old(WindowOf(k))
      ensures !ok ==> hits == old(hits)
    {
      if key !in hits || now > hits[key].resetAt {
        hits := hits[key := Window(1, now + windowMs)];
        return true;
      }
      if hits[key].count >= maxHits { return false; }
      hits := hits[key := Window(hits[key].count + 1, hits[key].resetAt)];
      ok := true;
    }
  }

  function WindowRun(times: seq<int>, maxHits: int, windowMs: nat): Outcome<Option<Window>>
  {
    if times == [] then Outcome(None, [])
    else
      var n := |times| - 1;
      var before := WindowRun(times[..n], maxHits, windowMs);
      Record(before, WindowStep(before.state, times[n], maxHits, windowMs), times[n])
  }

  /** A new window always admits its first request. */
  function Cap(maxHits: int): nat
  {
    if maxHits < 1 then 1 else maxHits
  }

  function StartOf(e: Option<Window>, windowMs: nat): int
    requires e.Some?
  {
    e.value.resetAt - windowMs
  }

  /** The count of the current window is the number of admissions since its start, the first of which
      is the start; and the window before it leaves all but its first admission, at most, within one
      length of that start. */
  ghost predicate WindowBooks(o: Outcome<Option<Window>>, now: int, cap: nat, windowMs: nat)
  {
    && Clocked(o.admitted, now)
    && (o.state.None? ==> o.admitted == [])
    && (o.state.Some? ==>
          var start := StartOf(o.state, windowMs);
          && start <= now
          && CountIn(o.admitted, start, now) == o.state.value.count <= cap
          && CountIn(o.admitted, start + 1, now) <= o.state.value.count - 1
          && CountIn(o.admitted, start - windowMs, start - 1) <= cap - 1
          && CountIn(o.admitted, o.state.value.resetAt + 1, now) == 0)
  }

  lemma BooksLater(o: Outcome<Option<Window>>, now: int, later: int, cap: nat, windowMs: nat)
    requires WindowBooks(o, now, cap, windowMs) && now <= later
    ensures WindowBooks(o, later, cap, windowMs)
  {
    hide CountIn, Clocked;
    ClockedLater(o.admitted, now, later);
    if o.state.Some? {
      CountUpTo(o.admitted, StartOf(o.state, windowMs), now, later);
      CountUpTo(o.admitted, StartOf(o.state, windowMs) + 1, now, later);
      CountUpTo(o.admitted, o.state.value.resetAt + 1, now, later);
    }
  }

  lemma WindowStepKeepsBooks(o: Outcome<Option<Window>>, t: int, maxHits: int, windowMs: nat)
    requires WindowBooks(o, t, Cap(maxHits), windowMs)
    ensures WindowBooks(Record(o, WindowStep(o.state, t, maxHits, windowMs), t), t, Cap(maxHits), windowMs)
  {
    hide WindowBooks;
    if o.state.None? || t > o.state.value.resetAt {
      OpenedKeepsBooks(o, t, maxHits, windowMs);
    } else if o.state.value.count < maxHits {
      CountedKeepsBooks(o, t, maxHits, windowMs);
    }
  }

  lemma OpenedKeepsBooks(o: Outcome<Option<Window>>, t: int, maxHits: int, windowMs: nat)
    requires WindowBooks(o, t, Cap(maxHits), windowMs) && (o.state.None? || t > o.state.value.resetAt)
    ensures WindowBooks(Outcome(Some(Window(1, t + windowMs)), o.admitted + [t]), t, Cap(maxHits), windowMs)
  {
    hide CountIn, Clocked;
    ClockedSnoc(o.admitted, t, t);
    OpenWindow(o, t, maxHits, windowMs);
  }

  lemma CountedKeepsBooks(o: Outcome<Option<Window>>, t: int, maxHits: int, windowMs: nat)
    requires WindowBooks(o, t, Cap(maxHits), windowMs)
    requires o.state.Some? && t <= o.state.value.resetAt && o.state.value.count < maxHits
    ensures WindowBooks(Outcome(Some(Window(o.state.value.count + 1, o.state.value.resetAt)), o.admitted + [t]), t,
                        Cap(maxHits), windowMs)
  {
    hide CountIn, Clocked;
    var start := StartOf(o.state, windowMs);
    ClockedSnoc(o.admitted, t, t);
    CountSnoc(o.admitted, t, start, t);
    CountSnoc(o.admitted, t, start + 1, t);
    CountSnoc(o.admitted, t, start - windowMs, start - 1);
    CountSnoc(o.admitted, t, o.state.value.resetAt + 1, t);
  }

  lemma OpenWindow(o: Outcome<Option<Window>>, t: int, maxHits: int, windowMs: nat)
    requires WindowBooks(o, t, Cap(maxHits), windowMs) && (o.state.None? || t > o.state.value.resetAt)
    ensures CountIn(o.admitted + [t], t, t) == 1 && CountIn(o.admitted + [t], t + 1, t) == 0
    ensures CountIn(o.admitted + [t], t - windowMs, t - 1) <= Cap(maxHits) - 1
    ensures CountIn(o.admitted + [t], t + windowMs + 1, t) == 0
  {
    hide CountIn, Clocked;
    CountSnoc(o.admitted, t, t, t);
    CountSnoc(o.admitted, t, t + 1, t);
    CountSnoc(o.admitted, t, t - windowMs, t - 1);
    CountSnoc(o.admitted, t, t + windowMs + 1, t);
    CountUpTo(o.admitted, t + 1, t, t);
    CountUpTo(o.admitted, t + windowMs + 1, t, t);
    if o.state.None? {
      CountEmpty(t, t);
      CountEmpty(t - windowMs, t - 1);
    } else {
      CountWider(o.admitted, t - windowMs, t - 1, StartOf(o.state, windowMs) + 1, t);
      CountWider(o.admitted, t, t, o.state.value.resetAt + 1, t);
    }
  }

  lemma CountEmpty(a: int, b: int)
    ensures CountIn([], a, b) == 0
  {}

  lemma {:induction false} WindowBooksHold(times: seq<int>, now: int, maxHits: int, windowMs: nat)
    requires Clocked(times, now)
    ensures WindowBooks(WindowRun(times, maxHits, windowMs), now, Cap(maxHits), windowMs)
  {
    if times != [] {
      hide WindowBooks, WindowStep, Record;
      var n := |times| - 1;
      var t := times[n];
      WindowBooksHold(times[..n], t, maxHits, windowMs);
      WindowStepKeepsBooks(WindowRun(times[..n], maxHits, windowMs), t, maxHits, windowMs);
      BooksLater(WindowRun(times, maxHits, windowMs), t, now, Cap(maxHits), windowMs);
    }
  }

  /** A request is admitted exactly when the client is new, its window is over, or fewer than the maximum were admitted
      since
      the window began. */
  lemma WindowAdmitsExactly(times: seq<int>, now: int, maxHits: int, windowMs: nat)
    requires Clocked(times, now)
    ensures var r := WindowRun(times, maxHits, windowMs);
            && (r.state.None? <==> times == [])
            && (WindowStep(r.state, now, maxHits, windowMs).ok <==>
                  r.state.None? || now > StartOf(r.state, windowMs) + windowMs
                  || CountIn(r.admitted, StartOf(r.state, windowMs), now) < maxHits)
  {
    hide CountIn, Clocked;
    WindowBooksHold(times, now, maxHits, windowMs);
  }

  /** No closed interval of one window length sees more than 2 * max(1, max) - 1 admissions. */
  lemma {:induction false} WindowBound(times: seq<int>, now: int, a: int, maxHits: int, windowMs: nat)
    requires Clocked(times, now)
    ensures CountIn(WindowRun(times, maxHits, windowMs).admitted, a, a + windowMs) <= 2 * Cap(maxHits) - 1
  {
    if times != [] {
      hide WindowBooks, WindowStep, Record, CountIn;
      var n := |times| - 1;
      var t := times[n];
      WindowBound(times[..n], t, a, maxHits, windowMs);
      WindowBooksHold(times[..n], t, maxHits, windowMs);
      WindowBoundStep(WindowRun(times[..n], maxHits, windowMs), t, a, maxHits, windowMs);
    }
  }

  lemma WindowBoundStep(o: Outcome<Option<Window>>, t: int, a: int, maxHits: int, windowMs: nat)
    requires WindowBooks(o, t, Cap(maxHits), windowMs)
    requires CountIn(o.admitted, a, a + windowMs) <= 2 * Cap(maxHits) - 1
    ensures CountIn(Record(o, WindowStep(o.state, t, maxHits, windowMs), t).admitted, a,
                    a + windowMs) <= 2 * Cap(maxHits) - 1
  {
    hide CountIn, WindowBooks;
    var r, end := Record(o, WindowStep(o.state, t, maxHits, windowMs), t), a + windowMs;
    CountSnoc(o.admitted, t, a, end);
    if a <= t <= end {
      WindowStepKeepsBooks(o, t, maxHits, windowMs);
      CountInTwoWindows(r, t, a, end, Cap(maxHits), windowMs);
    } else {
      NotCounted(o, t, a, end, maxHits, windowMs);
    }
  }

  lemma NotCounted(o: Outcome<Option<Window>>, t: int, a: int, end: int, maxHits: int, windowMs: nat)
    requires !(a <= t <= end)
    ensures CountIn(Record(o, WindowStep(o.state, t, maxHits, windowMs), t).admitted, a, end)
            == CountIn(o.admitted, a, end)
  {
    CountSnoc(o.admitted, t, a, end);
  }

  lemma CountInTwoWindows(o: Outcome<Option<Window>>, t: int, a: int, end: int, cap: nat, windowMs: nat)
    requires WindowBooks(o, t, cap, windowMs) && o.state.Some? && a <= t <= end == a + windowMs && cap >= 1
    ensures CountIn(o.admitted, a, end) <= 2 * cap - 1
  {
    hide CountIn;
    var start := StartOf(o.state, windowMs);
    CountUpTo(o.admitted, a, t, end);
    if a <= start {
      CountSplit(o.admitted, a, start, t);
      CountWider(o.admitted, a, start - 1, start - windowMs, start - 1);
    } else {
      CountWider(o.admitted, a, t, start + 1, t);
    }
  }

  // The bound is reached: fill a window late, and the next one at once.

  function Repeat(t: int, k: nat): seq<int>
  {
    seq(k, _ => t)
  }

  lemma {:induction false} FillWindow(before: seq<int>, t: int, k: nat, maxHits: int, windowMs: nat, a: int, b: int)
    requires var e := WindowRun(before, maxHits, windowMs).state;
             e.Some? && t <= e.value.resetAt && e.value.count + k <= maxHits
    requires a <= t <= b
    ensures var r0, r := WindowRun(before, maxHits, windowMs), WindowRun(before + Repeat(t, k), maxHits, windowMs);
            && r.state == Some(Window(r0.state.value.count + k, r0.state.value.resetAt))
            && CountIn(r.admitted, a, b) == CountIn(r0.admitted, a, b) + k
  {
    hide CountIn;
    if k == 0 {
      assert before + Repeat(t, 0) == before;
    } else {
      FillWindow(before, t, k - 1, maxHits, windowMs, a, b);
      RunSnoc(before + Repeat(t, k - 1), t, maxHits, windowMs);
      assert before + Repeat(t, k) == before + Repeat(t, k - 1) + [t];
      CountSnoc(WindowRun(before + Repeat(t, k - 1), maxHits, windowMs).admitted, t, a, b);
    }
  }

  lemma RunSnoc(times: seq<int>, t: int, maxHits: int, windowMs: nat)
    ensures var o := WindowRun(times, maxHits, windowMs);
            WindowRun(times + [t], maxHits, windowMs) == Record(o, WindowStep(o.state, t, maxHits, windowMs), t)
  {
    assert (times + [t])[..|times|] == times;
  }

  /** First at 0, the rest of the window at its end, and a full window one millisecond later. */
  function Burst(maxHits: nat, windowMs: nat): seq<int>
    requires maxHits >= 1
  {
    [] + [0] + Repeat(windowMs, maxHits - 1) + [windowMs + 1] + Repeat(windowMs + 1, maxHits - 1)
  }

  lemma WindowBoundReached(maxHits: nat, windowMs: nat)
    requires maxHits >= 1 && windowMs >= 1
    ensures CountIn(WindowRun(Burst(maxHits, windowMs), maxHits, windowMs).admitted, 1, 1 + windowMs) == 2 * maxHits - 1
  {
    hide CountIn, WindowRun, Repeat;
    var w := windowMs;
    var first := [] + [0];
    EmptyRun(maxHits, w);
    RunSnoc([], 0, maxHits, w);
    CountSnoc([], 0, 1, 1 + w);
    CountEmpty(1, 1 + w);
    FillWindow(first, w, maxHits - 1, maxHits, w, 1, 1 + w);
    var full := first + Repeat(w, maxHits - 1);
    RunSnoc(full, w + 1, maxHits, w);
    CountSnoc(WindowRun(full, maxHits, w).admitted, w + 1, 1, 1 + w);
    FillWindow(full + [w + 1], w + 1, maxHits - 1, maxHits, w, 1, 1 + w);
  }

  lemma EmptyRun(maxHits: int, windowMs: nat)
    ensures WindowRun([], maxHits, windowMs) == Outcome(None, [])
  {}

  // ---- token bucket (zk/attestations/committee/server.ts:76-93), over the reals ----

  datatype Bucket = Bucket(tokens: real, ts: int)

  function Seconds(ms: int): real
  {
    ms as real / 1000.0
  }

  function Min(x: real, y: real): real
  {
    if x <= y then x else y
  }

  function Refilled(b: Bucket, now: int, rps: real): real
  {
    Min(rps, b.tokens + Seconds(now - b.ts) * rps)
  }

  function BucketStep(b: Option<Bucket>, now: int, rps: real): Decision<Option<Bucket>>
  {
    var tokens := Refilled(b.GetOr(Bucket(rps, now)), now, rps);
    if tokens < 1.0 then Decision(Some(Bucket(tokens, now)), false) else Decision(Some(Bucket(tokens - 1.0, now)), true)
  }

  class TokenBucketLimiter {
    const rps: real
    var buckets: map<string, Bucket>

    constructor (rps: real)
      ensures buckets == map[] && this.rps == rps
    {
      this.rps, buckets := rps, map[];
    }

    function BucketOf(key: string): Option<Bucket>
      reads this
    {
      if key in buckets then Some(buckets[key]) else None
    }

    method Allow(key: string, now: int) returns (ok: bool)
      modifies this
      ensures Decision(BucketOf(key), ok) == BucketStep(old(BucketOf(key)), now, rps)
      ensures forall k :: k != key ==> BucketOf(k) == old(BucketOf(k))
    {
      var b := if key in buckets then buckets[key] else Bucket(rps, now);
      var elapsed := Seconds(now - b.ts);
      var tokens := Min(rps, b.tokens + elapsed * rps);
      assert tokens == Refilled(old(BucketOf(key)).GetOr(Bucket(rps, now)), now, rps);
      if tokens < 1.0 {
        buckets := buckets[key := Bucket(tokens, now)];
        return false;
      }
      buckets := buckets[key := Bucket(tokens - 1.0, now)];
      ok := true;
    }
  }

  function BucketRun(times: seq<int>, rps: real): Outcome<Option<Bucket>>
  {
    if times == [] then Outcome(None, [])
    else
      var n := |times| - 1;
      var before := BucketRun(times[..n], rps);
      Record(before, BucketStep(before.state, times[n], rps), times[n])
  }

  lemma RefillAdds(t0: int, t1: int, t2: int, rps: real)
    requires rps >= 0.0
    ensures Seconds(t1 - t0) * rps + Seconds(t2 - t1) * rps == Seconds(t2 - t0) * rps
    ensures t0 <= t1 ==> Seconds(t1 - t0) * rps >= 0.0
  {
    var x, y := Seconds(t1 - t0), Seconds(t2 - t1);
    assert x + y == Seconds(t2 - t0);
    assert x * rps + y * rps == (x + y) * rps;
    if t0 <= t1 { NonNegativeProduct(x, rps); }
  }

  lemma NonNegativeProduct(x: real, y: real)
    requires x >= 0.0 && y >= 0.0
    ensures x * y >= 0.0
  {}

  /** The bucket holds between nothing and a second's worth, as of the last request. */
  ghost predicate BucketBooks(o: Outcome<Option<Bucket>>, now: int, rps: real)
  {
    && Clocked(o.admitted, now)
    && (o.state.None? ==> o.admitted == [])
    && (o.state.Some? ==> && 0.0 <= o.state.value.tokens <= rps && o.state.value.ts <= now
                          && Clocked(o.admitted, o.state.value.ts))
  }

  lemma LevelStep(b: Option<Bucket>, t: int, rps: real)
    requires rps >= 0.0 && (b.Some? ==> 0.0 <= b.value.tokens <= rps && b.value.ts <= t)
    ensures var d := BucketStep(b, t, rps);
            var spent := if d.ok then 1.0 else 0.0;
            && d.state.Some? && 0.0 <= d.state.value.tokens && d.state.value.ts == t
            && d.state.value.tokens + spent <= rps
            && (b.Some? ==> d.state.value.tokens + spent <= b.value.tokens + Seconds(t - b.value.ts) * rps)
  {
    hide Seconds;
    if b.Some? { RefillAdds(b.value.ts, t, t, rps); } else { RefillAdds(t, t, t, rps); }
  }

  /** Admissions since `a`, plus the tokens left, are paid for by one full bucket and the refill since `a`. */
  ghost predicate Paid(o: Outcome<Option<Bucket>>, a: int, end: int, rps: real)
  {
    o.state.Some? && a <= o.state.value.ts ==>
      CountIn(o.admitted, a, end) as real + o.state.value.tokens <= rps + Seconds(o.state.value.ts - a) * rps
  }

  lemma BucketStepKeepsBooks(o: Outcome<Option<Bucket>>, t: int, rps: real)
    requires BucketBooks(o, t, rps) && rps >= 0.0
    ensures BucketBooks(Record(o, BucketStep(o.state, t, rps), t), t, rps)
  {
    hide BucketStep;
    LevelStep(o.state, t, rps);
    ClockedSnoc(o.admitted, t, t);
  }

  lemma BucketStepStaysPaid(o: Outcome<Option<Bucket>>, t: int, a: int, end: int, rps: real)
    requires BucketBooks(o, t, rps) && Paid(o, a, end, rps) && rps >= 0.0 && t <= end
    ensures Paid(Record(o, BucketStep(o.state, t, rps), t), a, end, rps)
  {
    hide BucketStep, Seconds, CountIn, Clocked;
    LevelStep(o.state, t, rps);
    CountSnoc(o.admitted, t, a, end);
    if a <= t {
      RefillAdds(a, t, t, rps);
      if o.state.Some? && a <= o.state.value.ts {
        RefillAdds(a, o.state.value.ts, t, rps);
      } else if o.state.Some? {
        CountUpTo(o.admitted, a, o.state.value.ts, end);
      } else {
        CountEmpty(a, end);
      }
    }
  }

  lemma {:induction false} BucketRunPaid(times: seq<int>, now: int, a: int, end: int, rps: real)
    requires Clocked(times, now) && rps >= 0.0
    ensures BucketBooks(BucketRun(times, rps), now, rps)
    ensures now <= end ==> Paid(BucketRun(times, rps), a, end, rps)
  {
    if times != [] {
      hide BucketStep, Paid, Record;
      var n := |times| - 1;
      var t := times[n];
      BucketRunPaid(times[..n], t, a, end, rps);
      BucketStepKeepsBooks(BucketRun(times[..n], rps), t, rps);
      if now <= end { BucketStepStaysPaid(BucketRun(times[..n], rps), t, a, end, rps); }
      ClockedLater(BucketRun(times, rps).admitted, t, now);
    }
  }

  /** In any stretch of T seconds at most rps + rps * T requests are admitted. */
  lemma {:induction false} BucketBound(times: seq<int>, now: int, a: int, end: int, rps: real)
    requires Clocked(times, now) && rps >= 0.0 && a <= end
    ensures CountIn(BucketRun(times, rps).admitted, a, end) as real <= rps + Seconds(end - a) * rps
  {
    RefillAdds(a, end, end, rps);
    if times != [] {
      hide BucketStep, CountIn, Seconds, Record;
      var n := |times| - 1;
      var t := times[n];
      BucketBound(times[..n], t, a, end, rps);
      BucketRunPaid(times[..n], t, a, end, rps);
      BucketBoundStep(BucketRun(times[..n], rps), t, a, end, rps);
    }
  }

  lemma BucketBoundStep(o: Outcome<Option<Bucket>>, t: int, a: int, end: int, rps: real)
    requires BucketBooks(o, t, rps) && rps >= 0.0 && (t <= end ==> Paid(o, a, end, rps))
    requires CountIn(o.admitted, a, end) as real <= rps + Seconds(end - a) * rps
    ensures CountIn(Record(o, BucketStep(o.state, t, rps), t).admitted, a, end) as real <= rps + Seconds(end - a) * rps
  {
    hide BucketStep, CountIn, Seconds;
    CountSnoc(o.admitted, t, a, end);
    if a <= t <= end {
      BucketStepStaysPaid(o, t, a, end, rps);
      LevelStep(o.state, t, rps);
      RefillAdds(a, t, end, rps);
      RefillAdds(t, end, end, rps);
    }
  }

  /** A client that has waited long enough for a whole token is admitted again, whatever happened before. */
  lemma BucketReadmits(times: seq<int>, now: int, rps: real)
    requires times != [] && Clocked(times, now) && rps >= 1.0
    requires Seconds(now - times[|times| - 1]) * rps >= 1.0
    ensures BucketStep(BucketRun(times, rps).state, now, rps).ok
  {
    hide BucketStep, Seconds;
    var n := |times| - 1;
    BucketRunPaid(times[..n], times[n], 0, times[n], rps);
    LevelStep(BucketRun(times[..n], rps).state, times[n], rps);
    WaitedStep(BucketRun(times, rps).state.value, now, rps);
  }

  lemma WaitedStep(b: Bucket, now: int, rps: real)
    requires b.tokens >= 0.0 && rps >= 1.0 && Seconds(now - b.ts) * rps >= 1.0
    ensures BucketStep(Some(b), now, rps).ok
  {
    hide Seconds;
  }

  /** What is refused costs nothing, and what is admitted costs one token; in between the bucket fills at the rate, up
      to
      one second's worth: its level at every request, and its answer, are these and no other. */
  lemma BucketLevel(b: Bucket, now: int, rps: real)
    requires rps >= 0.0 && 0.0 <= b.tokens <= rps && b.ts <= now
    ensures var d, filled := BucketStep(Some(b), now, rps), b.tokens + Seconds(now - b.ts) * rps;
            && d.state.Some? && d.state.value.ts == now
            && var level := d.state.value.tokens + if d.ok then 1.0 else 0.0;
            && level <= rps && level <= filled && (level == rps || level == filled)
            && (d.ok <==> level >= 1.0)
  {
    hide Seconds;
  }

  /** A new client starts with a full bucket. */
  lemma FirstRequest(now: int, rps: real)
    requires rps >= 0.0
    ensures var d := BucketStep(None, now, rps);
            (d.ok <==> rps >= 1.0) && d.state == Some(Bucket(if d.ok then rps - 1.0 else rps, now))
  {
    RefillAdds(now, now, now, rps);
  }

  /** A rate below one request per second never fills a whole token: nothing is ever admitted. Any
      higher rate admits the first request. */
  lemma {:induction false} SlowBucketRefusesAll(times: seq<int>, rps: real)
    ensures rps < 1.0 ==> BucketRun(times, rps).admitted == []
    ensures rps >= 1.0 && times != [] ==> times[0] in BucketRun(times, rps).admitted
  {
    if times != [] {
      var n := |times| - 1;
      SlowBucketRefusesAll(times[..n], rps);
      if n == 0 { assert Seconds(0) * rps == 0.0; }
    }
  }
}
