/** `SlidingWindowRateLimiter`: a deque of admission times, pruned from the front, that stands for the whole history. */
module RateLimiter {
  import opened Collections

  ghost predicate Nondecreasing(h: seq<real>) {
    forall i, j :: 0 <= i < j < |h| ==> h[i] <= h[j]
  }

  /** The entries of `h` that lie in the closed interval from `lo` to `hi`, in order. */
  ghost function Within(h: seq<real>, lo: real, hi: real): (r: seq<real>) {
    if h == [] then []
    else Within(h[..|h| - 1], lo, hi) + (if lo <= h[|h| - 1] <= hi then [h[|h| - 1]] else [])
  }

  /** The entries in the interval are those, and in that order. */
  lemma WithinMeaning(h: seq<real>, lo: real, hi: real) returns (keep: seq<bool>, at: seq<nat>)
    ensures |keep| == |h| && forall i :: 0 <= i < |h| ==> keep[i] == (lo <= h[i] <= hi)
    ensures Picks(Within(h, lo, hi), h, keep, at)
  {
    var n := |h|;
    keep := seq(n, i requires 0 <= i < n => lo <= h[i] <= hi);
    var steps := seq(n + 1, i requires 0 <= i <= n => Within(h[..i], lo, hi));
    forall i | 0 <= i < n ensures steps[i + 1] == steps[i] + (if keep[i] then [h[i]] else []) {
      assert h[..i + 1] == h[..i] + [h[i]];
      WithinOneMore(h[..i], h[i], lo, hi);
    }
    at := GrownPicks(steps, h, keep);
    assert h[..n] == h;
  }

  lemma WithinOneMore(h: seq<real>, last: real, lo: real, hi: real)
    ensures Within(h + [last], lo, hi) == Within(h, lo, hi) + (if lo <= last <= hi then [last] else [])
  {
    assert (h + [last])[..|h|] == h;
  }

  /** Dropping a front that is out of date leaves exactly the admissions in the window. */
  lemma {:induction false} SuffixIsWindow(h: seq<real>, k: nat, lo: real, hi: real)
    requires k <= |h| && Nondecreasing(h)
    requires forall i :: 0 <= i < k ==> h[i] < lo
    requires forall i :: k <= i < |h| ==> lo <= h[i] <= hi
    ensures Within(h, lo, hi) == h[k..]
    decreases |h|
  {
    if h != [] {
      var front, last := h[..|h| - 1], h[|h| - 1];
      assert h == front + [last];
      WithinOneMore(front, last, lo, hi);
      if k == |h| {
        SuffixIsWindow(front, k - 1, lo, hi);
      } else {
        SuffixIsWindow(front, k, lo, hi);
        assert h[k..] == front[k..] + [last];
      }
    }
  }

  /** `events` is `history` without its first `dropped` entries, all of them before `cutoff`; nothing is after `clock`. */
  ghost predicate Tracks(history: seq<real>, dropped: nat, events: seq<real>, cutoff: real, clock: real) {
    && Nondecreasing(history) && (forall i :: 0 <= i < |history| ==> history[i] <= clock)
    && dropped <= |history| && events == history[dropped..]
    && (forall i :: 0 <= i < dropped ==> history[i] < cutoff)
  }

  lemma LaterStillTracks(history: seq<real>, dropped: nat, events: seq<real>, window: real, clock: real, now: real)
    requires Tracks(history, dropped, events, clock - window, clock) && clock <= now
    ensures Tracks(history, dropped, events, now - window, now)
  {
  }

  lemma PopFront(history: seq<real>, dropped: nat, events: seq<real>, cutoff: real, clock: real)
    requires Tracks(history, dropped, events, cutoff, clock)
    requires events != [] && events[0] < cutoff
    ensures Tracks(history, dropped + 1, events[1..], cutoff, clock)
  {
  }

  lemma PushNow(history: seq<real>, dropped: nat, events: seq<real>, cutoff: real, now: real)
    requires Tracks(history, dropped, events, cutoff, now)
    ensures Tracks(history + [now], dropped, events + [now], cutoff, now)
  {
  }

  /** Once the front is in the window, the deque is the window. */
  lemma PrunedIsWindow(history: seq<real>, dropped: nat, events: seq<real>, cutoff: real, now: real)
    requires Tracks(history, dropped, events, cutoff, now)
    requires events == [] || cutoff <= events[0]
    ensures events == Within(history, cutoff, now)
  {
    forall i | dropped <= i < |history| ensures cutoff <= history[i] {
      assert events[0] == history[dropped];
    }
    SuffixIsWindow(history, dropped, cutoff, now);
  }

  /** The rule over the whole history: admit while fewer than `limit` admissions lie in the window that ends now. */
  ghost function Admit(h: seq<real>, now: real, limit: int, window: real): (r: seq<real>) {
    if |Within(h, now - window, now)| < limit then h + [now] else h
  }

  lemma AdmitMeaning(h: seq<real>, now: real, limit: int, window: real)
    ensures Admit(h, now, limit, window) == h + (if |Within(h, now - window, now)| < limit then [now] else [])
  {
  }

  class SlidingWindowRateLimiter {
    const limit: int
    const window: real
    var events: seq<real>
    ghost var history: seq<real>  // every admission so far
    ghost var dropped: nat        // how many of them have left the deque
    ghost var clock: real         // the last reading

    /** The deque is a suffix of the history, and what has left it had left the window. */
    ghost predicate Valid()
      reads this
    {
      limit >= 1 && Tracks(history, dropped, events, clock - window, clock)
    }

    constructor (requested: int, windowSeconds: real, ghost start: real)
      ensures Valid() && history == [] && clock == start
      ensures limit == (if requested > 1 then requested else 1) && window == windowSeconds
    {
      limit := if requested > 1 then requested else 1;
      window := windowSeconds;
      events := [];
      history, dropped, clock := [], 0, start;
    }

    /** The loop that pops what has left the window. */
    method PopOutdated(cutoff: real, ghost now: real)
      requires Tracks(history, dropped, events, cutoff, now)
      modifies this`events, this`dropped
      ensures Tracks(history, dropped, events, cutoff, now) && (events == [] || cutoff <= events[0])
    {
      while events != [] && events[0] < cutoff
        invariant Tracks(history, dropped, events, cutoff, now)
        decreases |events|
      {
        PopFront(history, dropped, events, cutoff, now);
        events := events[1..];
        dropped := dropped + 1;
      }
    }

    /** Pruning leaves the admissions inside the window. */
    method Prune(now: real)
      requires Tracks(history, dropped, events, now - window, now)
      modifies this`events, this`dropped
      ensures Tracks(history, dropped, events, now - window, now)
      ensures events == Within(history, now - window, now)
    {
      PopOutdated(now - window, now);
      PrunedIsWindow(history, dropped, events, now - window, now);
    }

    method Push(now: real)
      requires Tracks(history, dropped, events, now - window, now)
      modifies this`events, this`history
      ensures Tracks(history, dropped, events, now - window, now)
      ensures events == old(events) + [now] && history == old(history) + [now]
    {
      PushNow(history, dropped, events, now - window, now);
      events := events + [now];
      history := history + [now];
    }

    /** Admit exactly when fewer than `limit` past admissions lie in the window that ends now. */
    method Allow(now: real) returns (admitted: bool)
      requires Valid() && clock <= now
      modifies this`events, this`history, this`dropped, this`clock
      ensures Valid() && clock == now
      ensures admitted <==> |Within(old(history), now - window, now)| < limit
      ensures history == Admit(old(history), now, limit, window)
      ensures events == Within(old(history), now - window, now) + (if admitted then [now] else [])
    {
      LaterStillTracks(history, dropped, events, window, clock, now);
      clock := now;
      Prune(now);
      AdmitMeaning(history, now, limit, window);
      admitted := |events| < limit;
      if admitted {
        Push(now);
      }
    }
  }

  // ----- Whole runs -----

  /** The admissions after a run of readings. */
  ghost function Admissions(readings: seq<real>, limit: int, window: real): (r: seq<real>) {
    if readings == [] then []
    else Admit(Admissions(readings[..|readings| - 1], limit, window), readings[|readings| - 1], limit, window)
  }

  /** The `i`-th reading of a run is admitted. */
  ghost predicate Admitted(readings: seq<real>, i: nat, limit: int, window: real)
    requires i < |readings|
  {
    |Within(Admissions(readings[..i], limit, window), readings[i] - window, readings[i])| < limit
  }

  lemma OneReadingMore(readings: seq<real>, i: nat, limit: int, window: real)
    requires i < |readings|
    ensures Admissions(readings[..i + 1], limit, window)
         == Admit(Admissions(readings[..i], limit, window), readings[i], limit, window)
  {
    assert readings[..i + 1][..i] == readings[..i];
  }

  /** A run admits exactly the readings that find fewer than `limit` admissions in the window ending there. */
  lemma AdmissionsMeaning(readings: seq<real>, limit: int, window: real) returns (keep: seq<bool>, at: seq<nat>)
    ensures |keep| == |readings|
    ensures forall i :: 0 <= i < |readings| ==> keep[i] == Admitted(readings, i, limit, window)
    ensures Picks(Admissions(readings, limit, window), readings, keep, at)
  {
    var n := |readings|;
    keep := seq(n, i requires 0 <= i < n => Admitted(readings, i, limit, window));
    var steps := seq(n + 1, i requires 0 <= i <= n => Admissions(readings[..i], limit, window));
    forall i | 0 <= i < n ensures steps[i + 1] == steps[i] + (if keep[i] then [readings[i]] else []) {
      OneReadingMore(readings, i, limit, window);
      AdmitMeaning(steps[i], readings[i], limit, window);
    }
    at := GrownPicks(steps, readings, keep);
    assert readings[..n] == readings;
  }

  /** One more answer of a limiter whose history so far is the run's. */
  lemma NextAnswer(readings: seq<real>, i: nat, limit: int, window: real, before: seq<real>, after: seq<real>, admitted: bool)
    requires i < |readings| && before == Admissions(readings[..i], limit, window)
    requires after == Admit(before, readings[i], limit, window)
    requires admitted <==> |Within(before, readings[i] - window, readings[i])| < limit
    ensures after == Admissions(readings[..i + 1], limit, window) && (admitted <==> Admitted(readings, i, limit, window))
  {
    OneReadingMore(readings, i, limit, window);
  }

  method AllowNext(limiter: SlidingWindowRateLimiter, readings: seq<real>, i: nat) returns (admitted: bool)
    requires i < |readings| && limiter.Valid() && limiter.clock <= readings[i]
    requires limiter.history == Admissions(readings[..i], limiter.limit, limiter.window)
    modifies limiter
    ensures limiter.Valid() && limiter.clock == readings[i]
    ensures limiter.history == Admissions(readings[..i + 1], limiter.limit, limiter.window)
    ensures admitted <==> Admitted(readings, i, limiter.limit, limiter.window)
  {
    ghost var before := limiter.history;
    admitted := limiter.Allow(readings[i]);
    NextAnswer(readings, i, limiter.limit, limiter.window, before, limiter.history, admitted);
  }

  /** A new limiter asked at nondecreasing readings makes exactly the run's admissions and answers accordingly. */
  method AllowAll(limiter: SlidingWindowRateLimiter, readings: seq<real>) returns (answers: seq<bool>)
    requires limiter.Valid() && limiter.history == [] && Nondecreasing([limiter.clock] + readings)
    modifies limiter
    ensures limiter.Valid() && limiter.history == Admissions(readings, limiter.limit, limiter.window)
    ensures |answers| == |readings|
    ensures forall i :: 0 <= i < |readings| ==>
              (answers[i] <==> Admitted(readings, i, limiter.limit, limiter.window))
  {
    answers := [];
    ghost var all := [limiter.clock] + readings;
    for i := 0 to |readings|
      invariant limiter.Valid() && limiter.clock == all[i] && |answers| == i
      invariant limiter.history == Admissions(readings[..i], limiter.limit, limiter.window)
      invariant forall j :: 0 <= j < i ==> (answers[j] <==> Admitted(readings, j, limiter.limit, limiter.window))
    {
      assert all[i + 1] == readings[i];
      var answer := AllowNext(limiter, readings, i);
      answers := answers + [answer];
    }
    assert readings[..|readings|] == readings;
  }

  lemma WithinAppend(h: seq<real>, now: real, lo: real, hi: real)
    ensures |Within(h + [now], lo, hi)| == |Within(h, lo, hi)| + (if lo <= now <= hi then 1 else 0)
  {
    WithinOneMore(h, now, lo, hi);
  }

  lemma {:induction false} WithinNarrower(h: seq<real>, lo: real, hi: real, lo': real, hi': real)
    requires lo <= lo' && (forall i :: 0 <= i < |h| && h[i] <= hi' ==> h[i] <= hi)
    ensures |Within(h, lo', hi')| <= |Within(h, lo, hi)|
    decreases |h|
  {
    if h != [] {
      WithinNarrower(h[..|h| - 1], lo, hi, lo', hi');
    }
  }

  lemma {:induction false} AdmissionsBounded(readings: seq<real>, limit: int, window: real, last: real)
    requires forall i :: 0 <= i < |readings| ==> readings[i] <= last
    ensures forall i :: 0 <= i < |Admissions(readings, limit, window)| ==> Admissions(readings, limit, window)[i] <= last
    decreases |readings|
  {
    if readings != [] {
      AdmissionsBounded(readings[..|readings| - 1], limit, window, last);
    }
  }

  /** Over every run, no closed interval one window long holds more than `limit` admissions. */
  lemma {:induction false} EveryWindowIsBounded(readings: seq<real>, limit: int, window: real, x: real)
    requires Nondecreasing(readings) && limit >= 1
    ensures |Within(Admissions(readings, limit, window), x, x + window)| <= limit
    decreases |readings|
  {
    if readings != [] {
      var front, now := readings[..|readings| - 1], readings[|readings| - 1];
      EveryWindowIsBounded(front, limit, window, x);
      var h := Admissions(front, limit, window);
      WithinAppend(h, now, x, x + window);
      if x <= now <= x + window {
        AdmissionsBounded(front, limit, window, now);
        WithinNarrower(h, now - window, now, x, x + window);
      }
    }
  }
}
