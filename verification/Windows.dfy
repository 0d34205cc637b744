/** Sliding windows over timestamped samples: pushed at the back, trimmed only at the front. */
module Windows {
  datatype Timed<T> = Timed(at: int, value: T)

  const WINDOW_US := 2_000_000

  /** The samples no older than `cutoff`, in order. */
  function Recent<T>(history: seq<Timed<T>>, cutoff: int): seq<Timed<T>> {
    if history == [] then []
    else
      var n := |history| - 1;
      Recent(history[..n], cutoff) + if history[n].at >= cutoff then [history[n]] else []
  }

  /** Popping the front while it is too old. */
  function DropOld<T>(window: seq<Timed<T>>, cutoff: int): seq<Timed<T>> {
    if window != [] && window[0].at < cutoff then DropOld(window[1..], cutoff) else window
  }

  predicate InOrder<T>(history: seq<Timed<T>>) {
    forall i, j | 0 <= i < j < |history| :: history[i].at <= history[j].at
  }

  lemma {:induction false} RecentAppend<T>(a: seq<Timed<T>>, b: seq<Timed<T>>, cutoff: int)
    ensures Recent(a + b, cutoff) == Recent(a, cutoff) + Recent(b, cutoff)
    decreases b
  {
    if b == [] {
      assert a + [] == a;
    } else {
      var n := |b| - 1;
      RecentAppend(a, b[..n], cutoff);
      assert (a + b)[..|a| + n] == a + b[..n];
    }
  }

  lemma {:induction false} AllRecent<T>(s: seq<Timed<T>>, cutoff: int)
    requires forall i | 0 <= i < |s| :: s[i].at >= cutoff
    ensures Recent(s, cutoff) == s
  {
    if s != [] {
      var n := |s| - 1;
      AllRecent(s[..n], cutoff);
      assert s == s[..n] + [s[n]];
    }
  }

  /** On samples in time order, popping the front filters the whole window. */
  lemma {:induction false} DropOldFilters<T>(window: seq<Timed<T>>, cutoff: int)
    requires InOrder(window)
    ensures DropOld(window, cutoff) == Recent(window, cutoff)
  {
    if window != [] && window[0].at < cutoff {
      DropOldFilters(window[1..], cutoff);
      RecentAppend([window[0]], window[1..], cutoff);
      assert [window[0]][..0] == [];
      assert Recent([window[0]], cutoff) == [];
      assert [window[0]] + window[1..] == window;
    } else {
      AllRecent(window, cutoff);
    }
  }

  lemma {:induction false} RecentAgain<T>(history: seq<Timed<T>>, earlier: int, later: int)
    requires earlier <= later
    ensures Recent(Recent(history, earlier), later) == Recent(history, later)
  {
    if history != [] {
      var n := |history| - 1;
      RecentAgain(history[..n], earlier, later);
      var last := if history[n].at >= earlier then [history[n]] else [];
      RecentAppend(Recent(history[..n], earlier), last, later);
      if last != [] {
        assert last[..0] == [];
      }
    }
  }

  lemma {:induction false} RecentInOrder<T>(history: seq<Timed<T>>, cutoff: int)
    requires InOrder(history)
    ensures InOrder(Recent(history, cutoff))
    ensures forall s | s in Recent(history, cutoff) :: s in history && s.at >= cutoff
    ensures |Recent(history, cutoff)| <= |history|
  {
    if history != [] {
      var n := |history| - 1;
      RecentInOrder(history[..n], cutoff);
      forall s | s in Recent(history[..n], cutoff) ensures s.at <= history[n].at {
        var k :| 0 <= k < n && history[k] == s;
      }
    }
  }

  /** The window is what is left of everything pushed, `cutoff` being the latest trim so far. */
  ghost predicate Windowed<T>(window: seq<Timed<T>>, history: seq<Timed<T>>, cutoff: int, clock: int) {
    && InOrder(history) && (forall i | 0 <= i < |history| :: history[i].at <= clock)
    && cutoff <= clock - WINDOW_US
    && window == Recent(history, cutoff)
  }

  /** Pushing a sample and trimming, on a later reading: the window is again the samples of the last two seconds. */
  lemma PushAndTrim<T>(window: seq<Timed<T>>, history: seq<Timed<T>>, cutoff: int, clock: int, now: int, trimmed: int,
                       value: T)
    requires Windowed(window, history, cutoff, clock) && clock <= now <= trimmed
    ensures Windowed(DropOld(window + [Timed(now, value)], trimmed - WINDOW_US), history + [Timed(now, value)],
                     trimmed - WINDOW_US, trimmed)
  {
    var s := Timed(now, value);
    RecentAppend(history, [s], cutoff);
    assert [s][..0] == [];
    assert Recent([s], cutoff) == [s];
    assert window + [s] == Recent(history + [s], cutoff);
    TrimOnly(window + [s], history + [s], cutoff, now, trimmed);
  }

  lemma TrimOnly<T>(window: seq<Timed<T>>, history: seq<Timed<T>>, cutoff: int, clock: int, now: int)
    requires Windowed(window, history, cutoff, clock) && clock <= now
    ensures Windowed(DropOld(window, now - WINDOW_US), history, now - WINDOW_US, now)
  {
    RecentInOrder(history, cutoff);
    DropOldFilters(window, now - WINDOW_US);
    RecentAgain(history, cutoff, now - WINDOW_US);
  }

  lemma Later<T>(window: seq<Timed<T>>, history: seq<Timed<T>>, cutoff: int, clock: int, now: int)
    requires Windowed(window, history, cutoff, clock) && clock <= now
    ensures Windowed(window, history, cutoff, now)
  {
  }

  /** The trimming loop. */
  method Trim<T>(window: seq<Timed<T>>, now: int) returns (trimmed: seq<Timed<T>>)
    ensures trimmed == DropOld(window, now - WINDOW_US)
  {
    var cutoff := now - WINDOW_US;
    trimmed := window;
    while trimmed != [] && trimmed[0].at < cutoff
      invariant DropOld(trimmed, cutoff) == DropOld(window, cutoff)
      decreases |trimmed|
    {
      trimmed := trimmed[1..];
    }
  }
}
