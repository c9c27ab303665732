/** The time-based pacing of DissolveTransition.update: how the elapsed time
    is advanced and clamped, how many pixels should have been revealed by
    now, and whether update reports the transition as running. */
module Pacing {

  /** The two counters update changes besides the sequencer state. */
  datatype Progress = Progress(elapsedMs: int, pixelsSwapped: int)

  /** What one call of update decides: its return value, the counters
      afterwards, and how many pixels it sets out to swap. */
  datatype Tick = Tick(running: bool, after: Progress, toSwap: int)

  // ---------------------------------------------------------------------
  // Integer arithmetic

  lemma MulMonotone(t: int, a: int, b: int)
    requires t >= 0 && a <= b
    ensures t * a <= t * b
  {
    assert t * b - t * a == t * (b - a);
  }

  lemma MulStrict(t: int, a: int, b: int)
    requires t > 0 && a < b
    ensures t * a < t * b
  {
    assert t * b - t * a == t * (b - a);
  }

  /** Floor division by d > 0 brackets a between q * d and q * d + d. */
  lemma DivBounds(a: int, d: int)
    requires d > 0
    ensures (a / d) * d <= a < (a / d) * d + d
  {
    assert a == (a / d) * d + a % d;
  }

  lemma DivMonotone(a: int, b: int, d: int)
    requires d > 0 && a <= b
    ensures a / d <= b / d
  {
    DivBounds(a, d);
    DivBounds(b, d);
    if a / d > b / d {
      MulMonotone(d, b / d + 1, a / d);
      assert false;
    }
  }

  lemma DivExact(t: int, d: int)
    requires d > 0
    ensures t * d / d == t
  {
    var q := t * d / d;
    DivBounds(t * d, d);
    if q < t {
      MulMonotone(d, q + 1, t);
      assert false;
    } else if q > t {
      MulMonotone(d, t + 1, q);
      assert false;
    }
  }

  /** Python's int(a / b) for b > 0: the quotient truncated toward zero. */
  function TruncDiv(a: int, b: int): (r: int)
    requires b > 0
    ensures a >= 0 ==> 0 <= r * b <= a < r * b + b
    ensures a < 0 ==> r * b - b < a <= r * b <= 0
  {
    if a >= 0 then
      var q := a / b;
      DivBounds(a, b);
      DivMonotone(0, a, b);
      MulMonotone(b, 0, q);
      q
    else
      var q := (-a) / b;
      DivBounds(-a, b);
      DivMonotone(0, -a, b);
      MulMonotone(b, 0, q);
      assert (-q) * b == -(q * b);
      -q
  }

  /** The counters before any update, and after reset. */
  const Start := Progress(0, 0)

  /** One call of update, on the counters alone. */
  function Pace(total: int, durationMs: int, s: Progress, deltaMs: int): (r: Tick)
    requires durationMs > 0
    ensures r.running <==> s.pixelsSwapped < total
    ensures !r.running ==> r.after == s && r.toSwap == 0
    ensures r.running ==> r.after.elapsedMs <= durationMs
    ensures r.running ==> r.after.pixelsSwapped == s.pixelsSwapped + r.toSwap
  {
    if s.pixelsSwapped >= total then
      Tick(false, s, 0)
    else
      var sum := s.elapsedMs + deltaMs;
      var elapsed := if sum >= durationMs then durationMs else sum;
      var target := TruncDiv(total * elapsed, durationMs);
      Tick(true, Progress(elapsed, target), target - s.pixelsSwapped)
  }

  /** The pacing invariant: elapsed time is at most the duration and the
      swap count is the pixel total scaled by the fraction of time elapsed. */
  predicate Paced(total: int, durationMs: int, s: Progress)
    requires durationMs > 0
  {
    s.elapsedMs <= durationMs && s.pixelsSwapped == TruncDiv(total * s.elapsedMs, durationMs)
  }

  /** Every call keeps the pacing invariant, whatever the delta. */
  lemma PacePreserves(total: int, durationMs: int, s: Progress, deltaMs: int)
    requires durationMs > 0 && Paced(total, durationMs, s)
    ensures Paced(total, durationMs, Pace(total, durationMs, s, deltaMs).after)
  {
  }

  /** At the full duration the target is exactly the pixel total. */
  lemma TruncDivExact(t: int, d: int)
    requires d > 0
    ensures TruncDiv(t * d, d) == t
  {
    if t >= 0 {
      MulMonotone(d, 0, t);
      DivExact(t, d);
    } else {
      assert -(t * d) == (-t) * d;
      MulMonotone(d, 0, -t);
      DivExact(-t, d);
    }
  }

  /** With non-negative elapsed time, the invariant keeps the swap count in
      [0, total], and it reaches the total exactly at the full duration. */
  lemma PacedBounds(total: int, durationMs: int, s: Progress)
    requires durationMs > 0 && total >= 0 && 0 <= s.elapsedMs && Paced(total, durationMs, s)
    ensures 0 <= s.pixelsSwapped <= total
    ensures total > 0 ==> (s.pixelsSwapped == total <==> s.elapsedMs == durationMs)
  {
    var e, d := s.elapsedMs, durationMs;
    MulMonotone(total, 0, e);
    MulMonotone(total, e, d);
    DivMonotone(0, total * e, d);
    DivMonotone(total * e, total * d, d);
    DivExact(total, d);
    assert s.pixelsSwapped == total * e / d;
    if total > 0 && s.pixelsSwapped == total && e < d {
      DivBounds(total * e, d);
      assert total * d <= total * e;
      MulStrict(total, e, d);
      assert false;
    }
    if e == d {
      TruncDivExact(total, d);
    }
  }

  /** Whatever deltas led to it, negative ones included, a paced state never
      counts more than the total number of pixels. */
  lemma PacedAtMostTotal(total: int, durationMs: int, s: Progress)
    requires durationMs > 0 && total >= 0 && Paced(total, durationMs, s)
    ensures s.pixelsSwapped <= total
  {
    var e := s.elapsedMs;
    if e >= 0 {
      PacedBounds(total, durationMs, s);
    } else {
      MulMonotone(total, e, 0);
      TruncDivMonotone(total * e, 0, durationMs);
    }
  }

  /** A non-negative delta moves elapsed time to min(old + delta, duration)
      and never lowers the swap count, which stays within [0, total]. */
  lemma PaceForward(total: int, durationMs: int, s: Progress, deltaMs: int)
    requires durationMs > 0 && total >= 0 && deltaMs >= 0
    requires 0 <= s.elapsedMs && Paced(total, durationMs, s)
    ensures var r := Pace(total, durationMs, s, deltaMs);
      && 0 <= r.toSwap
      && s.pixelsSwapped <= r.after.pixelsSwapped <= total
      && (r.running ==> r.after.elapsedMs == if s.elapsedMs + deltaMs <= durationMs then s.elapsedMs + deltaMs else durationMs)
      && 0 <= r.after.elapsedMs
  {
    var r := Pace(total, durationMs, s, deltaMs);
    PacedBounds(total, durationMs, s);
    if r.running {
      var e := r.after.elapsedMs;
      MulMonotone(total, s.elapsedMs, e);
      DivMonotone(total * s.elapsedMs, total * e, durationMs);
      PacePreserves(total, durationMs, s, deltaMs);
      PacedBounds(total, durationMs, r.after);
    }
  }

  /** Truncating division is monotone in the numerator, whatever its sign. */
  lemma TruncDivMonotone(a: int, b: int, d: int)
    requires d > 0 && a <= b
    ensures TruncDiv(a, d) <= TruncDiv(b, d)
  {
    if 0 <= a {
      DivMonotone(a, b, d);
    } else if b < 0 {
      DivMonotone(-b, -a, d);
    } else {
      DivMonotone(0, -a, d);
      DivMonotone(0, b, d);
    }
  }

  /** A negative delta is not rejected: it winds elapsed time back, possibly
      below zero, and can lower the swap count, possibly below zero too;
      then update swaps nothing. */
  lemma PaceBackward(total: int, durationMs: int, s: Progress, deltaMs: int)
    requires durationMs > 0 && total >= 0 && deltaMs <= 0 && Paced(total, durationMs, s)
    ensures var r := Pace(total, durationMs, s, deltaMs);
      && r.toSwap <= 0
      && r.after.pixelsSwapped <= s.pixelsSwapped
  {
    var r := Pace(total, durationMs, s, deltaMs);
    if r.running {
      var e := r.after.elapsedMs;
      assert e == s.elapsedMs + deltaMs <= s.elapsedMs;
      MulMonotone(total, e, s.elapsedMs);
      TruncDivMonotone(total * e, total * s.elapsedMs, durationMs);
    }
  }

  /** An example of the unguarded negative delta: half way through a
      100-pixel, 100 ms transition, a delta of -30 ms takes the swap count
      from 50 back to 20. */
  lemma NegativeDeltaLowersCount()
    ensures Pace(100, 100, Progress(50, 50), -30) == Tick(true, Progress(20, 20), -30)
  {
  }

  /** The same delta 10 ms into that transition takes elapsed time and the
      swap count below zero, outside [0, total]. */
  lemma NegativeDeltaBelowZero()
    ensures Pace(100, 100, Progress(10, 10), -30) == Tick(true, Progress(-20, -20), -30)
  {
  }

  /** update(0) on a running transition changes nothing and returns true. */
  lemma PaceZero(total: int, durationMs: int, s: Progress)
    requires durationMs > 0 && Paced(total, durationMs, s) && s.pixelsSwapped < total
    ensures Pace(total, durationMs, s, 0) == Tick(true, s, 0)
  {
  }

  /** The call whose time reaches the duration brings the count to the total
      and still returns true; only the call after it returns false, and so
      does every later call. */
  lemma PaceCompletes(total: int, durationMs: int, s: Progress, deltaMs: int, nextMs: int)
    requires durationMs > 0 && Paced(total, durationMs, s) && s.pixelsSwapped < total
    requires s.elapsedMs + deltaMs >= durationMs
    ensures var r := Pace(total, durationMs, s, deltaMs);
      && r.running
      && r.after == Progress(durationMs, total)
      && Pace(total, durationMs, r.after, nextMs) == Tick(false, r.after, 0)
  {
    TruncDivExact(total, durationMs);
  }

  /** The counters after a sequence of updates, as the host's frame loop
      makes them. Whatever the deltas, the pacing invariant carries over, so
      the count never exceeds the total. */
  function Run(total: int, durationMs: int, s: Progress, deltas: seq<int>): (r: Progress)
    requires durationMs > 0
    ensures Paced(total, durationMs, s) ==> Paced(total, durationMs, r)
    ensures total >= 0 && Paced(total, durationMs, s) ==> r.pixelsSwapped <= total
    decreases |deltas|
  {
    if deltas == [] then
      if total >= 0 && Paced(total, durationMs, s) then PacedAtMostTotal(total, durationMs, s); s else s
    else
      Run(total, durationMs, Pace(total, durationMs, s, deltas[0]).after, deltas[1..])
  }

  function Sum(deltas: seq<int>): int
  {
    if deltas == [] then 0 else deltas[0] + Sum(deltas[1..])
  }

  predicate NonNegative(deltas: seq<int>)
  {
    forall i :: 0 <= i < |deltas| ==> deltas[i] >= 0
  }

  lemma {:induction false} SumNonNegative(deltas: seq<int>)
    requires NonNegative(deltas)
    ensures Sum(deltas) >= 0
    decreases |deltas|
  {
    if deltas != [] {
      assert NonNegative(deltas[1..]);
      SumNonNegative(deltas[1..]);
    }
  }

  /** Over non-negative deltas the swap count never decreases, and once the
      deltas add up to the duration every pixel has been counted. */
  lemma {:induction false} RunCompletes(total: int, durationMs: int, s: Progress, deltas: seq<int>)
    requires durationMs > 0 && total >= 0 && NonNegative(deltas)
    requires 0 <= s.elapsedMs && Paced(total, durationMs, s)
    ensures var f := Run(total, durationMs, s, deltas);
      && s.pixelsSwapped <= f.pixelsSwapped <= total
      && (s.elapsedMs + Sum(deltas) >= durationMs ==> f.pixelsSwapped == total)
    decreases |deltas|
  {
    PacedBounds(total, durationMs, s);
    if deltas == [] {
      if s.elapsedMs >= durationMs {
        TruncDivExact(total, durationMs);
      }
    } else {
      var r := Pace(total, durationMs, s, deltas[0]);
      var rest := deltas[1..];
      PaceForward(total, durationMs, s, deltas[0]);
      PacePreserves(total, durationMs, s, deltas[0]);
      assert NonNegative(rest);
      SumNonNegative(rest);
      RunCompletes(total, durationMs, r.after, rest);
    }
  }

  /** 100 x 100 pixels, a 4000 ms duration and four update(1000) calls give
      the swap counts 2500, 5000, 7500 and 10000; all four calls return
      true, and a fifth returns false. */
  lemma WorkedExample()
    ensures var t1 := Pace(10000, 4000, Start, 1000);
      var t2 := Pace(10000, 4000, t1.after, 1000);
      var t3 := Pace(10000, 4000, t2.after, 1000);
      var t4 := Pace(10000, 4000, t3.after, 1000);
      var t5 := Pace(10000, 4000, t4.after, 1000);
      && t1 == Tick(true, Progress(1000, 2500), 2500)
      && t2 == Tick(true, Progress(2000, 5000), 2500)
      && t3 == Tick(true, Progress(3000, 7500), 2500)
      && t4 == Tick(true, Progress(4000, 10000), 2500)
      && !t5.running && t5.after == t4.after
  {
  }
}
