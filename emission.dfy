/** Which pixel indices the dissolve emits for each state k of the sequencer
    (steps C to F of US patent 5,771,033 as DissolveTransition.update codes
    them), and how the outer loop of update walks the sequencer until enough
    indices have been emitted. */
module Emission {
  import opened Sequencer
  import Pacing

  // ---------------------------------------------------------------------
  // The inner loop: j, j - (p-1), j - 2(p-1), ... while j > 0

  /** The indices the inner loop emits when it starts at j. */
  function Fold(j: int): (r: seq<int>)
    ensures forall i :: 0 <= i < |r| ==> 0 < r[i] <= j
    decreases j
  {
    if j > 0 then [j] + Fold(j - (P - 1)) else []
  }

  /** Emitting j moves it from the indices still to come to those done. */
  lemma FoldStep(done: seq<int>, j: int)
    requires j > 0
    ensures done + Fold(j) == (done + [j]) + Fold(j - (P - 1))
  {
    assert Fold(j) == [j] + Fold(j - (P - 1));
  }

  /** The inner loop emits ceil(j / (p-1)) indices: no more than one when
      j < p, and one more for every further p - 1. */
  lemma {:induction false} FoldLength(j: int)
    ensures |Fold(j)| == if j > 0 then (j - 1) / (P - 1) + 1 else 0
    decreases j
  {
    if j > P - 1 {
      FoldLength(j - (P - 1));
      assert (j - 1) / (P - 1) == (j - P) / (P - 1) + 1;
    }
  }

  /** Starting the inner loop higher never emits fewer indices. */
  lemma FoldMonotone(i: int, j: int)
    requires i <= j
    ensures |Fold(i)| <= |Fold(j)|
  {
    FoldLength(i);
    FoldLength(j);
  }

  /** The indices emitted for state k: the inner loop from j = total + k - p. */
  function StepIndices(total: int, k: int): (r: seq<int>)
    requires InGroup(k)
    ensures forall i :: 0 <= i < |r| ==> 0 < r[i] < total
  {
    Fold(total + k - P)
  }

  /** For images of at most p - 1 pixels, a state emits at most one index:
      total + k - p exactly when that is positive. */
  lemma StepIndicesSmall(total: int, k: int)
    requires total <= P - 1 && InGroup(k)
    ensures StepIndices(total, k) == if k > P - total then [total + k - P] else []
  {
    assert Fold(total + k - P - (P - 1)) == [];
  }

  /** The state p - 1 emits whenever the image has at least two pixels. */
  lemma LastStateEmits(total: int)
    requires total >= 2
    ensures |StepIndices(total, P - 1)| >= 1
  {
    assert StepIndices(total, P - 1) == [total - 1] + Fold(total - 1 - (P - 1));
  }

  // ---------------------------------------------------------------------
  // The emissions of n consecutive states

  /** The indices emitted by the states Iter(k, 0), ..., Iter(k, n - 1). */
  function Cycle(total: int, k: int, n: nat): (r: seq<int>)
    requires InGroup(k)
    ensures forall i :: 0 <= i < |r| ==> 0 < r[i] < total
    decreases n
  {
    if n == 0 then [] else StepIndices(total, k) + Cycle(total, Step(k), n - 1)
  }

  lemma {:induction false} CycleSplit(total: int, k: int, a: nat, b: nat)
    requires InGroup(k)
    ensures Cycle(total, k, a + b) == Cycle(total, k, a) + Cycle(total, Iter(k, a), b)
    decreases a
  {
    if a > 0 {
      CycleSplit(total, Step(k), a - 1, b);
    }
  }

  /** The last of n + 1 states contributes its own indices at the end. */
  lemma CycleSnoc(total: int, k: int, n: nat)
    requires InGroup(k)
    ensures Cycle(total, k, n + 1) == Cycle(total, k, n) + StepIndices(total, Iter(k, n))
  {
    CycleSplit(total, k, n, 1);
    assert Cycle(total, Iter(k, n), 1) == StepIndices(total, Iter(k, n)) + [];
  }

  /** More states never emit fewer indices. */
  lemma CycleGrows(total: int, k: int, a: nat, b: nat)
    requires InGroup(k) && a <= b
    ensures |Cycle(total, k, a)| <= |Cycle(total, k, b)|
  {
    CycleSplit(total, k, a, b - a);
  }

  /** Whatever one of the first n states emits is emitted within n states. */
  lemma {:induction false} CycleHas(total: int, k: int, n: nat, t: nat, x: int)
    requires InGroup(k) && t < n && x in StepIndices(total, Iter(k, t))
    ensures x in Cycle(total, k, n)
    decreases n
  {
    var head, tail := StepIndices(total, k), Cycle(total, Step(k), n - 1);
    assert Cycle(total, k, n) == head + tail;
    if t > 0 {
      assert Iter(k, t) == Iter(Step(k), t - 1);
      CycleHas(total, Step(k), n - 1, t - 1, x);
      assert x in tail;
    }
  }

  /** Everything emitted within n states is emitted by one of them, the
      state after t steps. */
  lemma {:induction false} CycleSource(total: int, k: int, n: nat, x: int) returns (t: nat)
    requires InGroup(k) && x in Cycle(total, k, n)
    ensures t < n && x in StepIndices(total, Iter(k, t))
    decreases n
  {
    var head, tail := StepIndices(total, k), Cycle(total, Step(k), n - 1);
    assert Cycle(total, k, n) == head + tail;
    if x in head {
      t := 0;
    } else {
      var u := CycleSource(total, Step(k), n - 1, x);
      assert Iter(k, u + 1) == Iter(Step(k), u);
      t := u + 1;
    }
  }

  /** With a single pixel no state ever emits, so the outer loop of update
      cannot make progress. */
  lemma {:induction false} SinglePixelNeverEmits(k: int, n: nat)
    requires InGroup(k)
    ensures Cycle(1, k, n) == []
    decreases n
  {
    if n > 0 {
      SinglePixelNeverEmits(Step(k), n - 1);
      assert Fold(1 + k - P) == [];
    }
  }

  predicate Distinct(s: seq<int>)
  {
    forall a, b :: 0 <= a < b < |s| ==> s[a] != s[b]
  }

  lemma DistinctCons(x: int, tail: seq<int>)
    requires Distinct(tail) && x !in tail
    ensures Distinct([x] + tail)
  {
    forall a, b | 0 <= a < b < |[x] + tail|
      ensures ([x] + tail)[a] != ([x] + tail)[b]
    {
      assert ([x] + tail)[b] == tail[b - 1];
      if a > 0 {
        assert ([x] + tail)[a] == tail[a - 1];
      }
    }
  }

  /** For images of at most p - 1 pixels, the index a state emits is not
      emitted again by the states after it within one period. */
  lemma NotEmittedLater(total: int, k: int, n: nat)
    requires total <= P - 1 && InGroup(k) && 0 < n <= Period && k > P - total
    ensures total + k - P !in Cycle(total, Step(k), n - 1)
  {
    var x := total + k - P;
    if x in Cycle(total, Step(k), n - 1) {
      var t := CycleSource(total, Step(k), n - 1, x);
      StepIndicesSmall(total, Iter(Step(k), t));
      assert Iter(k, t + 1) == Iter(Step(k), t);
      OrbitInjective(k, 0, t + 1);
      assert false;
    }
  }

  /** A state that emits its index ahead of a run without repeats leaves a
      run without repeats. */
  lemma DistinctAfterEmit(total: int, k: int, n: nat)
    requires total <= P - 1 && InGroup(k) && 0 < n <= Period && k > P - total
    requires Distinct(Cycle(total, Step(k), n - 1))
    ensures Distinct(Cycle(total, k, n))
  {
    var x, tail := total + k - P, Cycle(total, Step(k), n - 1);
    assert Cycle(total, k, n) == [x] + tail by {
      StepIndicesSmall(total, k);
    }
    assert x !in tail by {
      NotEmittedLater(total, k, n);
    }
    DistinctCons(x, tail);
  }

  /** A state that emits nothing leaves the run as the next states make it. */
  lemma SilentState(total: int, k: int, n: nat)
    requires total <= P - 1 && InGroup(k) && 0 < n && k <= P - total
    ensures Cycle(total, k, n) == Cycle(total, Step(k), n - 1)
  {
    StepIndicesSmall(total, k);
    assert [] + Cycle(total, Step(k), n - 1) == Cycle(total, Step(k), n - 1);
  }

  /** For images of at most p - 1 pixels, the states of one period never
      emit the same index twice. */
  lemma {:induction false} CycleDistinct(total: int, k: int, n: nat)
    requires total <= P - 1 && InGroup(k) && n <= Period
    ensures Distinct(Cycle(total, k, n))
    decreases n
  {
    if n > 0 {
      CycleDistinct(total, Step(k), n - 1);
      if k > P - total {
        DistinctAfterEmit(total, k, n);
      } else {
        SilentState(total, k, n);
      }
    }
  }

  /** Full-period coverage: for an image of at most p - 1 pixels, the p - 1
      states of one full cycle emit every index of [1, total) exactly once,
      and nothing else. Index 0 is the one pixel a cycle never reaches. */
  lemma FullCycleCoverage(total: int, k: int)
    requires 1 <= total <= P - 1 && InGroup(k)
    ensures Distinct(Cycle(total, k, Period))
    ensures forall x :: x in Cycle(total, k, Period) <==> 0 < x < total
  {
    CycleDistinct(total, k, Period);
    forall x | 0 < x < total
      ensures x in Cycle(total, k, Period)
    {
      var v := x + P - total;
      OrbitSurjective(k, v);
      var t :| 0 <= t < Period && Iter(k, t) == v;
      StepIndicesSmall(total, v);
      assert x in StepIndices(total, Iter(k, t));
      CycleHas(total, k, Period, t, x);
    }
  }

  /** The values a sequence holds. */
  ghost function Elements(s: seq<int>): set<int>
  {
    set x | x in s
  }

  /** A sequence without repeats holds as many values as it has entries. */
  lemma {:induction false} DistinctCard(s: seq<int>)
    requires Distinct(s)
    ensures |Elements(s)| == |s|
    decreases |s|
  {
    if s != [] {
      var tail := s[1..];
      forall a, b | 0 <= a < b < |tail|
        ensures tail[a] != tail[b]
      {
        assert tail[a] == s[a + 1] && tail[b] == s[b + 1];
      }
      DistinctCard(tail);
      assert s == [s[0]] + tail;
      assert Elements(s) == Elements(tail) + {s[0]};
    }
  }

  /** For an image of at most p - 1 pixels, one full period emits exactly
      total - 1 indices, one short of the pixel count. */
  lemma FullCycleLength(total: int, k: int)
    requires 1 <= total <= P - 1 && InGroup(k)
    ensures |Cycle(total, k, Period)| == total - 1
  {
    var c := Cycle(total, k, Period);
    assert Distinct(c) && forall x :: x in c <==> 0 < x < total by {
      FullCycleCoverage(total, k);
    }
    assert |Elements(c)| == |c| by {
      DistinctCard(c);
    }
    assert |Range(1, total)| == total - 1 && forall v :: v in Range(1, total) <==> 1 <= v < total by {
      RangeSize(1, total);
    }
    var range := Range(1, total);
    forall v | v in Elements(c)
      ensures v in range
    {
    }
    forall v | v in range
      ensures v in Elements(c)
    {
    }
    assert Elements(c) == range;
  }

  // ---------------------------------------------------------------------
  // The outer loop: step k until at least n indices have been emitted

  datatype Driven = Driven(indices: seq<int>, k: int, steps: nat)

  /** When a state emits nothing it is not p - 1, so the next state is one
      step closer to p - 1. */
  lemma DriveProgress(total: int, k: int)
    requires total >= 2 && InGroup(k)
    ensures |StepIndices(total, k)| > 0 || StepsToLast(Step(k)) < StepsToLast(k)
  {
    if |StepIndices(total, k)| == 0 {
      if k == P - 1 {
        LastStateEmits(total);
      } else {
        StepsToLastStep(k);
      }
    }
  }

  /** The outer loop of update for n > 0 indices still to emit: it runs
      whole states until at least n indices are out. The result is the
      shortest run of states from k whose emissions reach n: its indices are
      those of the first `steps` states and the states before the last one
      emitted fewer than n. */
  function Drive(total: int, k: int, n: int): (r: Driven)
    requires total >= 2 && InGroup(k) && n > 0
    ensures r.steps >= 1 && r.k == Iter(k, r.steps)
    ensures r.indices == Cycle(total, k, r.steps)
    ensures n <= |r.indices| && |Cycle(total, k, r.steps - 1)| < n
    decreases n, StepsToLast(k)
  {
    var e := StepIndices(total, k);
    DriveProgress(total, k);
    if |e| >= n then
      Driven(e, Step(k), 1)
    else
      var rest := Drive(total, Step(k), n - |e|);
      assert Cycle(total, k, rest.steps) == e + Cycle(total, Step(k), rest.steps - 1);
      Driven(e + rest.indices, rest.k, rest.steps + 1)
  }

  /** A run that reaches n only at its last state is the one Drive makes. */
  lemma DriveUnique(total: int, k: int, n: int, s: nat)
    requires total >= 2 && InGroup(k) && n > 0 && s >= 1
    requires |Cycle(total, k, s - 1)| < n <= |Cycle(total, k, s)|
    ensures Drive(total, k, n) == Driven(Cycle(total, k, s), Iter(k, s), s)
  {
    var r := Drive(total, k, n);
    if r.steps < s {
      CycleGrows(total, k, r.steps, s - 1);
    } else if r.steps > s {
      CycleGrows(total, k, s, r.steps - 1);
    }
  }

  /** For images of at most p - 1 pixels, update emits exactly the n indices
      it counts. */
  lemma DriveExact(total: int, k: int, n: int)
    requires 2 <= total <= P - 1 && InGroup(k) && n > 0
    ensures |Drive(total, k, n).indices| == n
  {
    var r := Drive(total, k, n);
    CycleSnoc(total, k, r.steps - 1);
    StepIndicesSmall(total, Iter(k, r.steps - 1));
  }

  /** For larger images the last state can overshoot, but by less than the
      most one state can emit, ceil((total - 1) / (p - 1)). */
  lemma DriveOvershoot(total: int, k: int, n: int)
    requires total >= 2 && InGroup(k) && n > 0
    ensures |Drive(total, k, n).indices| < n + |Fold(total - 1)|
  {
    var r := Drive(total, k, n);
    CycleSnoc(total, k, r.steps - 1);
    FoldMonotone(total + Iter(k, r.steps - 1) - P, total - 1);
  }

  /** A complete run on an image of 2 .. p - 1 pixels, all total pixels
      counted at once: it takes at least one state past the full period
      (more when k itself emits nothing), and the last index it emits
      repeats the first one, so total swaps cover only total - 1 pixels. */
  lemma CompleteRunRepeats(total: int, k: int)
    requires 2 <= total <= P - 1 && InGroup(k)
    ensures var d := Drive(total, k, total);
      && d.steps > Period
      && |d.indices| == total
      && d.indices[total - 1] == d.indices[0]
      && !Distinct(d.indices)
  {
    var d := Drive(total, k, total);
    assert |Cycle(total, k, Period)| == total - 1 by {
      FullCycleLength(total, k);
    }
    assert |d.indices| == total by {
      DriveExact(total, k, total);
    }
    assert d.steps > Period by {
      if d.steps <= Period {
        CycleGrows(total, k, d.steps, Period);
      }
    }
    RepeatPastPeriod(total, k, d.steps);
  }

  /** A run past the full period that has emitted total indices, on an image
      of 2 .. p - 1 pixels, ends with the index it started with. */
  lemma RepeatPastPeriod(total: int, k: int, s: nat)
    requires 2 <= total <= P - 1 && InGroup(k) && s > Period && |Cycle(total, k, s)| == total
    ensures Cycle(total, k, s)[total - 1] == Cycle(total, k, s)[0]
    ensures !Distinct(Cycle(total, k, s))
  {
    var r: nat := s - Period;
    var run, rest := Cycle(total, k, s), Cycle(total, k, r);
    assert |Cycle(total, k, Period)| == total - 1 by {
      FullCycleLength(total, k);
    }
    assert Iter(k, Period) == k by {
      FullCycle(k);
    }
    assert |rest| == 1 && run[total - 1] == rest[0] by {
      CycleSplitAt(total, k, Period, r, s);
    }
    assert run[0] == rest[0] by {
      CycleSplitAt(total, k, r, Period, s);
    }
  }

  /** The run of a + b states has the length of its two parts; its entry at
      the seam is the first entry of the second part, and its first entry is
      that of the first part. */
  lemma CycleSplitAt(total: int, k: int, a: nat, b: nat, n: nat)
    requires InGroup(k) && n == a + b
    ensures |Cycle(total, k, n)| == |Cycle(total, k, a)| + |Cycle(total, Iter(k, a), b)|
    ensures |Cycle(total, Iter(k, a), b)| > 0 ==>
      Cycle(total, k, n)[|Cycle(total, k, a)|] == Cycle(total, Iter(k, a), b)[0]
    ensures |Cycle(total, k, a)| > 0 ==> Cycle(total, k, n)[0] == Cycle(total, k, a)[0]
  {
    CycleSplit(total, k, a, b);
  }

  // ---------------------------------------------------------------------
  // Pixel coordinates

  /** The coordinate (j mod width, j div width) handed to swap_pixel. */
  function Coord(j: int, width: int): (c: (int, int))
    requires width > 0
    ensures 0 <= c.0 < width && c.1 * width + c.0 == j
  {
    (j % width, j / width)
  }

  /** An index below width * height names a pixel inside the image. */
  lemma CoordBounds(j: int, width: int, height: int)
    requires width > 0 && 0 <= j < width * height
    ensures 0 <= Coord(j, width).0 < width && 0 <= Coord(j, width).1 < height
  {
    var x, y := j % width, j / width;
    assert y * width + x == j;
    assert y < height;
  }

  /** Every emitted index names a pixel of the image other than (0, 0), and
      the coordinate encodes it back as y * width + x. */
  lemma CoordInImage(j: int, width: int, height: int)
    requires width > 0 && 0 < j < width * height
    ensures 0 <= Coord(j, width).0 < width && 0 <= Coord(j, width).1 < height
    ensures Coord(j, width).1 * width + Coord(j, width).0 == j
    ensures Coord(j, width) != (0, 0)
  {
    CoordBounds(j, width, height);
    assert (j / width) * width + j % width == j;
  }

  /** Each pixel (x, y) of the image is the coordinate of the index
      y * width + x, which lies in [0, width * height) and is 0 only for
      (0, 0). */
  lemma CellIndex(x: int, y: int, width: int, height: int)
    requires 0 <= x < width && 0 <= y < height
    ensures Coord(y * width + x, width) == (x, y)
    ensures 0 <= y * width + x < width * height
    ensures (x, y) != (0, 0) ==> y * width + x > 0
  {
    var j := y * width + x;
    var q, r := j / width, j % width;
    assert (q - y) * width == x - r;
    if q > y {
      Pacing.MulMonotone(width, 1, q - y);
    } else if q < y {
      Pacing.MulMonotone(width, 1, y - q);
    }
    Pacing.MulMonotone(width, 0, y);
    Pacing.MulMonotone(width, y + 1, height);
    assert width * (y + 1) == y * width + width;
  }

  /** The coordinates of a sequence of indices, in order. */
  function Coords(indices: seq<int>, width: int): (r: seq<(int, int)>)
    requires width > 0
    ensures |r| == |indices|
    ensures forall i :: 0 <= i < |r| ==> 0 <= r[i].0 < width && r[i].1 * width + r[i].0 == indices[i]
  {
    seq(|indices|, i requires 0 <= i < |indices| => Coord(indices[i], width))
  }

  lemma CoordsAppend(a: seq<int>, b: seq<int>, width: int)
    requires width > 0
    ensures Coords(a + b, width) == Coords(a, width) + Coords(b, width)
  {
    var l, r := Coords(a + b, width), Coords(a, width) + Coords(b, width);
    forall i | 0 <= i < |l|
      ensures l[i] == r[i]
    {
      if i < |a| {
        assert (a + b)[i] == a[i];
      } else {
        assert (a + b)[i] == b[i - |a|];
      }
    }
  }

  /** Running one more state appends its indices, and their coordinates. */
  lemma CycleExtend(total: int, k: int, s: nat, width: int)
    requires InGroup(k) && width > 0
    ensures Iter(k, s + 1) == Step(Iter(k, s))
    ensures Cycle(total, k, s + 1) == Cycle(total, k, s) + StepIndices(total, Iter(k, s))
    ensures Coords(Cycle(total, k, s + 1), width) == Coords(Cycle(total, k, s), width) + Coords(StepIndices(total, Iter(k, s)), width)
  {
    IterSucc(k, s);
    CycleSnoc(total, k, s);
    CoordsAppend(Cycle(total, k, s), StepIndices(total, Iter(k, s)), width);
  }

  /** A run of a + b states is a run of a states followed by a run of b
      states from where the first left off. */
  lemma CycleResume(total: int, k: int, a: nat, b: nat, width: int)
    requires InGroup(k) && width > 0
    ensures Iter(k, a + b) == Iter(Iter(k, a), b)
    ensures Coords(Cycle(total, k, a + b), width) == Coords(Cycle(total, k, a), width) + Coords(Cycle(total, Iter(k, a), b), width)
  {
    IterAdd(k, a, b);
    CycleSplit(total, k, a, b);
    CoordsAppend(Cycle(total, k, a), Cycle(total, Iter(k, a), b), width);
  }
}
