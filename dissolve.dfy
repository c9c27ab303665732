/** The dissolve transition object and the host buffer its swap_pixel
    callback writes to. */
module Dissolve {
  import opened Sequencer
  import opened Emission
  import opened Pacing

  newtype Byte = x: int | 0 <= x < 256

  /** One pixel of the host's RGB pixel arrays. */
  datatype Rgb = Rgb(red: Byte, green: Byte, blue: Byte)

  lemma AppendAssoc<T>(a: seq<T>, b: seq<T>, c: seq<T>)
    ensures (a + b) + c == a + (b + c)
  {
  }

  /** The contents of a pixel array, as rows indexed [x][y]. */
  ghost function Snapshot(a: array2<Rgb>): (r: seq<seq<Rgb>>)
    reads a
    ensures |r| == a.Length0
    ensures forall x :: 0 <= x < |r| ==> |r[x]| == a.Length1
    ensures forall x, y :: 0 <= x < a.Length0 && 0 <= y < a.Length1 ==> r[x][y] == a[x, y]
  {
    seq(a.Length0, x requires 0 <= x < a.Length0 reads a =>
      seq(a.Length1, y requires 0 <= y < a.Length1 reads a => a[x, y]))
  }

  /** The host side of swap_pixel: the image on display and the image being
      dissolved to, both indexed [x, y] and of the same size. The ghost log
      records every swap_pixel call; the displayed image is the original one
      with the destination pixel copied in at each logged coordinate. */
  class PixelBuffers {
    const current: array2<Rgb>
    const dest: array2<Rgb>
    ghost const original: seq<seq<Rgb>>
    ghost var log: seq<(int, int)>

    ghost predicate Valid()
      reads this, current, dest
    {
      && current != dest && current.Length0 == dest.Length0 && current.Length1 == dest.Length1
      && |original| == current.Length0
      && (forall x :: 0 <= x < |original| ==> |original[x]| == current.Length1)
      && forall x, y :: 0 <= x < current.Length0 && 0 <= y < current.Length1 ==>
           current[x, y] == if (x, y) in log then dest[x, y] else original[x][y]
    }

    constructor (current: array2<Rgb>, dest: array2<Rgb>)
      requires current != dest
      requires current.Length0 == dest.Length0 && current.Length1 == dest.Length1
      ensures Valid() && this.current == current && this.dest == dest
      ensures original == Snapshot(current) && log == []
    {
      this.current := current;
      this.dest := dest;
      original := Snapshot(current);
      log := [];
    }

    /** swap_pixel(x, y): copy pixel (x, y) of the destination image onto the
        current image and leave every other pixel alone. */
    method SwapPixel(x: int, y: int)
      requires Valid() && 0 <= x < current.Length0 && 0 <= y < current.Length1
      modifies this`log, current
      ensures Valid() && log == old(log) + [(x, y)]
      ensures current[x, y] == dest[x, y]
      ensures forall i, j :: 0 <= i < current.Length0 && 0 <= j < current.Length1 && (i, j) != (x, y) ==>
        current[i, j] == old(current[i, j])
    {
      current[x, y] := dest[x, y];
      log := log + [(x, y)];
      forall i, j | 0 <= i < current.Length0 && 0 <= j < current.Length1
        ensures current[i, j] == if (i, j) in log then dest[i, j] else original[i][j]
      {
        assert (i, j) in log <==> (i, j) in old(log) || (i, j) == (x, y);
      }
    }

    /** Between two valid states whose log grew by `added`, the pixels at
        the added coordinates show the destination image and every other
        pixel is as it was. */
    twostate lemma OnlyLoggedChange(new added: seq<(int, int)>)
      requires old(Valid()) && Valid() && log == old(log) + added
      requires unchanged(dest)
      ensures forall x, y :: 0 <= x < current.Length0 && 0 <= y < current.Length1 ==>
        current[x, y] == if (x, y) in added then dest[x, y] else old(current[x, y])
    {
      forall x, y | 0 <= x < current.Length0 && 0 <= y < current.Length1
        ensures current[x, y] == if (x, y) in added then dest[x, y] else old(current[x, y])
      {
        assert (x, y) in log <==> (x, y) in old(log) || (x, y) in added;
      }
    }
  }

  /** A timed dissolve: over durationMs it swaps the pixels of a
      width x height image in the order the sequencer gives. */
  class DissolveTransition {
    const width: int
    const height: int
    /** The buffers the swap_pixel callback writes. */
    const host: PixelBuffers

    const durationMs: int
    const pixelsTotal: int
    const p: int
    const m: int

    var elapsedMs: int
    var pixelsSwapped: int
    var k: int

    /** Every swap_pixel call made so far, in order. */
    ghost var swaps: seq<(int, int)>
    /** The sequencer state at construction ... */
    ghost const k0: int
    /** ... and the number of sequencer steps taken since. */
    ghost var steps: nat

    /** The configuration fixed at construction. */
    ghost predicate Shape()
      reads this
    {
      && durationMs > 0 && width > 0 && height > 0 && pixelsTotal == width * height
      && p == P && m == M
      && host.current != host.dest && host.current.Length0 == width && host.current.Length1 == height
    }

    /** The configuration, the sequencer state reached from k0 after the
        steps taken so far, every swap made so far, and the pacing
        invariant. */
    ghost predicate Valid()
      reads this
    {
      && Shape()
      && Swept()
      && Paced(pixelsTotal, durationMs, Progress(elapsedMs, pixelsSwapped))
      && pixelsSwapped <= |swaps|
    }

    /** The sequencer has taken `steps` steps from k0, and swap_pixel has
        been called on exactly the indices those steps emit. */
    ghost predicate Swept()
      reads this
      requires Shape()
    {
      InGroup(k0) && k == Iter(k0, steps) && swaps == Coords(Cycle(pixelsTotal, k0, steps), width)
    }

    /** The initial sequencer state k0 in [1, p-1] is passed in; the
        original draws it at random. */
    constructor (durationMs: int, width: int, height: int, host: PixelBuffers, k0: int)
      requires durationMs > 0 && width > 0 && height > 0
      requires host.current != host.dest && host.current.Length0 == width && host.current.Length1 == height
      requires InGroup(k0)
      ensures Valid()
      ensures this.durationMs == durationMs && this.width == width && this.height == height
      ensures this.host == host && pixelsTotal == width * height && p == 65537 && m == 32767
      ensures elapsedMs == 0 && pixelsSwapped == 0 && k == k0 && this.k0 == k0
      ensures swaps == [] && steps == 0
    {
      this.width := width;
      this.height := height;
      this.host := host;
      this.durationMs := durationMs;
      elapsedMs := 0;
      pixelsTotal := width * height;
      pixelsSwapped := 0;
      p := P;
      m := M;
      k := k0;
      this.k0 := k0;
      steps := 0;
      swaps := [];
    }

    /** Rewinds the pacing to the start; the sequencer carries on from
        where it is. */
    method Reset()
      requires Valid()
      modifies this
      ensures Valid()
      ensures Progress(elapsedMs, pixelsSwapped) == Start
      ensures k == old(k) && steps == old(steps) && swaps == old(swaps)
    {
      elapsedMs := 0;
      pixelsSwapped := 0;
    }

    /** One pass of update's outer loop, for the current sequencer state k:
        the inner loop walks j = pixelsTotal + k - p downwards in strides of
        p - 1 while it is positive, swapping the pixel of each j and counting
        it off pixelsToSwap; then k takes one sequencer step. The pixels
        swapped are those StepIndices gives for k. */
    method RunState(pixelsToSwap: int) returns (left: int)
      requires Shape() && InGroup(k) && host.Valid()
      modifies this`k, this`steps, this`swaps, host`log, host.current
      ensures host.Valid()
      ensures k == Step(old(k)) && steps == old(steps) + 1
      ensures left == pixelsToSwap - |StepIndices(pixelsTotal, old(k))|
      ensures swaps == old(swaps) + Coords(StepIndices(pixelsTotal, old(k)), width)
      ensures host.log == old(host.log) + Coords(StepIndices(pixelsTotal, old(k)), width)
    {
      left := pixelsToSwap;
      ghost var stepDone: seq<int> := [];
      ghost var out: seq<(int, int)> := [];
      var j := pixelsTotal + k - p;
      while j > 0
        invariant host.Valid()
        invariant StepIndices(pixelsTotal, k) == stepDone + Fold(j)
        invariant left == pixelsToSwap - |stepDone|
        invariant out == Coords(stepDone, width)
        invariant swaps == old(swaps) + out && host.log == old(host.log) + out
        modifies this`swaps, host`log, host.current
        decreases j
      {
        assert StepIndices(pixelsTotal, k) == (stepDone + [j]) + Fold(j - (p - 1)) by {
          FoldStep(stepDone, j);
        }
        CoordBounds(j, width, height);
        ghost var c := Coord(j, width);
        assert out + [c] == Coords(stepDone + [j], width) by {
          CoordsAppend(stepDone, [j], width);
        }
        assert swaps + [c] == old(swaps) + (out + [c]) && host.log + [c] == old(host.log) + (out + [c]) by {
          AppendAssoc(old(swaps), out, [c]);
          AppendAssoc(old(host.log), out, [c]);
        }
        host.SwapPixel(j % width, j / width);
        swaps := swaps + [(j % width, j / width)];
        left := left - 1;
        out := out + [c];
        stepDone := stepDone + [j];
        j := j - (p - 1);
      }
      assert stepDone == StepIndices(pixelsTotal, k);
      k := (k * m) % p;
      steps := steps + 1;
    }

    /** The outer loop of update: for pixelsToSwap > 0 it runs whole
        sequencer states, each through RunState, until at least
        pixelsToSwap pixels have been swapped, exactly as Drive says; for
        pixelsToSwap <= 0 it does nothing. */
    method SwapDuePixels(pixelsToSwap: int)
      requires Shape() && Swept() && host.Valid() && (pixelsToSwap <= 0 || pixelsTotal >= 2)
      modifies this`k, this`steps, this`swaps, host`log, host.current
      ensures Swept() && host.Valid()
      ensures if pixelsToSwap > 0 then
          var d := Drive(pixelsTotal, old(k), pixelsToSwap);
          k == d.k && steps == old(steps) + d.steps && swaps == old(swaps) + Coords(d.indices, width)
        else
          k == old(k) && steps == old(steps) && swaps == old(swaps)
      ensures host.log == old(host.log) + swaps[|old(swaps)|..]
    {
      var toSwap := pixelsToSwap;
      ghost var kStart, stepsStart, swapsStart, logStart := k, steps, swaps, host.log;
      ghost var done: seq<int> := [];
      ghost var out: seq<(int, int)> := [];
      ghost var s: nat := 0;
      while toSwap > 0
        invariant host.Valid()
        invariant InGroup(k) && steps == stepsStart + s && k == Iter(kStart, s)
        invariant done == Cycle(pixelsTotal, kStart, s) && toSwap == pixelsToSwap - |done|
        invariant s == 0 || |Cycle(pixelsTotal, kStart, s - 1)| < pixelsToSwap
        invariant out == Coords(done, width) && swaps == swapsStart + out && host.log == logStart + out
        decreases toSwap, StepsToLast(k)
      {
        ghost var before, emitted := k, Coords(StepIndices(pixelsTotal, k), width);
        assert |StepIndices(pixelsTotal, k)| > 0 || StepsToLast(Step(k)) < StepsToLast(k) by {
          DriveProgress(pixelsTotal, k);
        }
        toSwap := RunState(toSwap);
        assert swaps == swapsStart + (out + emitted) by {
          AppendAssoc(swapsStart, out, emitted);
        }
        assert host.log == logStart + (out + emitted) by {
          AppendAssoc(logStart, out, emitted);
        }
        assert out + emitted == Coords(done + StepIndices(pixelsTotal, before), width) by {
          CoordsAppend(done, StepIndices(pixelsTotal, before), width);
        }
        assert done + StepIndices(pixelsTotal, before) == Cycle(pixelsTotal, kStart, s + 1) && k == Iter(kStart, s + 1) by {
          CycleExtend(pixelsTotal, kStart, s, width);
        }
        out := out + emitted;
        done := done + StepIndices(pixelsTotal, before);
        s := s + 1;
      }
      assert k == Iter(k0, steps) && swaps == Coords(Cycle(pixelsTotal, k0, steps), width) by {
        CycleResume(pixelsTotal, k0, stepsStart, s, width);
      }
      assert swaps[|swapsStart|..] == out;
      if pixelsToSwap > 0 {
        assert Drive(pixelsTotal, kStart, pixelsToSwap) == Driven(done, k, s) by {
          DriveUnique(pixelsTotal, kStart, pixelsToSwap, s);
        }
      }
    }

    /** The pacing half of update on a transition that has not finished:
        advances and clamps the elapsed time, and moves pixelsSwapped to the
        share of the pixel total that the elapsed time calls for. Returns the
        difference, the number of pixels due in this call. */
    method Advance(deltaMs: int) returns (pixelsToSwap: int)
      requires Shape() && Paced(pixelsTotal, durationMs, Progress(elapsedMs, pixelsSwapped))
      requires pixelsSwapped < pixelsTotal
      modifies this`elapsedMs, this`pixelsSwapped
      ensures var t := Pace(pixelsTotal, durationMs, old(Progress(elapsedMs, pixelsSwapped)), deltaMs);
        Progress(elapsedMs, pixelsSwapped) == t.after && pixelsToSwap == t.toSwap
      ensures Paced(pixelsTotal, durationMs, Progress(elapsedMs, pixelsSwapped))
    {
      PacePreserves(pixelsTotal, durationMs, Progress(elapsedMs, pixelsSwapped), deltaMs);
      elapsedMs := elapsedMs + deltaMs;
      if elapsedMs >= durationMs {
        elapsedMs := durationMs;
      }
      pixelsToSwap := TruncDiv(pixelsTotal * elapsedMs, durationMs) - pixelsSwapped;
      pixelsSwapped := pixelsSwapped + pixelsToSwap;
    }

    /** Advances the transition by deltaMs: the counters move as Pace says,
        and when pixels are due the sequencer runs as Drive says, calling
        swap_pixel on each emitted index. Returns false, changing nothing,
        only if the transition had already finished. A one-pixel image must
        not be asked to swap a pixel: update would never return. */
    method Update(deltaMs: int) returns (running: bool)
      requires Valid() && host.Valid()
      requires pixelsTotal >= 2 || Pace(pixelsTotal, durationMs, Progress(elapsedMs, pixelsSwapped), deltaMs).toSwap <= 0
      modifies this, host`log, host.current
      ensures Valid() && host.Valid()
      ensures var t := Pace(pixelsTotal, durationMs, old(Progress(elapsedMs, pixelsSwapped)), deltaMs);
        && running == t.running
        && Progress(elapsedMs, pixelsSwapped) == t.after
        && if t.toSwap > 0 then
             var d := Drive(pixelsTotal, old(k), t.toSwap);
             k == d.k && steps == old(steps) + d.steps && swaps == old(swaps) + Coords(d.indices, width)
           else
             k == old(k) && steps == old(steps) && swaps == old(swaps)
      ensures host.log == old(host.log) + swaps[|old(swaps)|..]
      ensures old(host.log) == old(swaps) ==> host.log == swaps
      ensures forall c :: c in swaps[|old(swaps)|..] ==> 0 <= c.0 < width && 0 <= c.1 < height && c != (0, 0)
      ensures forall x, y :: 0 <= x < width && 0 <= y < height ==>
        host.current[x, y] == if (x, y) in swaps[|old(swaps)|..] then host.dest[x, y] else old(host.current[x, y])
    {
      if pixelsSwapped >= pixelsTotal {
        assert swaps[|swaps|..] == [];
        host.OnlyLoggedChange([]);
        return false;
      }
      var pixelsToSwap := Advance(deltaMs);
      SwapDuePixels(pixelsToSwap);
      ghost var added := swaps[|old(swaps)|..];
      assert swaps == old(swaps) + added && pixelsSwapped <= |swaps|;
      assert forall c :: c in added ==> 0 <= c.0 < width && 0 <= c.1 < height && c != (0, 0) by {
        SwapsInImage();
      }
      host.OnlyLoggedChange(added);
      return true;
    }

    /** Every swap made so far names a pixel inside the image, never (0, 0). */
    lemma SwapsInImage()
      requires Shape() && Swept()
      ensures forall i :: 0 <= i < |swaps| ==>
        0 <= swaps[i].0 < width && 0 <= swaps[i].1 < height && swaps[i] != (0, 0)
    {
      var c := Cycle(pixelsTotal, k0, steps);
      forall i | 0 <= i < |swaps|
        ensures 0 <= swaps[i].0 < width && 0 <= swaps[i].1 < height && swaps[i] != (0, 0)
      {
        assert swaps[i] == Coord(c[i], width);
        CoordInImage(c[i], width, height);
      }
    }

    /** A complete run on an image of 2 .. p - 1 pixels, with buffers that
        have seen only this transition's swaps: every pixel but (0, 0) shows
        the destination image, and (0, 0) still shows the original one. */
    lemma CompleteRunShows()
      requires Valid() && host.Valid() && host.log == swaps
      requires 2 <= pixelsTotal <= P - 1 && pixelsSwapped == pixelsTotal
      ensures forall x, y :: 0 <= x < width && 0 <= y < height ==>
        host.current[x, y] == if (x, y) == (0, 0) then host.original[0][0] else host.dest[x, y]
    {
      var c := Cycle(pixelsTotal, k0, steps);
      assert steps >= Period by {
        if steps < Period {
          FullCycleLength(pixelsTotal, k0);
          CycleGrows(pixelsTotal, k0, steps, Period);
        }
      }
      SwapsInImage();
      forall x, y | 0 <= x < width && 0 <= y < height && (x, y) != (0, 0)
        ensures (x, y) in swaps
      {
        var j := y * width + x;
        assert Coord(j, width) == (x, y) && 0 < j < pixelsTotal by {
          CellIndex(x, y, width, height);
        }
        assert j in c by {
          FullCycleCoverage(pixelsTotal, k0);
          var t := CycleSource(pixelsTotal, k0, Period, j);
          CycleHas(pixelsTotal, k0, steps, t, j);
        }
        var i :| 0 <= i < |c| && c[i] == j;
        assert swaps[i] == (x, y);
      }
    }
  }
}
