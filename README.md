# 3D Movie Maker dissolve, modelled in Dafny

`dissolve.py` recreates the dissolve transition of 3D Movie Maker. The image
changes from a source picture to a destination picture one pixel at a time,
in a pseudo-random order, spread over a fixed duration. The pixel order
comes from the multiplicative generator of US patent 5,771,033, claims 3
and 4:

- It uses the prime p = 2^16 + 1 and the multiplier m = 2^15 - 1.
- Each state k yields the pixel numbers j = w*h + k - p, then j - (p - 1), and so on, while j stays positive.
- Each pixel number j becomes the coordinate (j mod w, j div w).
- The state then moves on to k := k*m mod p.

A `DissolveTransition` is advanced by `update(delta_ms)`. Each call does three things:

- It adds the delta to the elapsed time, clamped to the duration.
- It sets the swapped-pixel count to `int(total * elapsed / duration)`.
- It runs whole generator states until this call has handed at least the due difference (the new count minus the old one) to the `swap_pixel` callback.

The model has four modules:

- `Sequencer` (`sequencer.dfy`): the generator. A step keeps k within [1, p-1]. The orbit of every k has period exactly p - 1 = 2^16. The first p - 1 states are pairwise distinct and reach every nonzero residue. All of this is proved from the constants alone, using 15 modular squarings and an explicit inverse of m.
- `Emission` (`emission.dfy`): which pixel numbers each state emits and in which order, and what the outer loop of `update` emits for a given number of due pixels (`Drive`). For images of at most p - 1 pixels, one period emits every pixel number in [1, total) exactly once. Pixel 0 is never emitted.
- `Pacing` (`pacing.dfy`): the time arithmetic of `update` on its two counters. This covers the clamping, the truncated integer share of the total, and the return value.
- `Dissolve` (`dissolve.dfy`): the transition object as a class with the original's fields, updated in place.
  - The `swap_pixel` closure of the demo becomes the class `PixelBuffers`. It holds the two pixel arrays of `main`. It also keeps a ghost log of the coordinates it was called with and a ghost copy of the starting image. Its invariant says each cell shows the destination if it was logged, and the original otherwise.
  - `Update` is proved against `Pace` and `Drive`. It states its new counters, its new generator state, the exact sequence of `swap_pixel` calls, and the new contents of every cell.

Quirks of `dissolve.py` that the model keeps. They differ from what the comments in `update` and the patent steps they quote suggest (a reveal of every pixel, once each, finishing with the last call):

- The call whose elapsed time reaches the duration returns `True`, not `False` (line 94 runs unconditionally). Only the next call returns `False`. So for 100 x 100 pixels, 4000 ms and four `update(1000)` calls, the return values are true, true, true, true, and a fifth call returns false (`Pacing.WorkedExample`).
- A negative `delta_ms` is not rejected. It winds the elapsed time back and can lower `pixels_swapped` (`Pacing.PaceBackward`, `Pacing.NegativeDeltaLowersCount`). Early in a run it takes both below zero, outside [0, total] (`Pacing.NegativeDeltaBelowZero`).
- The inner loop tests `j > 0`, so pixel 0 (the top-left corner) is never swapped (`Emission.Cycle`, `Emission.FullCycleCoverage`, `Dissolve.DissolveTransition.SwapsInImage`).
- A state can emit several pixels while only fewer are due. The surplus is swapped but not counted (`Emission.DriveOvershoot`). For images of at most p - 1 pixels this cannot happen, because a state emits at most one pixel (`Emission.DriveExact`).
- Because one full period emits only total - 1 indices (`Emission.FullCycleLength`), a complete run on an image of 2 .. p - 1 pixels makes total `swap_pixel` calls over only total - 1 distinct pixels. The run needs at least one state past the full period (more when k0 itself emits nothing), and its last swap repeats its first one (`Emission.CompleteRunRepeats`). At the end every pixel but (0, 0) shows the destination, and (0, 0) still shows the source (`Dissolve.DissolveTransition.CompleteRunShows`).

## Model

| member | source | states |
|---|---|---|
| Sequencer.Step | dissolve.py:85-88 | one generator step k*m mod p maps [1, p-1] into [1, p-1]; the state never becomes 0 |
| Sequencer.StepInjective | dissolve.py:87-88 | two states that step to the same state are equal (m is invertible modulo p) |
| Sequencer.HalfCycle | dissolve.py:85-88 | 2^15 steps from k reach p - k |
| Sequencer.FullCycle | dissolve.py:85-88 | p - 1 = 2^16 steps from k return to k |
| Sequencer.NoShortPeriod | dissolve.py:85-88 | no number of steps strictly between 0 and p - 1 returns to k: m is a primitive root, as the comment at line 85 claims |
| Sequencer.OrbitInjective | dissolve.py:85-88 | the first p - 1 states of every orbit are pairwise distinct |
| Sequencer.OrbitSurjective | dissolve.py:85-88 | every value in [1, p-1] occurs among the first p - 1 states from any k in [1, p-1] |
| Sequencer.StepsToLastStep | dissolve.py:85-88 | a step from any state other than p - 1 brings it one step closer to p - 1, the termination measure of the outer loop |
| Emission.Fold | dissolve.py:75-83 | the inner loop started at j emits only numbers in (0, j] |
| Emission.FoldLength | dissolve.py:75-83 | the inner loop started at j emits ceil(j / (p-1)) numbers, and none when j <= 0 |
| Emission.StepIndices | dissolve.py:72-83 | the numbers one state emits all lie in [1, total) |
| Emission.StepIndicesSmall | dissolve.py:72-83 | for images of at most p - 1 pixels a state emits total + k - p when that is positive and nothing otherwise |
| Emission.LastStateEmits | dissolve.py:72-75 | with at least two pixels, state p - 1 always emits a pixel |
| Emission.Cycle | dissolve.py:69-88 | everything n consecutive states emit lies in [1, total) |
| Emission.CycleSplit | dissolve.py:69-88 | a run of a + b states emits what a run of a states emits, followed by what the next b states emit |
| Emission.CycleHas | dissolve.py:69-88 | whatever one of the first n states emits is emitted within n states |
| Emission.CycleSource | dissolve.py:69-88 | every number emitted within n states comes from one of those states |
| Emission.SinglePixelNeverEmits | dissolve.py:69-75 | on a one-pixel image no state ever emits, so the outer loop cannot make progress |
| Emission.CycleDistinct | dissolve.py:69-88 | for images of at most p - 1 pixels, the states of one period never emit the same number twice |
| Emission.FullCycleCoverage | dissolve.py:69-88 | for images of at most p - 1 pixels, one full period emits each of 1 .. total - 1 exactly once and nothing else |
| Emission.FullCycleLength | dissolve.py:69-88 | for images of at most p - 1 pixels, one full period emits exactly total - 1 indices, one fewer than the pixel count |
| Emission.DriveProgress | dissolve.py:69-88 | with at least two pixels, a state either emits or moves one step closer to p - 1 |
| Emission.Drive | dissolve.py:69-88 | for n > 0 due pixels the outer loop runs the fewest whole states whose emissions reach n; it ends at the state after them |
| Emission.DriveUnique | dissolve.py:69-88 | any run of states that first reaches n at its last state is the run Drive makes |
| Emission.DriveExact | dissolve.py:67-83 | for images of at most p - 1 pixels the outer loop swaps exactly the number of pixels it counted |
| Emission.DriveOvershoot | dissolve.py:67-83 | for larger images the swaps exceed the count by less than the most one state can emit |
| Emission.CompleteRunRepeats | dissolve.py:65-88 | for images of 2 .. p - 1 pixels, counting every pixel at once runs more than a full period, makes total swaps whose last equals the first, and so repeats a pixel |
| Emission.RepeatPastPeriod | dissolve.py:69-88 | a run of states past the full period that has emitted total indices ends with the index it began with |
| Emission.Coord | dissolve.py:78 | the coordinate (j % width, j // width) that swap_pixel receives for index j: x lies in [0, width) and y * width + x gives j back, Python's floor division and remainder for a positive width |
| Emission.Coords | dissolve.py:75-83 | the swap_pixel arguments for a run of indices, one per index and in the same order, each encoding its index back |
| Emission.CoordInImage | dissolve.py:78 | an emitted number is a coordinate inside the image, other than (0, 0), and y * width + x gives the number back |
| Emission.CellIndex | dissolve.py:78 | every pixel (x, y) of the image is the coordinate of the number y * width + x, which lies in [0, total) and is 0 only for (0, 0) |
| Pacing.TruncDiv | dissolve.py:65 | int() of the quotient truncates toward zero, for a numerator of either sign |
| Pacing.TruncDivMonotone | dissolve.py:65 | a larger numerator never gives a smaller truncated quotient, whatever the signs |
| Pacing.Pace | dissolve.py:54-67 | update returns false exactly when pixels_swapped has reached the total, and then changes nothing; otherwise elapsed is clamped to the duration and pixels_swapped grows by the due count |
| Pacing.PacePreserves | dissolve.py:60-67 | every call keeps pixels_swapped == int(total * elapsed / duration) with elapsed <= duration |
| Pacing.PacedBounds | dissolve.py:60-67 | under that invariant and with non-negative elapsed time, pixels_swapped is in [0, total] and equals the total exactly when the full duration has elapsed |
| Pacing.PacedAtMostTotal | dissolve.py:60-67 | under that invariant alone, whatever deltas (negative ones included) led to the state, pixels_swapped never exceeds the total |
| Pacing.PaceForward | dissolve.py:60-67 | a non-negative delta moves elapsed to min(elapsed + delta, duration) and never lowers pixels_swapped |
| Pacing.PaceBackward | dissolve.py:60-67 | a negative delta of any size never raises pixels_swapped, and then nothing is due |
| Pacing.NegativeDeltaLowersCount | dissolve.py:60-67 | a concrete call where a delta of -30 ms takes the count from 50 back to 20 |
| Pacing.NegativeDeltaBelowZero | dissolve.py:60-67 | a concrete call where a delta of -30 ms, 10 ms into the run, takes elapsed time and the count to -20 |
| Pacing.PaceZero | dissolve.py:54-67 | update(0) on a running transition changes nothing and returns true |
| Pacing.PaceCompletes | dissolve.py:54-94 | the call that reaches the duration sets pixels_swapped to the total and still returns true; the next call returns false and changes nothing |
| Pacing.Run | dissolve.py:154-157 | the counters after the host's successive update calls; whatever the deltas, the pacing invariant carries over and the count never exceeds the total |
| Pacing.RunCompletes | dissolve.py:54-67 | over non-negative deltas the count never decreases; once they add up to the duration, every pixel is counted |
| Pacing.WorkedExample | dissolve.py:54-94 | 100 x 100 pixels, 4000 ms and update(1000) four times give counts 2500, 5000, 7500, 10000 and return true each time; a fifth call returns false |
| Dissolve.PixelBuffers.constructor | dissolve.py:118-122 | the displayed image starts as a copy of the source; nothing has been swapped |
| Dissolve.PixelBuffers.SwapPixel | dissolve.py:125-126 | copies one destination pixel into the displayed image and leaves every other cell alone |
| Dissolve.PixelBuffers.OnlyLoggedChange | dissolve.py:125-126 | after a series of swap_pixel calls, each cell shows the destination if it was swapped and its old value otherwise |
| Dissolve.DissolveTransition.constructor | dissolve.py:28-48 | total is width * height, p = 65537, m = 32767, k = k0 in [1, p-1], and both counters are zero |
| Dissolve.DissolveTransition.Reset | dissolve.py:50-52 | reset zeroes elapsed time and pixels_swapped and leaves the sequencer state where it is |
| Dissolve.DissolveTransition.RunState | dissolve.py:71-88 | one outer-loop pass swaps the pixels StepIndices gives for k, in order, counts each off, and steps k once |
| Dissolve.DissolveTransition.SwapDuePixels | dissolve.py:69-88 | the outer loop swaps exactly the pixels Drive gives for the due count, and ends in Drive's state; it swaps nothing when none are due |
| Dissolve.DissolveTransition.Advance | dissolve.py:59-67 | the counters move as Pace says, and the due count is returned |
| Dissolve.DissolveTransition.Update | dissolve.py:54-94 | the return value and counters are as Pace gives them; the swaps are those Drive gives, each inside the image and never (0, 0); the invariant keeps pixels_swapped at most the number of swaps made; each cell shows the destination exactly when it was swapped in this call, and keeps its old value otherwise |
| Dissolve.DissolveTransition.SwapsInImage | dissolve.py:75-78 | every swap_pixel call made so far names a pixel inside the image other than (0, 0) |
| Dissolve.DissolveTransition.CompleteRunShows | dissolve.py:54-94 | once pixels_swapped reaches the total on an image of 2 .. p - 1 pixels whose buffers saw only this transition's swaps, every pixel but (0, 0) shows the destination and (0, 0) still shows the source |

## Left out

- The demo program `main` (dissolve.py:97-165): argument parsing, image loading, the window, the frame clock and the key handling. It is I/O. Only the two pixel arrays and the `swap_pixel` closure are modelled, as `PixelBuffers`.
- The restart on ESC (dissolve.py:148-151) re-copies the source into the displayed image and calls `reset`. `Reset` is modelled; the re-copy is part of `main`.
- The random choice of k0 (dissolve.py:47): k0 is a constructor parameter in [1, p-1].
- Floating point:
  - `update` divides in floating point and truncates with `int()` (dissolve.py:65). The model divides exactly and truncates toward zero (`Pacing.TruncDiv`). The two agree whenever |total * elapsed| <= 2^53. Beyond that bound the quotient of two doubles can be rounded to a different integer: for example, `int(2**60 / 3)` is 384307168202282304, while the exact quotient truncates to 384307168202282325.
  - The conversion of the duration from seconds to milliseconds (dissolve.py:128) is part of `main`.
- The colour palette update (dissolve.py:90-92) is a TODO in the source and does nothing.
- The abstract base class `Transition` (dissolve.py:12-23) is folded into `DissolveTransition`, which is its only subclass. The stubs that raise `NotImplementedError` are not modelled.
- Dissolve.DissolveTransition.constructor: requires a positive duration and positive dimensions. A zero duration makes the source's `update` raise `ZeroDivisionError`, and empty or negative dimensions do not describe an image. A negative duration does not raise in the source: the clamp at dissolve.py:61-62 sets elapsed time to the duration, so the first `update` counts every pixel at once. The model excludes that case.
- Dissolve.DissolveTransition.Update: requires an image of at least two pixels whenever a pixel is due. On a one-pixel image the source's outer loop never terminates (`Emission.SinglePixelNeverEmits`), so no postcondition can hold for that call.
- Dissolve.DissolveTransition.Update: the source's `update` is one method. Here it is split into `Advance` (the pacing), `SwapDuePixels` (the outer loop) and `RunState` (one pass of the outer loop with its inner loop).
- `swap_pixel` is the closure of the demo, not an arbitrary callable. The model does not cover callbacks with other effects.
- Pixel colours are opaque `Rgb` triples. The numpy array layout (x first) is kept as a two-dimensional array indexed `[x, y]`.
