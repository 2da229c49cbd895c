# Infinite spring carousel: position algorithm

This project models the core of `Carousel` in `src/Slider.js`. This is a React widget that shows a fixed list
of items as an endless loop of slides. Each drag event from the gesture library goes to `runSprings`. That
function decides whether the drag commits to the next or previous slide. It then updates the 1-based active
indicator, computes a target offset `x` for every slide, and sets an `immediate` flag on the slide that jumps
across the wrap boundary, so the spring engine does not animate it the long way round. `InstaCounter` draws
one indicator dot per item.

Modules:

- `JsArith` (`js_arith.dfy`): JavaScript's truncated `%` as `JsRem`, the wrap helper `idx` as `Idx`, and
  their relation to Dafny's Euclidean `%`.
- `Layout` (`layout.dfy`): the per-event arithmetic as pure functions of the configuration, the logical
  index, the remembered `[firstVis, firstVisIdx]` pair and one drag event, with the lemmas about them.
- `Indicator` (`indicator.dfy`): the dot-building loop of `InstaCounter` and the count of active dots.
- `Controller` (`controller.dfy`): class `Carousel`. It holds the `index` and `prev` refs, the `active`
  state and the spring targets as fields, updated in place by `RunSprings` and by the drag handler `OnDrag`.
  Two client methods replay a commit and a snap-back.

The central fact is `Layout.SlideAtSlot`. Whatever the logical index, including negative ones, each target
is `width * (position - firstVisIdx)` plus the live drag and the centring offset. The wrapped scroll term
`JsRem(-finalY, width * count)` and the rank's corrections for a negative scroll cancel exactly. The rest
follows from this fact:
- no two slides of a frame share a target, and they tile a strip when the velocity is not negative or
  `visible <= count` (`FrameTiles`);
- one full turn of the index changes nothing (`FramePeriodic`);
- the starting layout is a resting frame at index 0 (`InitialLayoutIsRestingFrame`);
- with at least two items, a one-slide step flags exactly one slide as immediate when the direction of
  the velocity is unchanged: on a forward step with non-negative velocity after a frame whose
  `firstVisIdx` was 1 (`StepForwardFlagsOne`), and on a backward step with negative velocity after a frame
  with the same `firstVisIdx`, when `visible <= count` (`StepBackwardFlagsOne`). With one item no frame
  flags the slide (`SingleItemSlot`), since its only position is always 0.

Behaviour of the code as written that the lemmas make explicit:

- Line 46 sets `windowWidth` to `itemWidth` whenever `itemWidth` is a number. So the centring offset of
  line 51 is always 0 (`MakeConfig`).
- When more slides are visible than there are items, a frame with negative velocity can pass `idx` an
  argument below `-count`. With at least two items a position can then fall outside `[0, count)`. This
  happens with three items and the default `visible = 4` exactly at the indices `2 mod 3`
  (`PositionLeavesRange`). With one item `idx` is
  always 0, so the position stays 0. Positions still differ from slide to slide, because `idx` keeps the
  residue of its argument (`IdxCongruent`, `GetPos`), so no two targets coincide. But a slide can leave the
  strip `[-firstVisIdx, count - firstVisIdx)`, so the strip bound of `FrameTiles` and the permutation
  lemma `GetPosPermutation` are stated only for a non-negative velocity or `visible <= count`.
- With one item, the only slide sits in slot `-firstVisIdx` (`SingleItemSlot`). For a non-negative
  velocity, and in the starting layout, that is slot -1, one width to the left of the offset (plus the live drag
  while down). For a negative velocity it is slot `visible`, `visible` widths to the right. It is never flagged immediate.
- On a forward step the flagged slide moves from position 0 to position `count - 1`, that is from slot -1 to
  slot `count - 2` (`StepForwardFlagsOne`).
- The active index lies in `[1, count]` for every `count >= 1` (`ActiveIndex`).
- The code checks neither the item count nor the width. An empty item list makes every `%` a modulo by
  zero, so the constructor requires at least one item and a positive width.

## Model

| member | source | states |
|---|---|---|
| `JsArith.JsRem` | src/Slider.js:63 | JavaScript `%` on integers: the result is smaller in magnitude than the divisor and has the dividend's sign |
| `JsArith.JsRemAsMod` | src/Slider.js:65 | JavaScript `%` equals Euclidean `%`, except on a negative non-multiple, where it is one divisor lower |
| `JsArith.JsRemCongruent` | src/Slider.js:73 | JavaScript `%` is congruent to its dividend modulo the divisor |
| `JsArith.JsRemScale` | src/Slider.js:81 | scaling dividend and divisor by the same positive width scales JavaScript's remainder by that width |
| `JsArith.Idx` | src/Slider.js:48 | `idx` returns a value strictly between `-l` and `l`, and a non-negative value for a non-negative argument |
| `JsArith.IdxIsMod` | src/Slider.js:48 | for every argument at or above `-l`, `idx` is the mathematical `x mod l`, so it lies in `[0, l)` |
| `JsArith.IdxCongruent` | src/Slider.js:48 | for every argument, `idx` leaves the residue modulo `l` unchanged |
| `JsArith.IdxBelowRange` | src/Slider.js:48 | below `-l`, `idx` is negative exactly when `l` does not divide the argument; it is then `x mod l - l` |
| `Layout.MakeConfig` | src/Slider.js:45-51 | width is the window width for `'full'` and `itemWidth` otherwise; the centring offset is 0 in both branches |
| `Layout.Commits` | src/Slider.js:59 | the commit test: pointer down and a drag past half a width or a speed past the sensitivity; its meaning for the index is stated by `CommitIndex` |
| `Layout.CommitIndex` | src/Slider.js:59-60 | the index moves by at most one. It moves iff the pointer is down and the drag passes half a width or the speed passes the sensitivity. It moves back iff also `xDir > 0` |
| `Layout.ActiveIndex` | src/Slider.js:62-68 | the three-branch indicator lies in `[1, count]` for every integer index, and `active - 1` is the Euclidean `index mod count` |
| `Layout.FirstVis` | src/Slider.js:71-73 | `firstVis` is the Euclidean `index mod count` for every index, negative ones included |
| `Layout.FirstVisIdx` | src/Slider.js:74 | the slot of the first visible slide: 1 for a non-negative velocity, `count - visible - 1` for a negative one; `SlideAtSlot` and `SingleItemSlot` show where it puts the slides |
| `Layout.GetPos` | src/Slider.js:49 | `getPos` lies strictly between `-count` and `count` and is congruent to `i - firstVis + firstVisIdx` modulo `count` for every input; `GetPosPermutation` makes it a bijection when `idx` stays in range |
| `Layout.Rank` | src/Slider.js:78 | the rank of a slide with the negative-scroll corrections; `RankUndoesWrap` and `ScrollCancelsRank` give its value |
| `Layout.SlideX` | src/Slider.js:81 | the target `x` as written; `SlideAtSlot` gives it in closed form |
| `Layout.Immediate` | src/Slider.js:85 | a slide is flagged only if its position changed; the step lemmas say exactly which one is |
| `Layout.SlideSpring` | src/Slider.js:76-86 | one slide's target and flag for one event; `SlideAtSlot` and the step lemmas pin both |
| `Layout.Frame` | src/Slider.js:75-87 | the spring engine gets one target per slide |
| `Layout.InitialSprings` | src/Slider.js:52 | the starting layout has one target per slide |
| `Layout.GetPosPermutation` | src/Slider.js:49 | when `firstVisIdx - firstVis >= -count`, `getPos` is the Euclidean `(i - firstVis + firstVisIdx) mod count`. It is injective on the slides, and every position has the preimage `SlideAtPosition` |
| `Layout.RankUndoesWrap` | src/Slider.js:78 | in slide units, the rank's negative-scroll corrections add up to `position - firstVisIdx - JsRem(-index, count)` |
| `Layout.ScrollCancelsRank` | src/Slider.js:78-81 | `JsRem(-finalY, width * count) + width * rank == width * (position - firstVisIdx)` for every index |
| `Layout.SlideAtSlot` | src/Slider.js:81 | a slide's target is `width * (position - firstVisIdx)`, plus `xMove` only while down, plus the offset |
| `Layout.FrameTiles` | src/Slider.js:75-81 | the targets of one frame are pairwise distinct for every index and velocity; when the velocity is non-negative or `visible <= count` they also lie in `[-firstVisIdx, count - firstVisIdx)` widths around drag plus offset |
| `Layout.FramePeriodic` | src/Slider.js:71-81 | adding `count` to the index, i.e. `width * count` of scroll, leaves every target and flag unchanged |
| `Layout.InitialLayoutIsRestingFrame` | src/Slider.js:52-54 | for a non-negative velocity, the starting layout equals the frame of a released pointer at index 0 with the initial `prev` of `[0, 1]` |
| `Layout.RepeatFrameStill` | src/Slider.js:85-88 | when `prev` holds this frame's own `[firstVis, firstVisIdx]`, no slide is immediate |
| `Layout.StepForwardFlagsOne` | src/Slider.js:85 | with at least two items, after a step forward with non-negative velocity from a frame whose `firstVisIdx` was 1 (a non-negative velocity there too), exactly the slide `(index - 2) mod count` is immediate; it moves from position 0 in the previous frame to position `count - 1` |
| `Layout.StepBackwardFlagsOne` | src/Slider.js:85 | with at least two items, after a step backward with negative velocity from a frame with the same `firstVisIdx`, and `visible <= count`, exactly the slide `(index - firstVisIdx) mod count` is immediate |
| `Layout.SingleItemSlot` | src/Slider.js:52 | with one item, the only slide is one width left of the offset initially; in every frame it is one width left of the offset plus the live drag for a non-negative velocity, and `visible` widths right of it for a negative one; it is never immediate |
| `Layout.PositionLeavesRange` | src/Slider.js:74-76 | with three items, the default four visible and a negative velocity, slide 0 gets the position -1 at every index `2 mod 3`, and at every other index all positions stay in `[0, 3)` |
| `Indicator.InstaCounter` | src/Slider.js:109-114 | one dot per item, keyed by its position, and active exactly when its position is `currentIndex - 1` |
| `Indicator.ExactlyOneActive` | src/Slider.js:113 | such dots have exactly one active dot when `currentIndex` is in `[1, count]`, and none otherwise |
| `Controller.Carousel.constructor` | src/Slider.js:45-55 | `itemWidth`, `visible` and `sensitivity` default to `'full'`, 4 and 1; starts with index 0, `prev` `[0, 1]`, active 1 and the initial layout, and the object invariant holds |
| `Controller.Carousel.RunSprings` | src/Slider.js:56-91 | new index, active, targets and `prev` follow the layout functions. Cancel gets the new index exactly on a commit. No slide is immediate when the index and `firstVisIdx` are unchanged. With at least two items exactly one is immediate after a forward step with non-negative velocity from a frame with `firstVisIdx` 1, and after a backward step with negative velocity, unchanged `firstVisIdx` and `visible <= count` |
| `Controller.Carousel.OnDrag` | src/Slider.js:93-97 | a zero horizontal velocity changes nothing; otherwise the controller runs with the velocity negated |
| `Controller.Carousel.Indicator` | src/Slider.js:104 | the rendered indicator has one dot per item and exactly one active dot, the one at `index mod count` |

## Left out

- React plumbing: `useState`, `useRef`, `useCallback` memoisation, JSX and the `styles` object. The refs and
  the state are fields of `Carousel`, and a call to `set` stores the targets in `springs`.
- The spring engine (`useSprings`, `set`, and the `useSpring` of `Dot` with its opacity and scale). Only the
  targets and the `immediate` flags given to it are modelled, not the interpolation.
- The gesture library. `OnDrag` takes the five fields as parameters. The cancel callback becomes the
  returned `Option`. `runSprings` never reads its first argument (`-x`), so it is not modelled.
- `window.innerWidth` is a constructor parameter.
- Floating point: velocity, direction, distance, movement, sensitivity and offset are exact reals. Width is
  an integer number of pixels. `Math.floor(finalY / width)` is exact division of `index * width`. Rounding
  and `-0` are not modelled.
- `JsArith.JsRem`: only positive divisors, because the source divides only by `count` and `width * count`.
- An empty item list (a modulo by zero) and a non-positive width are excluded by the constructor's
  precondition.
- Determinism and replay: every operation is a function or a method with a fully specified new state, so
  replaying the same events from the same state gives the same result. There is no separate lemma for it.
- `src/index.js`: a demo page that renders the carousel, with no logic of its own.
