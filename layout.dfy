/**
 * The per-event arithmetic of the infinite carousel in src/Slider.js:
 * the commit decision, the 1-based active indicator, the first visible
 * slide, each slide's position, rank and target offset, and the
 * `immediate` flag that hides the wrap-around jump.
 *
 * Everything here is a pure function of the configuration, the logical
 * index, the remembered `[firstVis, firstVisIdx]` pair and one drag event;
 * the class in module Controller holds that state between events.
 */
module Layout {
  import opened JsArith

  /** `itemWidth`: the sentinel `'full'` (slide as wide as the window) or a fixed pixel width. */
  datatype ItemWidth = Full | Fixed(px: int)

  /** Defaults of the component's props. */
  const DefaultVisible: int := 4
  const DefaultSensitivity: real := 1.0

  /**
   * The component's fixed parameters: item count, slide width, number of
   * visible slides, centring offset and commit-velocity sensitivity.
   */
  datatype Config = Config(count: int, width: int, visible: int, offset: real, sensitivity: real)
  {
    /** The modulo arithmetic divides by `count` and halves `width`. */
    predicate Valid() {
      count >= 1 && width > 0
    }
  }

  /**
   * Width and centring offset as the component derives them from its
   * props and the window width. When `itemWidth` is fixed, `windowWidth`
   * is set to `itemWidth` itself, so the centring offset is always zero.
   */
  function MakeConfig(count: int, itemWidth: ItemWidth, innerWidth: int, visible: int, sensitivity: real): (c: Config)
    ensures c.offset == 0.0
    ensures itemWidth.Full? ==> c.width == innerWidth
    ensures itemWidth.Fixed? ==> c.width == itemWidth.px
    ensures c.count == count && c.visible == visible && c.sensitivity == sensitivity
  {
    var windowWidth := if itemWidth.Full? then innerWidth else itemWidth.px;
    var width := if itemWidth.Full? then windowWidth else itemWidth.px;
    var offset := if itemWidth.Full? then 0.0 else (windowWidth - itemWidth.px) as real / 2.0;
    Config(count, width, visible, offset, sensitivity)
  }

  /** The fields of a drag event that the controller reads (velocity already negated). */
  datatype Drag = Drag(vy: real, down: bool, xDir: real, distance: real, xMove: real)

  /** The target handed to the spring engine for one slide. */
  datatype Spring = Spring(x: real, immediate: bool)

  function Abs(r: real): (m: real) {
    if r < 0.0 then -r else r
  }

  // ---------------------------------------------------------------------
  // Commit decision and active indicator
  // ---------------------------------------------------------------------

  /** While the pointer is down, a drag past half a slide or a fast flick commits. */
  predicate Commits(c: Config, d: Drag) {
    d.down && (d.distance > c.width as real / 2.0 || Abs(d.vy) > c.sensitivity)
  }

  /** The logical index after the commit decision. */
  function CommitIndex(c: Config, index: int, d: Drag): (n: int)
    ensures index - 1 <= n <= index + 1
    ensures n != index <==> Commits(c, d)
    ensures n < index <==> Commits(c, d) && d.xDir > 0.0
  {
    if Commits(c, d) then index + (if d.xDir > 0.0 then -1 else 1) else index
  }

  /** The 1-based indicator index, by the three branches of the source. */
  function ActiveIndex(count: int, index: int): (a: int)
    requires count >= 1
    ensures 1 <= a <= count
    ensures a - 1 == index % count
  {
    if index + 1 > count then
      JsRemAsMod(index, count);
      JsRem(index, count) + 1
    else if index < 0 then
      JsRemAsMod(index + 1, count);
      ModSucc(index, count);
      count + JsRem(index + 1, count)
    else
      ModSmall(index, count);
      index + 1
  }

  // ---------------------------------------------------------------------
  // First visible slide, positions and ranks
  // ---------------------------------------------------------------------

  /** `firstVis`: the wrapped index of the first visible slide, from the scroll value `index * width`. */
  function FirstVis(c: Config, index: int): (f: int)
    requires c.Valid()
    ensures f == index % c.count
  {
    var finalY := index * c.width;
    ModUnique(finalY, c.width, index, 0);
    JsRemCongruent(index, c.count);
    IdxIsMod(JsRem(index, c.count), c.count);
    Idx(JsRem(finalY / c.width, c.count), c.count)
  }

  /** `firstVisIdx`: the slot the first visible slide takes, by the sign of the velocity. */
  function FirstVisIdx(c: Config, vy: real): (k: int) {
    if vy < 0.0 then c.count - c.visible - 1 else 1
  }

  /** `getPos`: slide `i`'s position relative to the first visible slide. */
  function GetPos(count: int, i: int, firstVis: int, firstVisIdx: int): (p: int)
    requires count >= 1
    ensures -count < p < count
    ensures p % count == (i - firstVis + firstVisIdx) % count
  {
    IdxCongruent(i - firstVis + firstVisIdx, count);
    Idx(i - firstVis + firstVisIdx, count)
  }

  /** `rank`: the slot of a slide, with the corrections for a negative scroll value. */
  function Rank(count: int, finalY: int, firstVis: int, firstVisIdx: int, position: int): (rank: int) {
    firstVis - (if finalY < 0 then count else 0) + position - firstVisIdx
      + (if finalY < 0 && firstVis == 0 then count else 0)
  }

  /** Target `x`: wrapped scroll value, the slot, the live drag while down, and the centring offset. */
  function SlideX(c: Config, finalY: int, rank: int, d: Drag): (x: real)
    requires c.Valid()
  {
    assert c.width * c.count > 0 by { MulAtLeast(c.count, c.width); }
    (JsRem(-finalY, c.width * c.count) + c.width * rank) as real
      + (if d.down then d.xMove else 0.0) + c.offset
  }

  /** A slide jumps without animation when its position moved against the direction of travel. */
  function Immediate(vy: real, prevPosition: int, position: int): (jump: bool)
    ensures jump ==> prevPosition != position
  {
    if vy < 0.0 then prevPosition > position else prevPosition < position
  }

  /** The spring target of slide `i` for one event. */
  function SlideSpring(c: Config, index: int, prev: (int, int), d: Drag, i: int): (s: Spring)
    requires c.Valid()
  {
    var finalY := index * c.width;
    var firstVis := FirstVis(c, index);
    var firstVisIdx := FirstVisIdx(c, d.vy);
    var position := GetPos(c.count, i, firstVis, firstVisIdx);
    var prevPosition := GetPos(c.count, i, prev.0, prev.1);
    var rank := Rank(c.count, finalY, firstVis, firstVisIdx, position);
    Spring(SlideX(c, finalY, rank, d), Immediate(d.vy, prevPosition, position))
  }

  /** The targets of all slides for one event, as the controller hands them to the spring engine. */
  function Frame(c: Config, index: int, prev: (int, int), d: Drag): (s: seq<Spring>)
    requires c.Valid()
    ensures |s| == c.count
  {
    seq(c.count, i requires 0 <= i < c.count => SlideSpring(c, index, prev, d, i))
  }

  /** The springs' starting layout: slide `i` in slot `i`, the last slide in slot `-1`. */
  function InitialSprings(c: Config): (s: seq<Spring>)
    requires c.Valid()
    ensures |s| == c.count
  {
    seq(c.count, i => Spring(((if i < c.count - 1 then i else -1) * c.width) as real + c.offset, false))
  }

  // ---------------------------------------------------------------------
  // Properties
  // ---------------------------------------------------------------------

  /** The slide that `getPos` sends to position `p`. */
  function SlideAtPosition(count: int, firstVis: int, firstVisIdx: int, p: int): (i: int)
    requires count >= 1
  {
    (p + firstVis - firstVisIdx) % count
  }

  lemma GetPosAt(count: int, firstVis: int, firstVisIdx: int, i: int)
    requires count >= 1 && firstVisIdx - firstVis >= -count && i >= 0
    ensures GetPos(count, i, firstVis, firstVisIdx) == (i - firstVis + firstVisIdx) % count
  {
    IdxIsMod(i - firstVis + firstVisIdx, count);
  }

  lemma SlideAtPositionInverse(count: int, firstVis: int, firstVisIdx: int, p: int)
    requires count >= 1 && firstVisIdx - firstVis >= -count && 0 <= p < count
    ensures 0 <= SlideAtPosition(count, firstVis, firstVisIdx, p) < count
    ensures GetPos(count, SlideAtPosition(count, firstVis, firstVisIdx, p), firstVis, firstVisIdx) == p
  {
    var i := SlideAtPosition(count, firstVis, firstVisIdx, p);
    GetPosAt(count, firstVis, firstVisIdx, i);
    ModAddMod(p + firstVis - firstVisIdx, firstVisIdx - firstVis, count);
    assert p + firstVis - firstVisIdx + (firstVisIdx - firstVis) == p;
    ModSmall(p, count);
  }

  /**
   * When every argument of `idx` stays at or above `-count`, `getPos` is a
   * bijection of the slides `0..count-1` onto the positions `0..count-1`.
   */
  lemma GetPosPermutation(count: int, firstVis: int, firstVisIdx: int)
    requires count >= 1 && firstVisIdx - firstVis >= -count
    ensures forall i :: 0 <= i < count ==>
      0 <= GetPos(count, i, firstVis, firstVisIdx) < count
      && GetPos(count, i, firstVis, firstVisIdx) == (i - firstVis + firstVisIdx) % count
    ensures forall i, j :: 0 <= i < count && 0 <= j < count && i != j ==>
      GetPos(count, i, firstVis, firstVisIdx) != GetPos(count, j, firstVis, firstVisIdx)
    ensures forall p :: 0 <= p < count ==>
      0 <= SlideAtPosition(count, firstVis, firstVisIdx, p) < count
      && GetPos(count, SlideAtPosition(count, firstVis, firstVisIdx, p), firstVis, firstVisIdx) == p
  {
    forall i | 0 <= i < count
      ensures 0 <= GetPos(count, i, firstVis, firstVisIdx) < count
      ensures GetPos(count, i, firstVis, firstVisIdx) == (i - firstVis + firstVisIdx) % count
    {
      GetPosAt(count, firstVis, firstVisIdx, i);
    }
    forall i, j | 0 <= i < count && 0 <= j < count && i != j
      ensures GetPos(count, i, firstVis, firstVisIdx) != GetPos(count, j, firstVis, firstVisIdx)
    {
      PositionsApart(count, firstVis, firstVisIdx, i, j);
    }
    forall p | 0 <= p < count
      ensures 0 <= SlideAtPosition(count, firstVis, firstVisIdx, p) < count
      ensures GetPos(count, SlideAtPosition(count, firstVis, firstVisIdx, p), firstVis, firstVisIdx) == p
    {
      SlideAtPositionInverse(count, firstVis, firstVisIdx, p);
    }
  }

  /** In units of slides, the rank's negative-scroll corrections undo `JsRem(-index, count)`. */
  lemma RankUndoesWrap(count: int, index: int, finalY: int, firstVisIdx: int, position: int)
    requires count >= 1 && (finalY < 0 <==> index < 0)
    ensures Rank(count, finalY, index % count, firstVisIdx, position) + JsRem(-index, count)
      == position - firstVisIdx
  {
    if index >= 0 {
      JsRemAsMod(-index, count);
      NegMod(index, count);
    } else {
      NegMod(-index, count);
    }
  }

  lemma ScrollSign(index: int, w: int)
    requires w > 0
    ensures index * w < 0 <==> index < 0
  {
    if index < 0 {
      MulAtLeast(-index, w);
      assert index * w == -((-index) * w);
    } else {
      assert index * w >= 0;
    }
  }

  lemma ScaleSum(w: int, rank: int, wrap: int, slot: int)
    requires rank + wrap == slot
    ensures wrap * w + w * rank == w * slot
  {
  }

  lemma ScaleNegCommute(index: int, w: int, l: int)
    ensures -(index * w) == (-index) * w && w * l == l * w
  {
  }

  /**
   * The scroll term and the rank's negative-scroll corrections cancel:
   * `JsRem(-finalY, width * count) + width * rank == width * (position - firstVisIdx)`
   * for every logical index.
   */
  lemma ScrollCancelsRank(c: Config, index: int, firstVisIdx: int, position: int)
    requires c.Valid()
    ensures c.width * c.count > 0
    ensures JsRem(-(index * c.width), c.width * c.count)
      + c.width * Rank(c.count, index * c.width, FirstVis(c, index), firstVisIdx, position)
      == c.width * (position - firstVisIdx)
  {
    var w, l := c.width, c.count;
    MulAtLeast(l, w);
    ScrollSign(index, w);
    var fv := FirstVis(c, index);
    RankUndoesWrap(l, index, index * w, firstVisIdx, position);
    var rank := Rank(l, index * w, fv, firstVisIdx, position);
    JsRemScale(-index, l, w);
    ScaleNegCommute(index, w, l);
    ScaleSum(w, rank, JsRem(-index, l), position - firstVisIdx);
  }

  /**
   * Every slide's target is its slot relative to the first visible one,
   * times the width, plus the live drag while the pointer is down and the
   * centring offset: the logical index enters only through `firstVis`.
   */
  lemma SlideAtSlot(c: Config, index: int, prev: (int, int), d: Drag, i: int)
    requires c.Valid()
    ensures SlideSpring(c, index, prev, d, i).x
      == (c.width * (GetPos(c.count, i, FirstVis(c, index), FirstVisIdx(c, d.vy)) - FirstVisIdx(c, d.vy))) as real
         + (if d.down then d.xMove else 0.0) + c.offset
  {
    var fvi := FirstVisIdx(c, d.vy);
    ScrollCancelsRank(c, index, fvi, GetPos(c.count, i, FirstVis(c, index), fvi));
  }

  /** A slot `p - firstVisIdx` with `0 <= p < count`, scaled by the width, stays inside the strip. */
  lemma SlotInStrip(w: int, count: int, firstVisIdx: int, p: int)
    requires w > 0 && 0 <= p < count
    ensures -(w * firstVisIdx) <= w * (p - firstVisIdx) < w * (count - firstVisIdx)
  {
    MulStrict(p - firstVisIdx, count - firstVisIdx, w);
    if p > 0 {
      MulStrict(-firstVisIdx, p - firstVisIdx, w);
    }
    assert -(w * firstVisIdx) == (-firstVisIdx) * w;
  }

  lemma SlideInStrip(c: Config, index: int, prev: (int, int), d: Drag, i: int)
    requires c.Valid() && 0 <= i < c.count
    requires d.vy >= 0.0 || c.visible <= c.count
    ensures (if d.down then d.xMove else 0.0) + c.offset - (c.width * FirstVisIdx(c, d.vy)) as real
      <= SlideSpring(c, index, prev, d, i).x
    ensures SlideSpring(c, index, prev, d, i).x
      < (if d.down then d.xMove else 0.0) + c.offset + (c.width * (c.count - FirstVisIdx(c, d.vy))) as real
  {
    var fv, fvi := FirstVis(c, index), FirstVisIdx(c, d.vy);
    SlideAtSlot(c, index, prev, d, i);
    GetPosAt(c.count, fv, fvi, i);
    SlotInStrip(c.width, c.count, fvi, GetPos(c.count, i, fv, fvi));
  }

  /** Distinct slides get distinct positions in every frame, even where `idx` leaves `[0, count)`. */
  lemma PositionsApart(count: int, firstVis: int, firstVisIdx: int, i: int, j: int)
    requires count >= 1
    requires 0 <= i < count && 0 <= j < count && i != j
    ensures GetPos(count, i, firstVis, firstVisIdx) != GetPos(count, j, firstVis, firstVisIdx)
  {
    if GetPos(count, i, firstVis, firstVisIdx) == GetPos(count, j, firstVis, firstVisIdx) {
      ModEqClose(i - firstVis + firstVisIdx, j - firstVis + firstVisIdx, count);
    }
  }

  lemma ScaledApart(w: int, a: int, b: int, base: real)
    requires w > 0 && a != b
    ensures (w * a) as real + base != (w * b) as real + base
  {
    if a < b {
      MulStrict(a, b, w);
    } else {
      MulStrict(b, a, w);
    }
  }

  lemma SlidesApart(c: Config, index: int, prev: (int, int), d: Drag, i: int, j: int)
    requires c.Valid() && 0 <= i < c.count && 0 <= j < c.count && i != j
    ensures SlideSpring(c, index, prev, d, i).x != SlideSpring(c, index, prev, d, j).x
  {
    var fv, fvi := FirstVis(c, index), FirstVisIdx(c, d.vy);
    var p, q := GetPos(c.count, i, fv, fvi), GetPos(c.count, j, fv, fvi);
    PositionsApart(c.count, fv, fvi, i, j);
    ScaledApart(c.width, p - fvi, q - fvi, (if d.down then d.xMove else 0.0) + c.offset);
    SlideAtSlot(c, index, prev, d, i);
    SlideAtSlot(c, index, prev, d, j);
  }

  /**
   * No two slides of a frame share a target, whatever the index and the
   * velocity. When the velocity is not negative or at most `count` slides
   * are visible, the slides moreover tile a contiguous strip: their
   * targets lie in `[-firstVisIdx, count - firstVisIdx)` slot widths
   * around the drag and the offset.
   */
  lemma FrameTiles(c: Config, index: int, prev: (int, int), d: Drag)
    requires c.Valid()
    ensures forall i, j :: 0 <= i < c.count && 0 <= j < c.count && i != j ==>
      Frame(c, index, prev, d)[i].x != Frame(c, index, prev, d)[j].x
    ensures d.vy >= 0.0 || c.visible <= c.count ==> forall i :: 0 <= i < c.count ==>
      (if d.down then d.xMove else 0.0) + c.offset - (c.width * FirstVisIdx(c, d.vy)) as real
        <= Frame(c, index, prev, d)[i].x
        < (if d.down then d.xMove else 0.0) + c.offset + (c.width * (c.count - FirstVisIdx(c, d.vy))) as real
  {
    forall i | 0 <= i < c.count && (d.vy >= 0.0 || c.visible <= c.count)
      ensures (if d.down then d.xMove else 0.0) + c.offset - (c.width * FirstVisIdx(c, d.vy)) as real
        <= Frame(c, index, prev, d)[i].x
        < (if d.down then d.xMove else 0.0) + c.offset + (c.width * (c.count - FirstVisIdx(c, d.vy))) as real
    {
      SlideInStrip(c, index, prev, d, i);
    }
    forall i, j | 0 <= i < c.count && 0 <= j < c.count && i != j
      ensures Frame(c, index, prev, d)[i].x != Frame(c, index, prev, d)[j].x
    {
      SlidesApart(c, index, prev, d, i, j);
    }
  }

  /** Adding `count` to the logical index (one full turn, `width * count` of scroll) changes no target. */
  lemma FramePeriodic(c: Config, index: int, prev: (int, int), d: Drag)
    requires c.Valid()
    ensures Frame(c, index + c.count, prev, d) == Frame(c, index, prev, d)
  {
    ModAddMultiple(index, 1, c.count);
    assert FirstVis(c, index + c.count) == FirstVis(c, index);
    forall i | 0 <= i < c.count
      ensures Frame(c, index + c.count, prev, d)[i] == Frame(c, index, prev, d)[i]
    {
      SlideAtSlot(c, index, prev, d, i);
      SlideAtSlot(c, index + c.count, prev, d, i);
    }
  }

  /** The starting layout is the frame of a released pointer at index 0 with the initial `prev` of `[0, 1]`. */
  lemma InitialLayoutIsRestingFrame(c: Config, d: Drag)
    requires c.Valid() && !d.down && d.vy >= 0.0
    ensures Frame(c, 0, (0, 1), d) == InitialSprings(c)
  {
    var s, t := Frame(c, 0, (0, 1), d), InitialSprings(c);
    assert FirstVis(c, 0) == 0;
    forall i | 0 <= i < c.count
      ensures s[i] == t[i]
    {
      SlideAtSlot(c, 0, (0, 1), d, i);
      IdxIsMod(i + 1, c.count);
      if i < c.count - 1 {
        ModUnique(i + 1, c.count, 0, i + 1);
      } else {
        ModUnique(i + 1, c.count, 1, 0);
      }
    }
  }

  /** Replaying the remembered `[firstVis, firstVisIdx]` of the same index and direction flags no slide. */
  lemma RepeatFrameStill(c: Config, index: int, prev: (int, int), d: Drag)
    requires c.Valid() && prev == (FirstVis(c, index), FirstVisIdx(c, d.vy))
    ensures forall i :: 0 <= i < c.count ==> !Frame(c, index, prev, d)[i].immediate
  {
  }

  lemma StepForwardAt(c: Config, index: int, prev: (int, int), d: Drag, i: int)
    requires c.Valid() && c.count >= 2 && d.vy >= 0.0 && 0 <= i < c.count
    requires prev == (FirstVis(c, index - 1), 1)
    ensures SlideSpring(c, index, prev, d, i).immediate <==> i == (index - 2) % c.count
  {
    var l := c.count;
    var fv, pfv := FirstVis(c, index), prev.0;
    var pos, prevPos := GetPos(l, i, fv, 1), GetPos(l, i, pfv, 1);
    GetPosAt(l, fv, 1, i);
    GetPosAt(l, pfv, 1, i);
    ModSubMod(i + 1, index, l);
    ModSubMod(i + 1, index - 1, l);
    assert pos == (i + 1 - index) % l;
    assert prevPos == (i + 1 - index + 1) % l;
    ModAddMod(i + 1 - index, 1, l);
    if pos < l - 1 {
      ModSmall(pos + 1, l);
    } else {
      ModUnique(pos + 1, l, 1, 0);
    }
    // position l - 1 belongs to the slide (index - 2) mod l
    var j := (index - 2) % l;
    ModSubMod(i - 1, index - 2, l);
    assert pos == (i - 1 - j) % l;
    ModUnique(-1, l, -1, l - 1);
    if pos == l - 1 {
      ModEqClose(i - 1 - j, -1, l);
    }
  }

  /**
   * One step forward (`index` up by one, velocity not negative, first
   * visible slot 1 in both frames): exactly one slide is flagged
   * immediate, the one that wraps from slot -1 to slot `count - 2`.
   */
  lemma StepForwardFlagsOne(c: Config, index: int, prev: (int, int), d: Drag)
    requires c.Valid() && c.count >= 2 && d.vy >= 0.0
    requires prev == (FirstVis(c, index - 1), 1)
    ensures forall i :: 0 <= i < c.count ==>
      (Frame(c, index, prev, d)[i].immediate <==> i == (index - 2) % c.count)
    ensures GetPos(c.count, (index - 2) % c.count, prev.0, prev.1) == 0
    ensures GetPos(c.count, (index - 2) % c.count, FirstVis(c, index), FirstVisIdx(c, d.vy)) == c.count - 1
  {
    forall i | 0 <= i < c.count
      ensures Frame(c, index, prev, d)[i].immediate <==> i == (index - 2) % c.count
    {
      StepForwardAt(c, index, prev, d, i);
    }
    StepForwardWrapSlot(c.count, index);
  }

  /** The slide `(index - 2) mod count` has position 0 at `index - 1` and position `count - 1` at `index`. */
  lemma StepForwardWrapSlot(l: int, index: int)
    requires l >= 2
    ensures GetPos(l, (index - 2) % l, (index - 1) % l, 1) == 0
    ensures GetPos(l, (index - 2) % l, index % l, 1) == l - 1
  {
    var j := (index - 2) % l;
    GetPosAt(l, (index - 1) % l, 1, j);
    ModSubMod(j + 1, index - 1, l);
    ModAddMod(index - 2, 1 - (index - 1), l);
    assert index - 2 + (1 - (index - 1)) == 0;
    ModSmall(0, l);
    GetPosAt(l, index % l, 1, j);
    ModSubMod(j + 1, index, l);
    ModAddMod(index - 2, 1 - index, l);
    assert index - 2 + (1 - index) == -1;
    ModUnique(-1, l, -1, l - 1);
  }

  lemma StepBackwardAt(c: Config, index: int, prev: (int, int), d: Drag, i: int)
    requires c.Valid() && c.count >= 2 && d.vy < 0.0 && c.visible <= c.count && 0 <= i < c.count
    requires prev == (FirstVis(c, index + 1), FirstVisIdx(c, d.vy))
    ensures SlideSpring(c, index, prev, d, i).immediate <==> i == (index - FirstVisIdx(c, d.vy)) % c.count
  {
    var l, k := c.count, FirstVisIdx(c, d.vy);
    var fv, pfv := FirstVis(c, index), prev.0;
    var pos, prevPos := GetPos(l, i, fv, k), GetPos(l, i, pfv, k);
    GetPosAt(l, fv, k, i);
    GetPosAt(l, pfv, k, i);
    ModSubMod(i + k, index, l);
    ModSubMod(i + k, index + 1, l);
    assert pos == (i + k - index) % l;
    assert prevPos == (i + k - index - 1) % l;
    ModAddMod(i + k - index - 1, 1, l);
    if prevPos < l - 1 {
      ModSmall(prevPos + 1, l);
    } else {
      ModUnique(prevPos + 1, l, 1, 0);
    }
    // position 0 belongs to the slide (index - k) mod l
    var j := (index - k) % l;
    ModSubMod(i, index - k, l);
    assert pos == (i - j) % l;
    ModSmall(0, l);
    if pos == 0 {
      ModEqClose(i - j, 0, l);
    }
  }

  /**
   * One step backward (`index` down by one, negative velocity, the same
   * first visible slot in both frames, at most `count` visible): exactly
   * one slide is flagged immediate, the one whose position wraps to 0.
   */
  lemma StepBackwardFlagsOne(c: Config, index: int, prev: (int, int), d: Drag)
    requires c.Valid() && c.count >= 2 && d.vy < 0.0 && c.visible <= c.count
    requires prev == (FirstVis(c, index + 1), FirstVisIdx(c, d.vy))
    ensures forall i :: 0 <= i < c.count ==>
      (Frame(c, index, prev, d)[i].immediate <==> i == (index - FirstVisIdx(c, d.vy)) % c.count)
  {
    forall i | 0 <= i < c.count
      ensures Frame(c, index, prev, d)[i].immediate <==> i == (index - FirstVisIdx(c, d.vy)) % c.count
    {
      StepBackwardAt(c, index, prev, d, i);
    }
  }

  /**
   * With a single item its one position is always 0, so the slide sits in
   * slot `-firstVisIdx` at every index: one width to the left of the offset
   * for a non-negative velocity, `visible` widths to the right for a
   * negative one. The starting layout also puts it one width to the left,
   * and no frame flags it immediate.
   */
  lemma SingleItemSlot(c: Config, index: int, prev: (int, int), d: Drag)
    requires c.Valid() && c.count == 1
    ensures d.vy >= 0.0 ==>
      Frame(c, index, prev, d)[0].x == (if d.down then d.xMove else 0.0) + c.offset - c.width as real
    ensures d.vy < 0.0 ==>
      Frame(c, index, prev, d)[0].x == (if d.down then d.xMove else 0.0) + c.offset + (c.width * c.visible) as real
    ensures InitialSprings(c)[0].x == c.offset - c.width as real
    ensures !Frame(c, index, prev, d)[0].immediate
  {
    SlideAtSlot(c, index, prev, d, 0);
    assert GetPos(1, 0, FirstVis(c, index), FirstVisIdx(c, d.vy)) == 0;
  }

  /**
   * With more slides visible than there are items, a backward frame can put
   * `idx` below `-count`, and a position then leaves `[0, count)`. With three
   * items under the default four visible (`firstVisIdx == -2`) this happens
   * exactly at the indices `2 mod 3`: there slide 0 gets position -1, and at
   * every other index all positions stay in `[0, 3)`.
   */
  lemma PositionLeavesRange(index: int)
    ensures index % 3 == 2 ==>
      GetPos(3, 0, FirstVis(Config(3, 100, DefaultVisible, 0.0, 1.0), index),
             FirstVisIdx(Config(3, 100, DefaultVisible, 0.0, 1.0), -1.0)) == -1
    ensures index % 3 != 2 ==> forall i :: 0 <= i < 3 ==>
      0 <= GetPos(3, i, FirstVis(Config(3, 100, DefaultVisible, 0.0, 1.0), index),
                  FirstVisIdx(Config(3, 100, DefaultVisible, 0.0, 1.0), -1.0)) < 3
  {
    var c := Config(3, 100, DefaultVisible, 0.0, 1.0);
    assert FirstVisIdx(c, -1.0) == -2;
    if index % 3 == 2 {
      IdxBelowRange(-4, 3);
    } else {
      forall i | 0 <= i < 3
        ensures 0 <= GetPos(3, i, FirstVis(c, index), -2) < 3
      {
        IdxIsMod(i - FirstVis(c, index) - 2, 3);
      }
    }
  }
}
