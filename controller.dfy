/**
 * The carousel component of src/Slider.js as an object: the `index` and
 * `prev` refs, the `active` state and the spring targets are fields that
 * each drag event updates in place.
 */
module Controller {
  import opened Layout
  import opened Indicator

  datatype Option<T> = None | Some(value: T)

  class Carousel<T> {
    const items: seq<T>
    const cfg: Config
    /** The logical index: net committed slides, unbounded in both directions. */
    var index: int
    /** `[firstVis, firstVisIdx]` of the previous event. */
    var prev: (int, int)
    /** The 1-based index shown by the indicator. */
    var active: int
    /** The targets last handed to the spring engine, one per slide. */
    var springs: seq<Spring>

    ghost predicate Valid()
      reads this
    {
      && cfg.Valid()
      && cfg.count == |items|
      && active == ActiveIndex(cfg.count, index)
      && prev.0 == FirstVis(cfg, index)
      && (prev.1 == 1 || prev.1 == cfg.count - cfg.visible - 1)
      && |springs| == cfg.count
    }

    /** The new state after one controller run on drag `d` from `oldIndex` and `oldPrev`. */
    ghost predicate Ran(oldIndex: int, oldPrev: (int, int), d: Drag)
      reads this
      requires cfg.Valid()
    {
      && index == CommitIndex(cfg, oldIndex, d)
      && active == ActiveIndex(cfg.count, index)
      && springs == Frame(cfg, index, oldPrev, d)
      && prev == (FirstVis(cfg, index), FirstVisIdx(cfg, d.vy))
    }

    /** The props `itemWidth`, `visible` and `sensitivity` take the component's defaults when omitted. */
    constructor (items: seq<T>, innerWidth: int, itemWidth: ItemWidth := Full,
                 visible: int := DefaultVisible, sensitivity: real := DefaultSensitivity)
      requires |items| >= 1
      requires if itemWidth.Full? then innerWidth > 0 else itemWidth.px > 0
      ensures Valid()
      ensures this.items == items && cfg == MakeConfig(|items|, itemWidth, innerWidth, visible, sensitivity)
      ensures index == 0 && prev == (0, 1) && active == 1
      ensures springs == InitialSprings(cfg)
    {
      var c := MakeConfig(|items|, itemWidth, innerWidth, visible, sensitivity);
      this.items := items;
      cfg := c;
      springs := InitialSprings(c);
      prev := (0, 1);
      index := 0;
      active := 1;
    }

    /**
     * `runSprings`: commit or not, update the indicator, hand every slide
     * its target, and remember this event's `[firstVis, firstVisIdx]`.
     * `cancelled` is the argument given to the gesture's cancel callback.
     */
    method RunSprings(d: Drag) returns (cancelled: Option<int>)
      requires Valid()
      modifies this
      ensures Valid()
      ensures Ran(old(index), old(prev), d)
      ensures cancelled == if Commits(cfg, d) then Some(index) else None
      ensures index == old(index) && old(prev.1) == FirstVisIdx(cfg, d.vy) ==>
        forall i :: 0 <= i < |springs| ==> !springs[i].immediate
      ensures cfg.count >= 2 && d.vy >= 0.0 && index == old(index) + 1 && old(prev.1) == 1 ==>
        forall i :: 0 <= i < |springs| ==> (springs[i].immediate <==> i == (index - 2) % cfg.count)
      ensures (cfg.count >= 2 && d.vy < 0.0 && cfg.visible <= cfg.count
               && index == old(index) - 1 && old(prev.1) == FirstVisIdx(cfg, d.vy)) ==>
        forall i :: 0 <= i < |springs| ==> (springs[i].immediate <==> i == (index - FirstVisIdx(cfg, d.vy)) % cfg.count)
    {
      ghost var oldIndex, oldPrev := index, prev;
      if Commits(cfg, d) {
        index := index + (if d.xDir > 0.0 then -1 else 1);
        cancelled := Some(index);
      } else {
        cancelled := None;
      }
      active := ActiveIndex(cfg.count, index);
      springs := Frame(cfg, index, prev, d);
      prev := (FirstVis(cfg, index), FirstVisIdx(cfg, d.vy));

      if index == oldIndex && oldPrev.1 == FirstVisIdx(cfg, d.vy) {
        RepeatFrameStill(cfg, index, oldPrev, d);
      }
      if cfg.count >= 2 && d.vy >= 0.0 && index == oldIndex + 1 && oldPrev.1 == 1 {
        StepForwardFlagsOne(cfg, index, oldPrev, d);
      }
      if cfg.count >= 2 && d.vy < 0.0 && cfg.visible <= cfg.count
        && index == oldIndex - 1 && oldPrev.1 == FirstVisIdx(cfg, d.vy) {
        StepBackwardFlagsOne(cfg, index, oldPrev, d);
      }
    }

    /**
     * The drag handler bound to the gesture library: the controller runs
     * only for a nonzero horizontal velocity, with the velocity negated.
     */
    method OnDrag(vx: real, down: bool, xDir: real, distance: real, xMove: real) returns (cancelled: Option<int>)
      requires Valid()
      modifies this
      ensures Valid()
      ensures vx == 0.0 ==>
        (cancelled == None && index == old(index) && prev == old(prev)
         && active == old(active) && springs == old(springs))
      ensures vx != 0.0 ==>
        (Ran(old(index), old(prev), Drag(-vx, down, xDir, distance, xMove))
         && cancelled == if Commits(cfg, Drag(-vx, down, xDir, distance, xMove)) then Some(index) else None)
    {
      if vx != 0.0 {
        cancelled := RunSprings(Drag(-vx, down, xDir, distance, xMove));
      } else {
        cancelled := None;
      }
    }

    /** The indicator rendered under the slides: one dot per item, exactly one of them active. */
    method Indicator() returns (dots: seq<Dot>)
      requires Valid()
      ensures |dots| == |items|
      ensures ActiveDots(dots) == 1
      ensures dots[active - 1].active
      ensures forall k :: 0 <= k < |dots| ==> (dots[k].active <==> k == index % |items|)
    {
      dots := InstaCounter(active, items);
      ExactlyOneActive(dots, active);
    }
  }

  /** Five items, a drag of 60 px on 100 px slides while pressed: commits to the next slide. */
  method CommitScenario() {
    var carousel := new Carousel([10, 20, 30, 40, 50], 1280, Fixed(100));
    assert carousel.active == 1;
    var cancelled := carousel.RunSprings(Drag(0.5, true, -1.0, 60.0, -60.0));
    assert carousel.index == 1 && carousel.active == 2 && cancelled == Some(1);
  }

  /** Three items, a short slow drag: no commit, nothing jumps, and release restores the starting layout. */
  method SnapBackScenario() {
    var carousel := new Carousel([1, 2, 3], 1280, Fixed(100));
    var held := carousel.RunSprings(Drag(0.5, true, -1.0, 20.0, -20.0));
    assert carousel.index == 0 && held == None;
    assert forall i :: 0 <= i < 3 ==> !carousel.springs[i].immediate;
    var release := Drag(0.5, false, -1.0, 20.0, -20.0);
    var released := carousel.RunSprings(release);
    InitialLayoutIsRestingFrame(carousel.cfg, release);
    assert carousel.springs == InitialSprings(carousel.cfg);
  }
}
