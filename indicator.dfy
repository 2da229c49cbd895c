/**
 * The dot indicator under the carousel (`InstaCounter` in src/Slider.js):
 * one dot per item, the dot of the 1-based `currentIndex` marked active.
 */
module Indicator {

  /** One dot; `key` is the item's array position. */
  datatype Dot = Dot(key: int, active: bool)

  /** Builds the dots by walking the item positions and pushing one dot each. */
  method InstaCounter<T>(currentIndex: int, data: seq<T>) returns (dots: seq<Dot>)
    ensures |dots| == |data|
    ensures forall k :: 0 <= k < |data| ==> dots[k].key == k && (dots[k].active <==> k == currentIndex - 1)
  {
    dots := [];
    for index := 0 to |data|
      invariant |dots| == index
      invariant forall k :: 0 <= k < index ==> dots[k].key == k && (dots[k].active <==> k == currentIndex - 1)
    {
      dots := dots + [Dot(index, currentIndex - 1 == index)];
    }
  }

  /** The number of active dots. */
  function ActiveDots(dots: seq<Dot>): (n: nat) {
    if dots == [] then 0
    else ActiveDots(dots[..|dots| - 1]) + (if dots[|dots| - 1].active then 1 else 0)
  }

  /**
   * Dots built as `InstaCounter` builds them have exactly one active dot
   * when `currentIndex` is in `[1, |dots|]`, and none otherwise.
   */
  lemma {:induction false} ExactlyOneActive(dots: seq<Dot>, currentIndex: int)
    requires forall k :: 0 <= k < |dots| ==> (dots[k].active <==> k == currentIndex - 1)
    ensures ActiveDots(dots) == if 1 <= currentIndex <= |dots| then 1 else 0
  {
    if dots != [] {
      var front := dots[..|dots| - 1];
      assert forall k :: 0 <= k < |front| ==> front[k] == dots[k];
      ExactlyOneActive(front, currentIndex);
    }
  }
}
