/** The main process's window placement: one borderless window over the bounding rectangle of
    all displays. */
module Displays {
  import opened Text

  /** A display's `bounds`. */
  datatype Rect = Rect(x: int, y: int, width: int, height: int)
  {
    function Right(): int
    {
      x + width
    }

    function Bottom(): int
    {
      y + height
    }
  }

  /** `v < bound` where `None` stands for the seed `Infinity`. */
  predicate Below(v: int, bound: Option<int>)
  {
    bound.None? || v < bound.value
  }

  /** `v > bound` where `None` stands for the seed `-Infinity`. */
  predicate Above(v: int, bound: Option<int>)
  {
    bound.None? || v > bound.value
  }

  /** `r` lies inside `box`. */
  predicate Contains(box: Rect, r: Rect)
  {
    box.x <= r.x && box.y <= r.y && r.Right() <= box.Right() && r.Bottom() <= box.Bottom()
  }

  /** The `forEach` of `createWindow` over the display bounds and the window rectangle it
      yields. With no display the seeds stay infinite and there is no rectangle (`None`).
      Otherwise the left and top edges are the least `x` and `y` of a display, the right and
      bottom edges the greatest `x + width` and `y + height`, so the rectangle contains every
      display and is at least as wide and as tall as each. */
  method BoundingBox(displays: seq<Rect>) returns (box: Option<Rect>)
    ensures box.None? <==> |displays| == 0
    ensures box.Some? ==>
      (forall i :: 0 <= i < |displays| ==> box.value.x <= displays[i].x) &&
      (exists i :: 0 <= i < |displays| && box.value.x == displays[i].x) &&
      (forall i :: 0 <= i < |displays| ==> box.value.y <= displays[i].y) &&
      (exists i :: 0 <= i < |displays| && box.value.y == displays[i].y) &&
      (forall i :: 0 <= i < |displays| ==> displays[i].Right() <= box.value.Right()) &&
      (exists i :: 0 <= i < |displays| && box.value.Right() == displays[i].Right()) &&
      (forall i :: 0 <= i < |displays| ==> displays[i].Bottom() <= box.value.Bottom()) &&
      (exists i :: 0 <= i < |displays| && box.value.Bottom() == displays[i].Bottom())
    ensures box.Some? ==> forall i :: 0 <= i < |displays| ==>
      Contains(box.value, displays[i]) &&
      displays[i].width <= box.value.width && displays[i].height <= box.value.height
  {
    var minX: Option<int> := None;
    var maxX: Option<int> := None;
    var minY: Option<int> := None;
    var maxY: Option<int> := None;
    ghost var ix, iy, ir, ib := 0, 0, 0, 0;
    var k := 0;
    while k < |displays|
      invariant 0 <= k <= |displays|
      invariant minX.None? <==> k == 0
      invariant minY.None? == minX.None? && maxX.None? == minX.None? && maxY.None? == minX.None?
      invariant k > 0 ==> ix < k && iy < k && ir < k && ib < k
      invariant k > 0 ==> minX.value == displays[ix].x && minY.value == displays[iy].y
      invariant k > 0 ==> maxX.value == displays[ir].Right() && maxY.value == displays[ib].Bottom()
      invariant forall i :: 0 <= i < k ==> minX.value <= displays[i].x && minY.value <= displays[i].y
      invariant forall i :: 0 <= i < k ==> displays[i].Right() <= maxX.value && displays[i].Bottom() <= maxY.value
    {
      var d := displays[k];
      if Below(d.x, minX) {
        minX, ix := Some(d.x), k;
      }
      if Below(d.y, minY) {
        minY, iy := Some(d.y), k;
      }
      var right := d.x + d.width;
      var bottom := d.y + d.height;
      if Above(right, maxX) {
        maxX, ir := Some(right), k;
      }
      if Above(bottom, maxY) {
        maxY, ib := Some(bottom), k;
      }
      k := k + 1;
    }
    if k == 0 {
      box := None;
    } else {
      box := Some(Rect(minX.value, minY.value, maxX.value - minX.value, maxY.value - minY.value));
    }
  }
}
