/**
 * The calendar's lever: a component dragged up and down between two rows,
 * snapping to one end when let go. Reaching the bottom fires a callback
 * once; a latch keeps it from firing again until the lever has moved a
 * deadband away from the bottom or snapped back to the top.
 */
module Lever {
  import opened Arith

  /** How far above the bottom the lever must come before the bottom fires again. */
  const RelatchDeadband: int := 12

  /** Math.max(lo, Math.min(hi, v)): v held inside [lo, hi]. */
  function Clamp(lo: int, hi: int, v: int): (r: int)
    requires lo <= hi
    ensures lo <= r <= hi
    ensures lo <= v <= hi ==> r == v
    ensures v < lo ==> r == lo
    ensures v > hi ==> r == hi
  {
    Max(lo, Min(hi, v))
  }

  /** The end snapToEnd picks: the top up to the middle of the range (rounded down), the bottom below it. */
  function SnapTarget(lo: int, hi: int, y: int): (r: int)
    requires lo <= hi
    ensures r == lo || r == hi
    ensures y <= lo ==> r == lo
    ensures y >= hi && lo < hi ==> r == hi
    ensures r == lo <==> y <= lo + (hi - lo) / 2 || lo == hi
  {
    var mid := lo + (hi - lo) / 2;
    if y <= mid then lo else hi
  }

  /**
   * The latch after a drag has put the lever at y (bottom hi): the new
   * latch flag and whether the bottom fired.
   */
  function DragLatch(latched: bool, y: int, hi: int): (r: (bool, bool))
    ensures r.1 <==> !latched && y == hi
    ensures y == hi ==> r.0
    ensures latched && !r.0 ==> y <= hi - RelatchDeadband
    ensures !latched && y != hi ==> !r.0
  {
    var rearmed := if y <= hi - RelatchDeadband then false else latched;
    if y == hi && !rearmed then (true, true) else (rearmed, false)
  }

  /** The latch after a snap to target t in [lo, hi]: the new flag and whether the bottom fired. */
  function SnapLatch(latched: bool, t: int, lo: int, hi: int): (r: (bool, bool))
    ensures r.1 <==> t == hi && !latched
    ensures t == lo ==> !r.0
    ensures t != lo && t == hi ==> r.0
    ensures t != lo && t != hi ==> r.0 == latched
  {
    var fired := t == hi && !latched;
    var next := if fired then true else latched;
    (if t == lo then false else next, fired)
  }

  /** A run of drags to the positions ys: the final latch flag and how often the bottom fired. */
  function DragRun(latched: bool, ys: seq<int>, hi: int): (bool, nat)
    decreases |ys|
  {
    if ys == [] then (latched, 0)
    else
      var (next, fired) := DragLatch(latched, ys[0], hi);
      var (last, count) := DragRun(next, ys[1..], hi);
      (last, count + if fired then 1 else 0)
  }

  /** Once latched, the lever stays silent while every drag keeps it within the deadband of the bottom. */
  lemma {:induction false} LatchedStaysSilent(ys: seq<int>, hi: int)
    requires forall k | 0 <= k < |ys| :: ys[k] > hi - RelatchDeadband
    ensures DragRun(true, ys, hi) == (true, 0)
  {
    if ys != [] {
      LatchedStaysSilent(ys[1..], hi);
    }
  }

  /** Without a pass through the deadband, a run of drags fires the bottom at most once. */
  lemma {:induction false} FiresAtMostOnce(latched: bool, ys: seq<int>, hi: int)
    requires forall k | 0 <= k < |ys| :: ys[k] > hi - RelatchDeadband
    ensures DragRun(latched, ys, hi).1 <= 1
  {
    if ys != [] {
      var (next, fired) := DragLatch(latched, ys[0], hi);
      if fired {
        LatchedStaysSilent(ys[1..], hi);
      } else {
        FiresAtMostOnce(next, ys[1..], hi);
      }
    }
  }

  /** Dragging to the bottom, up through the deadband and back down fires the bottom twice. */
  lemma RearmFiresAgain(hi: int)
    ensures DragRun(false, [hi, hi - RelatchDeadband, hi], hi) == (true, 2)
  {
    var ys := [hi, hi - RelatchDeadband, hi];
    assert ys[1..] == [hi - RelatchDeadband, hi] && ys[1..][1..] == [hi] && ys[1..][1..][1..] == [];
    assert DragRun(true, [hi], hi) == (true, 0);
    assert DragRun(false, [hi], hi) == (true, 1);
    assert DragRun(true, [hi - RelatchDeadband, hi], hi) == (true, 1);
  }

  /**
   * The lever: its vertical position `y`, the drag range, the grab offset
   * of a press, and the latch. `attached` stands for getParent() != null.
   */
  class LeverControl {
    var dragMinY: int
    var dragMaxY: int
    var dragging: bool
    var grabOffsetY: int
    var latchedAtBottomFired: bool
    var y: int
    var attached: bool

    /** The drag range is never reversed. */
    predicate Valid()
      reads this
    {
      dragMinY <= dragMaxY
    }

    /** A new lever: range [0, 0], at y = 0, not dragged and not latched. */
    constructor(attached: bool)
      ensures Valid()
      ensures dragMinY == 0 && dragMaxY == 0 && y == 0 && grabOffsetY == 0
      ensures !dragging && !latchedAtBottomFired && this.attached == attached
    {
      dragMinY := 0;
      dragMaxY := 0;
      dragging := false;
      grabOffsetY := 0;
      latchedAtBottomFired := false;
      y := 0;
      this.attached := attached;
    }

    /** setDragYRange: the range in either order, and the lever moved into it. */
    method SetDragYRange(minY: int, maxY: int)
      modifies this
      ensures Valid()
      ensures dragMinY == Min(minY, maxY) && dragMaxY == Max(minY, maxY)
      ensures y == Clamp(dragMinY, dragMaxY, old(y))
      ensures dragging == old(dragging) && grabOffsetY == old(grabOffsetY)
      ensures latchedAtBottomFired == old(latchedAtBottomFired) && attached == old(attached)
    {
      dragMinY := Min(minY, maxY);
      dragMaxY := Max(minY, maxY);
      var clamped := Max(dragMinY, Min(dragMaxY, y));
      if clamped != y {
        y := clamped;
      }
    }

    /** mousePressed: dragging starts, remembering where in the lever it was grabbed. */
    method MousePressed(eventY: int)
      modifies this
      ensures dragging && grabOffsetY == eventY
      ensures dragMinY == old(dragMinY) && dragMaxY == old(dragMaxY) && y == old(y)
      ensures latchedAtBottomFired == old(latchedAtBottomFired) && attached == old(attached)
    {
      dragging := true;
      grabOffsetY := eventY;
    }

    /**
     * mouseDragged: ignored unless dragging with a parent; otherwise the
     * lever follows the pointer inside the range, the latch rearms through
     * the deadband, and the bottom fires when reached unlatched.
     */
    method MouseDragged(eventY: int) returns (fired: bool)
      requires Valid()
      modifies this
      ensures Valid()
      ensures !old(dragging) || !old(attached) ==> unchanged(this) && !fired
      ensures old(dragging) && old(attached) ==>
        y == Clamp(dragMinY, dragMaxY, old(y) + (eventY - grabOffsetY))
        && (latchedAtBottomFired, fired) == DragLatch(old(latchedAtBottomFired), y, dragMaxY)
      ensures dragMinY == old(dragMinY) && dragMaxY == old(dragMaxY)
      ensures dragging == old(dragging) && grabOffsetY == old(grabOffsetY) && attached == old(attached)
    {
      fired := false;
      if !dragging {
        return;
      }
      if !attached {
        return;
      }
      var newY := y + (eventY - grabOffsetY);
      newY := Max(dragMinY, Min(dragMaxY, newY));
      y := newY;
      if newY <= dragMaxY - RelatchDeadband {
        latchedAtBottomFired := false;
      }
      if newY == dragMaxY && !latchedAtBottomFired {
        latchedAtBottomFired := true;
        fired := true;
      }
    }

    /** mouseReleased: dragging ends and the lever snaps to an end. */
    method MouseReleased() returns (fired: bool)
      requires Valid()
      modifies this
      ensures Valid() && !dragging
      ensures !old(attached) ==> y == old(y) && latchedAtBottomFired == old(latchedAtBottomFired) && !fired
      ensures old(attached) ==>
        y == SnapTarget(dragMinY, dragMaxY, old(y)) && (y == dragMinY || y == dragMaxY)
        && (latchedAtBottomFired, fired) == SnapLatch(old(latchedAtBottomFired), y, dragMinY, dragMaxY)
      ensures dragMinY == old(dragMinY) && dragMaxY == old(dragMaxY)
      ensures grabOffsetY == old(grabOffsetY) && attached == old(attached)
    {
      dragging := false;
      fired := SnapToEnd();
    }

    /**
     * snapToEnd: nothing without a parent; otherwise the lever goes to the
     * nearer end, the bottom fires when reached unlatched, and reaching the
     * top rearms the latch.
     */
    method SnapToEnd() returns (fired: bool)
      requires Valid()
      modifies this
      ensures Valid()
      ensures !old(attached) ==> unchanged(this) && !fired
      ensures old(attached) ==>
        y == SnapTarget(dragMinY, dragMaxY, old(y))
        && (latchedAtBottomFired, fired) == SnapLatch(old(latchedAtBottomFired), y, dragMinY, dragMaxY)
      ensures dragMinY == old(dragMinY) && dragMaxY == old(dragMaxY)
      ensures dragging == old(dragging) && grabOffsetY == old(grabOffsetY) && attached == old(attached)
    {
      fired := false;
      if !attached {
        return;
      }
      var mid := dragMinY + (dragMaxY - dragMinY) / 2;
      var targetY := if y <= mid then dragMinY else dragMaxY;
      y := targetY;
      if targetY == dragMaxY && !latchedAtBottomFired {
        latchedAtBottomFired := true;
        fired := true;
      }
      if targetY == dragMinY {
        latchedAtBottomFired := false;
      }
    }
  }
}
