/**
 * The integer geometry of selector.go: which rectangle `GetRect` picks from
 * the element info, the `WaitForExists` verdict, and the start and end
 * points `swipe` computes before handing them to the device. The
 * `WaitForExists` verdict lives here because `swipe` checks it before it
 * reads the rectangle, and the swipe outcome depends on it. The device
 * calls themselves (the info query, the wait and the swipe gesture) are
 * not modelled; their answers are parameters.
 */
module Geometry {
  import opened Wrappers
  import opened Selectors

  /** `ElementRect`. Go `int` is modelled as an unbounded integer. */
  datatype Rect = Rect(left: int, top: int, right: int, bottom: int)

  /** `ElementInfo`; a nil rectangle pointer is `None`. */
  datatype ElementInfo = ElementInfo(
    contentDescription: string,
    checked: bool,
    scrollable: bool,
    text: string,
    packageName: string,
    selected: bool,
    enabled: bool,
    className: string,
    focused: bool,
    focusable: bool,
    clickable: bool,
    chileCount: int,
    longClickable: bool,
    checkable: bool,
    bounds: Option<Rect>,
    visibleBounds: Option<Rect>)

  datatype Point = Point(x: int, y: int)

  /** `GetRect`, given the answer to the info query: its error, or the
      bounds, falling back to the visible bounds when there are none. The
      result can still be nil. */
  function GetRect(info: Result<ElementInfo, Error>): (r: Result<Option<Rect>, Error>)
    ensures info.Failure? ==> r == Failure(info.error)
    ensures info.Success? ==> r.Success?
  {
    match info
    case Failure(e) => Failure(e)
    case Success(i) => Success(if i.bounds.Some? then i.bounds else i.visibleBounds)
  }

  /** The bounds win whenever present; without bounds the visible bounds
      are returned; the rectangle is nil only when both are. */
  lemma GetRectChoice(i: ElementInfo)
    ensures i.bounds.Some? ==> GetRect(Success(i)) == Success(i.bounds)
    ensures i.bounds.None? ==> GetRect(Success(i)) == Success(i.visibleBounds)
    ensures GetRect(Success(i)).value == i.visibleBounds ==> i.bounds.None? || i.bounds == i.visibleBounds
    ensures GetRect(Success(i)).value.None? <==> i.bounds.None? && i.visibleBounds.None?
  {
  }

  /** The error `WaitForExists` reports for a missing element. */
  function NotFound(): Error
  {
    UiaError(-32002, "Element not found")
  }

  /** The `WaitForExists` verdict on the answer to the wait: any failure,
      and a negative answer, become the same "Element not found" error. */
  function WaitForExists(reply: Result<bool, Error>): (err: Option<Error>)
    ensures err.None? <==> reply == Success(true)
    ensures err.Some? ==> err.value == NotFound()
  {
    if reply.Failure? || !reply.value then Some(NotFound()) else None
  }

  /** The reason of a failed wait is dropped. */
  lemma WaitForExistsForgetsReason(e1: Error, e2: Error)
    ensures WaitForExists(Failure(e1)) == WaitForExists(Failure(e2)) == WaitForExists(Success(false))
  {
  }

  /** Go's `n / 2` on `int`, which truncates toward zero (Dafny's `/` rounds
      toward negative infinity for a positive divisor). */
  function GoHalf(n: int): (h: int)
    ensures n - 2 * h in {-1, 0, 1}
    ensures n >= 0 ==> 0 <= n - 2 * h
    ensures n <= 0 ==> n - 2 * h <= 0
  {
    if n >= 0 then n / 2 else -((-n) / 2)
  }

  /** The contract of GoHalf determines it: truncating halving is the only
      one with a remainder of at most one carrying the sign of `n`. */
  lemma GoHalfUnique(n: int, h: int)
    requires n - 2 * h in {-1, 0, 1}
    requires n >= 0 ==> 0 <= n - 2 * h
    requires n <= 0 ==> n - 2 * h <= 0
    ensures h == GoHalf(n)
  {
    var g := GoHalf(n);
    assert n - 2 * g in {-1, 0, 1};
  }

  /** Where the swipe starts: the truncated midpoint, at most half a pixel
      from the true midpoint on each axis. */
  function SwipeStart(r: Rect): (p: Point)
    ensures -1 <= (r.left + r.right) - 2 * p.x <= 1
    ensures -1 <= (r.top + r.bottom) - 2 * p.y <= 1
  {
    Point(GoHalf(r.left + r.right), GoHalf(r.top + r.bottom))
  }

  /** Where the swipe ends, or `None` for a direction `swipe` does not
      know. */
  function SwipeEnd(r: Rect, direction: string): (p: Option<Point>)
    ensures p.Some? <==> direction in {"up", "down", "left", "right"}
  {
    var c := SwipeStart(r);
    if direction == "up" then Some(Point(c.x, r.top))
    else if direction == "down" then Some(Point(c.x, r.bottom - 1))
    else if direction == "left" then Some(Point(r.left, c.y))
    else if direction == "right" then Some(Point(r.right - 1, c.y))
    else None
  }

  /** What `swipe` does: `Swiped` is the gesture it asks the device for,
      whose own error it returns; `NilRect` is the nil rectangle it then
      dereferences. */
  datatype SwipeOutcome =
    | Swiped(from: Point, to: Point)
    | NotSwiped
    | Failed(error: Error)
    | NilRect

  /** `swipe`, given the answers to the wait and to the info query. */
  function Swipe(found: Result<bool, Error>, info: Result<ElementInfo, Error>, direction: string): (o: SwipeOutcome)
    ensures WaitForExists(found).Some? ==> o == Failed(NotFound())
    ensures WaitForExists(found).None? && info.Failure? ==> o == Failed(info.error)
    ensures o.Swiped? <==>
      (found == Success(true) && info.Success? && GetRect(info).value.Some? && direction in {"up", "down", "left", "right"})
    ensures o.NotSwiped? <==>
      (found == Success(true) && info.Success? && GetRect(info).value.Some? && direction !in {"up", "down", "left", "right"})
  {
    match WaitForExists(found)
    case Some(e) => Failed(e)
    case None =>
      match GetRect(info)
      case Failure(e) => Failed(e)
      case Success(None) => NilRect
      case Success(Some(r)) =>
        match SwipeEnd(r, direction)
        case None => NotSwiped
        case Some(p) => Swiped(SwipeStart(r), p)
  }

  /** `SwipeUp`: a known direction, so it never does nothing; the
      gesture is vertical. */
  function SwipeUp(found: Result<bool, Error>, info: Result<ElementInfo, Error>): (o: SwipeOutcome)
    ensures !o.NotSwiped?
    ensures o.Swiped? ==> o.to.x == o.from.x
  {
    Swipe(found, info, "up")
  }

  /** `SwipeDown`: a known direction, so it never does nothing; the
      gesture is vertical. */
  function SwipeDown(found: Result<bool, Error>, info: Result<ElementInfo, Error>): (o: SwipeOutcome)
    ensures !o.NotSwiped?
    ensures o.Swiped? ==> o.to.x == o.from.x
  {
    Swipe(found, info, "down")
  }

  /** `SwipeLeft`: a known direction, so it never does nothing; the
      gesture is horizontal. */
  function SwipeLeft(found: Result<bool, Error>, info: Result<ElementInfo, Error>): (o: SwipeOutcome)
    ensures !o.NotSwiped?
    ensures o.Swiped? ==> o.to.y == o.from.y
  {
    Swipe(found, info, "left")
  }

  /** `SwipeRight`: a known direction, so it never does nothing; the
      gesture is horizontal. */
  function SwipeRight(found: Result<bool, Error>, info: Result<ElementInfo, Error>): (o: SwipeOutcome)
    ensures !o.NotSwiped?
    ensures o.Swiped? ==> o.to.y == o.from.y
  {
    Swipe(found, info, "right")
  }

  /** The four public swipes all start at the midpoint and end on the
      matching edge, once the element exists and has a rectangle. */
  lemma NamedSwipes(found: Result<bool, Error>, info: ElementInfo, r: Rect)
    requires found == Success(true) && GetRect(Success(info)) == Success(Some(r))
    ensures SwipeUp(found, Success(info)) == Swiped(SwipeStart(r), Point(SwipeStart(r).x, r.top))
    ensures SwipeDown(found, Success(info)) == Swiped(SwipeStart(r), Point(SwipeStart(r).x, r.bottom - 1))
    ensures SwipeLeft(found, Success(info)) == Swiped(SwipeStart(r), Point(r.left, SwipeStart(r).y))
    ensures SwipeRight(found, Success(info)) == Swiped(SwipeStart(r), Point(r.right - 1, SwipeStart(r).y))
  {
  }

  /** The start point lies inside a well-formed rectangle. */
  lemma SwipeStartInside(r: Rect)
    requires r.left <= r.right && r.top <= r.bottom
    ensures r.left <= SwipeStart(r).x <= r.right
    ensures r.top <= SwipeStart(r).y <= r.bottom
  {
  }

  /** Up and left always move toward the named edge, or stay put. */
  lemma SwipeUpLeftDirection(r: Rect)
    requires r.left <= r.right && r.top <= r.bottom
    ensures SwipeEnd(r, "up").value.y <= SwipeStart(r).y
    ensures SwipeEnd(r, "up").value.x == SwipeStart(r).x
    ensures SwipeEnd(r, "left").value.x <= SwipeStart(r).x
    ensures SwipeEnd(r, "left").value.y == SwipeStart(r).y
  {
  }

  /** Down and right move toward the named edge when the rectangle is not
      empty along that axis and the coordinate sum is not negative. */
  lemma SwipeDownRightDirection(r: Rect)
    requires r.left < r.right && r.top < r.bottom
    requires r.left + r.right >= 0 && r.top + r.bottom >= 0
    ensures SwipeEnd(r, "down").value.y >= SwipeStart(r).y
    ensures SwipeEnd(r, "down").value.x == SwipeStart(r).x
    ensures SwipeEnd(r, "right").value.x >= SwipeStart(r).x
    ensures SwipeEnd(r, "right").value.y == SwipeStart(r).y
  {
  }

  /** With a negative coordinate sum, truncation rounds the midpoint up,
      past the last row: a one-pixel rectangle straddling zero swipes
      "down" upward. */
  lemma SwipeDownAboveStart()
    ensures SwipeStart(Rect(0, -1, 1, 0)).y == 0
    ensures SwipeEnd(Rect(0, -1, 1, 0), "down") == Some(Point(0, -1))
  {
  }
}
