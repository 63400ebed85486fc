/**
 * The custom cursor of the page. A `mousemove` handler records the latest
 * pointer position; on every animation frame the cursor moves a fifth and
 * its follower a tenth of the remaining distance toward that position, and
 * both are drawn at a fixed offset from where they are.
 */
module Pointer {

  import opened RealArith

  /** The fraction of the remaining distance the cursor covers per frame. */
  const CursorEase: real := 0.2
  /** The fraction the follower covers per frame: it lags behind the cursor. */
  const FollowerEase: real := 0.1
  /** The cursor is translated by its position minus this, on both axes. */
  const CursorOffset: real := 20.0
  /** The follower is translated by its position minus this, on both axes. */
  const FollowerOffset: real := 4.0

  function Abs(x: real): real { if x < 0.0 then -x else x }

  /** One easing step: `pos += (target - pos) * k`. */
  function Ease(pos: real, target: real, k: real): real
  {
    pos + (target - pos) * k
  }

  /** `n` easing steps toward a target that stays put. */
  function EaseN(pos: real, target: real, k: real, n: nat): real
  {
    if n == 0 then pos else Ease(EaseN(pos, target, k, n - 1), target, k)
  }

  function Pow(q: real, n: nat): real
  {
    if n == 0 then 1.0 else q * Pow(q, n - 1)
  }

  /** k of a non-negative distance lies between 0 and the distance, strictly
    * so when the distance is positive and k is strictly between 0 and 1. */
  lemma FractionBounds(a: real, k: real)
    requires 0.0 <= a && 0.0 <= k <= 1.0
    ensures 0.0 <= Mul(a, k) <= a
    ensures 0.0 < a && 0.0 < k < 1.0 ==> 0.0 < Mul(a, k) < a
  {
    assert a * k + a * (1.0 - k) == a;
    assert 0.0 <= a * (1.0 - k);
    if 0.0 < a && 0.0 < k < 1.0 {
      assert 0.0 < a * (1.0 - k);
    }
  }

  lemma EaseAsMul(pos: real, target: real, k: real)
    ensures Ease(pos, target, k) == pos + Mul(target - pos, k)
    ensures target - Ease(pos, target, k) == Mul(target - pos, 1.0 - k)
  {
    MulComplement(target - pos, k);
  }

  /** One step with a factor in [0, 1] lands between the old position and the
    * target, leaves exactly (1 - k) of the distance, and a position already
    * at the target stays there. */
  lemma EaseStep(pos: real, target: real, k: real)
    requires 0.0 <= k <= 1.0
    ensures target - Ease(pos, target, k) == (1.0 - k) * (target - pos)
    ensures pos <= target ==> pos <= Ease(pos, target, k) <= target
    ensures target <= pos ==> target <= Ease(pos, target, k) <= pos
    ensures pos == target ==> Ease(pos, target, k) == pos
  {
    EaseAsMul(pos, target, k);
    MulCommutes(target - pos, 1.0 - k);
    if pos <= target {
      FractionBounds(target - pos, k);
    } else {
      FractionBounds(pos - target, k);
      MulNegate(target - pos, k);
    }
  }

  /** With a factor strictly between 0 and 1 a step from anywhere but the
    * target moves strictly toward it and neither reaches nor overshoots it. */
  lemma EaseStepStrict(pos: real, target: real, k: real)
    requires 0.0 < k < 1.0
    ensures pos < target ==> pos < Ease(pos, target, k) < target
    ensures target < pos ==> target < Ease(pos, target, k) < pos
  {
    EaseAsMul(pos, target, k);
    if pos < target {
      FractionBounds(target - pos, k);
    } else if target < pos {
      FractionBounds(pos - target, k);
      MulNegate(target - pos, k);
    }
  }

  /** After n steps the remaining distance is (1 - k)^n of the first one. */
  lemma EaseNDistance(pos: real, target: real, k: real, n: nat)
    ensures target - EaseN(pos, target, k, n) == Pow(1.0 - k, n) * (target - pos)
  {
    EaseNDistanceMul(pos, target, k, n);
  }

  /** For 0 <= q <= 1: 0 <= q^n <= 1 and q^n * (1 + n(1 - q)) <= 1, the
    * bound that makes the easing converge. */
  lemma {:induction false} PowBounds(q: real, n: nat)
    requires 0.0 <= q <= 1.0
    ensures 0.0 <= Pow(q, n) <= 1.0
    ensures Mul(Pow(q, n), 1.0 + Mul(n as real, 1.0 - q)) <= 1.0
  {
    if n > 0 {
      PowBounds(q, n - 1);
      var a := Pow(q, n - 1);
      var m: real := (n - 1) as real;
      assert n as real == m + 1.0;
      MulSuccessor(m, 1.0 - q);
      var b := 1.0 + Mul(m, 1.0 - q);
      assert 1.0 + Mul(n as real, 1.0 - q) == b + (1.0 - q);
      assert Pow(q, n) == Mul(q, a);
      PowStep(q, a, b);
    }
  }

  lemma PowStep(q: real, a: real, b: real)
    requires 0.0 <= q <= 1.0 && 0.0 <= a <= 1.0 && Mul(a, b) <= 1.0
    ensures 0.0 <= Mul(q, a) <= 1.0
    ensures Mul(Mul(q, a), b + (1.0 - q)) <= 1.0
  {
    MulNonNegative(q, a);
    MulMonotone(a, q, 1.0);
    MulCommutes(a, q);
    MulMonotone(q, Mul(a, b), 1.0);
    MulNonNegative(q, 1.0 - q);
    MulMonotone(Mul(q, 1.0 - q), a, 1.0);
    MulNonNegative(1.0 - q, 1.0 - q);
    assert Mul(Mul(q, a), b + (1.0 - q))
        == Mul(q, Mul(a, b)) + Mul(Mul(q, 1.0 - q), a);
    assert q + Mul(q, 1.0 - q) == 1.0 - Mul(1.0 - q, 1.0 - q);
  }

  lemma {:induction false} PowMonotone(p: real, q: real, n: nat)
    requires 0.0 <= p <= q
    ensures 0.0 <= Pow(p, n) <= Pow(q, n)
  {
    if n > 0 {
      PowMonotone(p, q, n - 1);
      var a, b := Pow(p, n - 1), Pow(q, n - 1);
      MulNonNegative(p, a);
      MulMonotone(a, p, q);
      MulCommutes(a, p);
      MulCommutes(a, q);
      MulMonotone(q, a, b);
      assert Pow(p, n) == Mul(p, a) && Pow(q, n) == Mul(q, b);
    }
  }

  lemma AbsOfProduct(p: real, x: real)
    requires 0.0 <= p
    ensures Abs(Mul(p, x)) == Mul(p, Abs(x))
  {
    if x < 0.0 {
      MulNegate(x, p);
      MulCommutes(x, p);
      MulCommutes(-x, p);
      MulNonNegative(p, -x);
    } else {
      MulNonNegative(p, x);
    }
  }

  /** Held at a fixed target, a position with factor k in (0, 1] is within
    * eps of it from every frame n on where n * k * eps reaches the first
    * distance: the easing converges. */
  lemma EaseConverges(pos: real, target: real, k: real, eps: real, n: nat)
    requires 0.0 < k <= 1.0 && eps > 0.0
    requires Mul(Mul(n as real, k), eps) >= Abs(target - pos)
    ensures Abs(target - EaseN(pos, target, k, n)) < eps
  {
    var p := Pow(1.0 - k, n);
    var d := Abs(target - pos);
    var m := 1.0 + Mul(n as real, k);
    PowBounds(1.0 - k, n);
    assert Mul(p, m) <= 1.0 by {
      assert 1.0 - (1.0 - k) == k;
    }
    assert Abs(target - EaseN(pos, target, k, n)) == Mul(p, d) by {
      EaseNDistanceMul(pos, target, k, n);
      AbsOfProduct(p, target - pos);
    }
    assert m - 1.0 == Mul(n as real, k);
    ConvergeBound(p, d, m, eps);
  }

  lemma {:induction false} EaseNDistanceMul(pos: real, target: real, k: real, n: nat)
    ensures target - EaseN(pos, target, k, n) == Mul(Pow(1.0 - k, n), target - pos)
  {
    if n > 0 {
      EaseNDistanceMul(pos, target, k, n - 1);
      var e := EaseN(pos, target, k, n - 1);
      var p := Pow(1.0 - k, n - 1);
      assert target - e == Mul(p, target - pos);
      EaseAsMul(e, target, k);
      assert target - EaseN(pos, target, k, n) == Mul(Mul(p, target - pos), 1.0 - k);
      MulCommutes(Mul(p, target - pos), 1.0 - k);
      MulAssociates(1.0 - k, p, target - pos);
      assert Pow(1.0 - k, n) == Mul(1.0 - k, p);
    }
  }

  lemma ConvergeBound(p: real, d: real, m: real, eps: real)
    requires 0.0 <= p && 0.0 <= d && eps > 0.0
    requires Mul(p, m) <= 1.0
    requires Mul(m - 1.0, eps) >= d
    ensures Mul(p, d) < eps
  {
    assert d < Mul(m, eps) by {
      assert Mul(m, eps) == Mul(m - 1.0, eps) + eps;
    }
    if p == 0.0 {
      assert Mul(p, d) == 0.0;
    } else {
      MulStrict(p, d, Mul(m, eps));
      MulAssociates(p, m, eps);
      MulCommutes(Mul(p, m), eps);
      MulMonotone(eps, Mul(p, m), 1.0);
    }
  }

  /** From the same start and toward the same held target, the cursor is
    * never farther from the target than the follower. */
  lemma CursorLeadsFollower(pos: real, target: real, n: nat)
    ensures Abs(target - EaseN(pos, target, CursorEase, n))
         <= Abs(target - EaseN(pos, target, FollowerEase, n))
  {
    EaseNDistanceMul(pos, target, CursorEase, n);
    EaseNDistanceMul(pos, target, FollowerEase, n);
    PowMonotone(0.8, 0.9, n);
    var a, b := Pow(0.8, n), Pow(0.9, n);
    assert 1.0 - CursorEase == 0.8 && 1.0 - FollowerEase == 0.9;
    assert target - EaseN(pos, target, CursorEase, n) == Mul(a, target - pos);
    assert target - EaseN(pos, target, FollowerEase, n) == Mul(b, target - pos);
    AbsOfProduct(a, target - pos);
    AbsOfProduct(b, target - pos);
    var d := Abs(target - pos);
    MulCommutes(a, d);
    MulCommutes(b, d);
    MulMonotone(d, a, b);
  }

  /** The closure state of the cursor code. */
  datatype PointerState = PointerState(
    mouseX: real, mouseY: real,
    cursorX: real, cursorY: real,
    followerX: real, followerY: real)

  /** Everything starts at the origin. */
  const Initial := PointerState(0.0, 0.0, 0.0, 0.0, 0.0, 0.0)

  /** What can happen to the state: a pointer move, or an animation frame. */
  datatype Event = MouseMove(x: real, y: real) | Frame

  function Step(s: PointerState, e: Event): PointerState
  {
    match e
    case MouseMove(x, y) => s.(mouseX := x, mouseY := y)
    case Frame =>
      s.(cursorX := Ease(s.cursorX, s.mouseX, CursorEase),
         cursorY := Ease(s.cursorY, s.mouseY, CursorEase),
         followerX := Ease(s.followerX, s.mouseX, FollowerEase),
         followerY := Ease(s.followerY, s.mouseY, FollowerEase))
  }

  /** The state after the events, in order. */
  function Replay(s: PointerState, es: seq<Event>): PointerState
  {
    if es == [] then s else Step(Replay(s, es[..|es| - 1]), es[|es| - 1])
  }

  /** The pointer position is the one of the last move, however many frames
    * came after it: last writer wins. */
  lemma {:induction false} ReplayLastMove(s: PointerState, es: seq<Event>, i: nat)
    requires i < |es| && es[i].MouseMove?
    requires forall j :: i < j < |es| ==> es[j].Frame?
    ensures Replay(s, es).mouseX == es[i].x && Replay(s, es).mouseY == es[i].y
  {
    if i < |es| - 1 {
      ReplayLastMove(s, es[..|es| - 1], i);
    }
  }

  /** Without moves the pointer position stays where it was. */
  lemma {:induction false} ReplayWithoutMoves(s: PointerState, es: seq<Event>)
    requires forall j :: 0 <= j < |es| ==> es[j].Frame?
    ensures Replay(s, es).mouseX == s.mouseX && Replay(s, es).mouseY == s.mouseY
  {
    if es != [] {
      ReplayWithoutMoves(s, es[..|es| - 1]);
    }
  }

  /** Cursor and follower move only on frames. */
  lemma {:induction false} ReplayWithoutFrames(s: PointerState, es: seq<Event>)
    requires forall j :: 0 <= j < |es| ==> es[j].MouseMove?
    ensures var r := Replay(s, es);
      r.cursorX == s.cursorX && r.cursorY == s.cursorY &&
      r.followerX == s.followerX && r.followerY == s.followerY
  {
    if es != [] {
      ReplayWithoutFrames(s, es[..|es| - 1]);
    }
  }

  /** Frames alone ease the cursor and the follower toward the held pointer,
    * each at its own rate. */
  lemma {:induction false} ReplayFrames(s: PointerState, es: seq<Event>)
    requires forall j :: 0 <= j < |es| ==> es[j].Frame?
    ensures var r := Replay(s, es);
      && r.cursorX == EaseN(s.cursorX, s.mouseX, CursorEase, |es|)
      && r.cursorY == EaseN(s.cursorY, s.mouseY, CursorEase, |es|)
      && r.followerX == EaseN(s.followerX, s.mouseX, FollowerEase, |es|)
      && r.followerY == EaseN(s.followerY, s.mouseY, FollowerEase, |es|)
  {
    if es != [] {
      ReplayFrames(s, es[..|es| - 1]);
      ReplayWithoutMoves(s, es[..|es| - 1]);
    }
  }

  /** The cursor state as the page holds it: six variables of one closure,
    * updated in place by the two callbacks. */
  class CursorLoop {
    var mouseX: real
    var mouseY: real
    var cursorX: real
    var cursorY: real
    var followerX: real
    var followerY: real

    function State(): PointerState
      reads this
    {
      PointerState(mouseX, mouseY, cursorX, cursorY, followerX, followerY)
    }

    constructor ()
      ensures State() == Initial
    {
      mouseX, mouseY := 0.0, 0.0;
      cursorX, cursorY := 0.0, 0.0;
      followerX, followerY := 0.0, 0.0;
    }

    /** The `mousemove` handler: it only records the position. */
    method OnMouseMove(clientX: real, clientY: real)
      modifies this
      ensures State() == Step(old(State()), MouseMove(clientX, clientY))
    {
      mouseX := clientX;
      mouseY := clientY;
    }

    /** One run of `animateCursor`: ease both elements and return the
      * translations written to the cursor and to the follower. */
    method AnimateCursor() returns (cursorAt: (real, real), followerAt: (real, real))
      modifies this
      ensures State() == Step(old(State()), Frame)
      ensures cursorAt == (cursorX - CursorOffset, cursorY - CursorOffset)
      ensures followerAt == (followerX - FollowerOffset, followerY - FollowerOffset)
    {
      cursorX := cursorX + (mouseX - cursorX) * CursorEase;
      cursorY := cursorY + (mouseY - cursorY) * CursorEase;
      followerX := followerX + (mouseX - followerX) * FollowerEase;
      followerY := followerY + (mouseY - followerY) * FollowerEase;
      cursorAt := (cursorX - CursorOffset, cursorY - CursorOffset);
      followerAt := (followerX - FollowerOffset, followerY - FollowerOffset);
    }
  }
}
