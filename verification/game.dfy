/** `Game` (src/game/Game.cpp): the ship's vertical "wave" motion and a single
    forward scroll pass that stops at a fixed level length. `fx` declares no
    comparison or unary minus, so `xScroll >= testLength` is the comparison of
    the raw values and `-speedY` the negation of the raw value. */
module Game {
  import opened Ints
  import opened Fixed

  datatype ShipState = ShipState(y: Fx, vy: Fx)

  datatype GameState = GameState(ship: ShipState, xScroll: Fx, finished: bool)
  {
    predicate Valid() { ship.y.Valid() && ship.vy.Valid() && xScroll.Valid() }
  }

  const SPEED_Y: int := 80
  const SCROLL_SPEED: int := 90
  /** 332 columns of 10 world units. */
  const TEST_LENGTH: int := 332 * 10

  function TestLength(): (l: Fx)
    ensures l.Valid() && l.raw == TEST_LENGTH * ONE_RAW
  {
    FromInt(TEST_LENGTH)
  }

  /** The scroll never passes the level length, and a finished pass sits
      exactly at it. */
  predicate ScrollInvariant(g: GameState) {
    && g.xScroll.raw <= TestLength().raw
    && (g.finished ==> g.xScroll == TestLength())
  }

  /** `reset`: ship at rest at height 0, scroll at 0, pass not finished. */
  function Reset(): (g: GameState)
    ensures g.Valid() && ScrollInvariant(g) && !g.finished
    ensures g.ship.y.raw == 0 && g.ship.vy.raw == 0 && g.xScroll.raw == 0
  {
    GameState(ShipState(FromInt(0), FromInt(0)), FromInt(0), false)
  }

  /** `update`: vertical speed +80 with thrust and -80 without, the height
      integrated over `dt`; while the pass is not finished, the scroll moves
      on by `90 * dt` and is clamped to the level length, which finishes it. */
  function Update(g: GameState, thrust: bool, dt: Fx): (r: GameState)
    requires g.Valid() && dt.Valid()
    ensures r.Valid()
    ensures r.ship.vy.raw == (if thrust then SPEED_Y * ONE_RAW else -SPEED_Y * ONE_RAW)
    ensures r.ship.y == Add(g.ship.y, Mul(r.ship.vy, dt))
    ensures g.finished ==> r.xScroll == g.xScroll && r.finished
    ensures !g.finished ==> (r.finished <==> Add(g.xScroll, Mul(FromInt(SCROLL_SPEED), dt)).raw >= TestLength().raw)
    ensures !g.finished && !r.finished ==> r.xScroll == Add(g.xScroll, Mul(FromInt(SCROLL_SPEED), dt))
    ensures !g.finished && r.finished ==> r.xScroll == TestLength()
    ensures !g.finished ==> ScrollInvariant(r)
    ensures ScrollInvariant(g) ==> ScrollInvariant(r)
  {
    var speedY := FromInt(SPEED_Y);
    var vy := if thrust then speedY else Neg(speedY);
    var y := Add(g.ship.y, Mul(vy, dt));
    var ship := ShipState(y, vy);
    if g.finished then GameState(ship, g.xScroll, g.finished)
    else
      var x := Add(g.xScroll, Mul(FromInt(SCROLL_SPEED), dt));
      if x.raw >= TestLength().raw then GameState(ship, TestLength(), true)
      else GameState(ship, x, false)
  }

  // ---------------------------------------------------------------------------
  // The scroll pass

  /** Once the pass is finished, no later update moves the scroll or clears the flag. */
  lemma {:induction false} FinishedIsSticky(g: GameState, inputs: seq<(bool, Fx)>)
    requires g.Valid() && g.finished
    requires forall k :: 0 <= k < |inputs| ==> inputs[k].1.Valid()
    ensures var r := Run(g, inputs); r.finished && r.xScroll == g.xScroll
    decreases |inputs|
  {
    if |inputs| > 0 {
      var g1 := Update(g, inputs[0].0, inputs[0].1);
      FinishedIsSticky(g1, inputs[1..]);
    }
  }

  /** A sequence of updates, one per (thrust, dt) pair. */
  function Run(g: GameState, inputs: seq<(bool, Fx)>): (r: GameState)
    requires g.Valid()
    requires forall k :: 0 <= k < |inputs| ==> inputs[k].1.Valid()
    ensures r.Valid()
    decreases |inputs|
  {
    if |inputs| == 0 then g else Run(Update(g, inputs[0].0, inputs[0].1), inputs[1..])
  }

  /** The scroll invariant holds along any run that starts in it, and so from
      `reset` whatever the inputs. */
  lemma {:induction false} RunKeepsInvariant(g: GameState, inputs: seq<(bool, Fx)>)
    requires g.Valid() && ScrollInvariant(g)
    requires forall k :: 0 <= k < |inputs| ==> inputs[k].1.Valid()
    ensures ScrollInvariant(Run(g, inputs))
    decreases |inputs|
  {
    if |inputs| > 0 {
      RunKeepsInvariant(Update(g, inputs[0].0, inputs[0].1), inputs[1..]);
    }
  }

  /** With a non-negative step small enough that neither `90 * dt` nor the new
      scroll leaves 32 bits, the scroll does not move backwards. */
  lemma ScrollMonotonic(g: GameState, thrust: bool, dt: Fx)
    requires g.Valid() && dt.Valid() && ScrollInvariant(g)
    requires dt.raw >= 0 && IsInt32(SCROLL_SPEED * dt.raw) && IsInt32(g.xScroll.raw + SCROLL_SPEED * dt.raw)
    ensures Update(g, thrust, dt).xScroll.raw >= g.xScroll.raw
  {
    var s := FromInt(SCROLL_SPEED);
    var m := s.raw * dt.raw;
    assert m == ONE_RAW * (SCROLL_SPEED * dt.raw) + 0;
    DivUnique(m, ONE_RAW, SCROLL_SPEED * dt.raw, 0);
    assert Mul(s, dt).raw == SCROLL_SPEED * dt.raw;
  }

  /** A step so large that `90 * dt` leaves 32 bits: the `(int32_t)`
      conversion of the product wraps it negative (C++20, and GCC before it),
      so after one such update from `reset` the scroll is negative and the
      pass continues. */
  lemma LargeStepWrapsScroll()
    ensures var r := Update(Reset(), false, Fx(0x0200_0000)); r.xScroll.raw < 0 && !r.finished
  {
    var s := FromInt(SCROLL_SPEED);
    var m := s.raw * 0x0200_0000;
    DivUnique(m, ONE_RAW, SCROLL_SPEED * 0x0200_0000, 0);
  }
}
