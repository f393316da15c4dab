/**
  The game's fixed configuration (screen, timing and judgment constants) and
  the two derived travel constants. All values are exact: `TravelTime` is the
  rational 6875/6 ms rather than the nearest double.
*/
module Config {

  const Width: int := 400
  const Height: int := 600
  const Fps: int := 60
  const SquareSize: int := 50
  /** Pixels per frame. */
  const Speed: int := 8
  /** Screen row of the hit line. */
  const HitZoneY: int := Height - 100
  /** Keyboard presses only consider squares closer than this (pixels). */
  const HitDistanceThreshold: int := 70
  /** The GPIO button path uses its own, wider literal threshold. */
  const GpioHitDistanceThreshold: int := 100
  /** Frame-timing slack before a square can be retired (ms). */
  const GraceMs: int := 30
  /** Points of a Perfect judgment. */
  const MaxPoints: int := 100
  /** Points added for every second qualifying held frame. */
  const HoldBonus: int := 5
  /** Number of playable lanes (hit zones). */
  const Lanes: int := 2

  /** A square travels from just above the screen (y = -SquareSize) to the hit line. */
  const TravelDistance: int := HitZoneY - (-SquareSize)
  const FrameMs: real := 1000.0 / Fps as real
  /** Lead time between a square's spawn and its note time. */
  const TravelTime: real := (TravelDistance as real / Speed as real) * FrameMs

  lemma TravelTimeValue()
    ensures TravelDistance == 550
    ensures TravelTime == 6875.0 / 6.0
    ensures TravelTime > 0.0
  {
  }
}
