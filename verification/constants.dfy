/**
 * The tuning constants of constants/contants.go that the modelled code reads.
 * The float32 literals become exact reals.
 */
module Constants {

  /** Screen pixels per simulated metre. */
  const PIXEL_PER_METER: real := 50.0

  /** Gravitational acceleration in pixels per second squared: 9.8 m/s² scaled to pixels. */
  const GRAVITY: real := 9.8 * PIXEL_PER_METER

  /** Rest length of the spring force: one metre in pixels. */
  const SPRING_REST_LENGTH: real := 1.0 * PIXEL_PER_METER

  /** Stiffness of the spring force. */
  const SPRING_CONSTANT: real := 3.0
}
