/** Value types and constants declared by the LD2450 driver's header. */
module Ld2450Types {
  import Ld2450Distance

  /** One byte of the radar stream (`uint8_t`). */
  type uint8 = b: int | 0 <= b < 0x100

  /** A signed 16-bit two's-complement value (`int16_t`). */
  type int16 = v: int | -0x8000 <= v < 0x8000

  /** Number of positional target slots in every frame (kSupportedTargets). */
  const SupportedTargets: nat := 3

  /** Fixed capacity of the accumulation buffer in bytes (kFrameBufferSize). */
  const FrameBufferSize: nat := 128

  /** One tracked object. The fields are C `int`s; x, y and speed are always
      filled from int16 values. The record's distance is not kept as a field:
      it is set from x and y whenever x and y are (0 for the default record),
      so it is the function Distance() of them. */
  datatype RadarTarget = RadarTarget(valid: bool, x: int, y: int, speed: int)
  {
    /** Distance from the sensor in mm: round(sqrt(x*x + y*y)). */
    function Distance(): (d: nat)
      ensures Ld2450Distance.IsRoundedRoot(x * x + y * y, d)
    {
      Ld2450Distance.RoundedNorm(x, y)
    }
  }

  /** The value of a default-initialised `RadarTarget{}`: no target. */
  const DefaultTarget: RadarTarget := RadarTarget(false, 0, 0, 0)

  /** The default record holds no target: invalid, at the origin, at rest,
      and at distance 0. */
  lemma DefaultTargetIsEmpty()
    ensures !DefaultTarget.valid && DefaultTarget.x == 0 && DefaultTarget.y == 0
    ensures DefaultTarget.speed == 0 && DefaultTarget.Distance() == 0
  {
    assert Ld2450Distance.RoundSqrt(0) == 0;
  }

  function Min(a: nat, b: nat): nat { if a <= b then a else b }
}
