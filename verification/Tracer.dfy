/** The homing missile's turn (A_Tracer in p_enemy.c): 32-bit binary angles that wrap around. */
module Tracer {
  import opened CArith

  const ANG180 := 0x8000_0000
  const TRACEANGLE := 0xc00_0000

  type Angle = a: int | 0 <= a < TWO32

  /** Unsigned 32-bit addition and subtraction. */
  function Add(a: Angle, b: Angle): (r: Angle)
    ensures r == (a + b) % TWO32
  {
    if a + b < TWO32 then a + b else a + b - TWO32
  }

  function Sub(a: Angle, b: Angle): (r: Angle)
    ensures r == (a - b) % TWO32
  {
    if a >= b then a - b else a - b + TWO32
  }

  /** Angular distance, taken the shorter way round. */
  function Distance(a: Angle, b: Angle): int {
    Min(Sub(b, a), TWO32 - Sub(b, a))
  }

  /** What one adjustment should do: snap to a bearing within reach, otherwise turn by
      TRACEANGLE toward the nearer side (counterclockwise when exactly opposite). */
  function Steered(angle: Angle, exact: Angle): Angle {
    if Distance(angle, exact) <= TRACEANGLE then exact
    else if Sub(exact, angle) <= ANG180 then Add(angle, TRACEANGLE)
    else Sub(angle, TRACEANGLE)
  }

  class Missile {
    var angle: Angle

    /** One call of A_Tracer. `bearing` is the direction to the live target, if there is one. Seen
        counterclockwise from the old heading it is either within 0xc00_0000 on one of the sides, and
        is taken, or the missile turns by that much, counterclockwise up to a half circle. */
    method Trace(gametic: nat, hasTarget: bool, bearing: Angle)
      modifies this
      ensures angle == if gametic % 4 == 0 && hasTarget then Steered(old(angle), bearing) else old(angle)
      ensures gametic % 4 == 0 && hasTarget ==>
        var ahead := (bearing - old(angle)) % TWO32;
        angle == if ahead <= 0xc00_0000 || ahead >= TWO32 - 0xc00_0000 then bearing
                 else if ahead <= 0x8000_0000 then (old(angle) + 0xc00_0000) % TWO32
                 else (old(angle) - 0xc00_0000) % TWO32
    {
      if gametic % 4 != 0 {
        return;
      }
      if !hasTarget {
        return;
      }
      if bearing != angle {
        if Sub(bearing, angle) > ANG180 {
          angle := Sub(angle, TRACEANGLE);
          if Sub(bearing, angle) < ANG180 {
            angle := bearing;
          }
        } else {
          angle := Add(angle, TRACEANGLE);
          if Sub(bearing, angle) > ANG180 {
            angle := bearing;
          }
        }
      }
    }
  }

  function SteeredBy(angle: Angle, exact: Angle, n: nat): Angle
    decreases n
  {
    if n == 0 then angle else SteeredBy(Steered(angle, exact), exact, n - 1)
  }

  /** The turn never overshoots: each one lowers the remaining distance by exactly TRACEANGLE,
      to no less than zero. */
  lemma {:induction false} SteeringDistance(angle: Angle, exact: Angle, n: nat)
    ensures Distance(SteeredBy(angle, exact, n), exact) == Max(0, Distance(angle, exact) - n * TRACEANGLE)
    decreases n
  {
    if n == 0 {
    } else {
      assert Distance(Steered(angle, exact), exact) == Max(0, Distance(angle, exact) - TRACEANGLE);
      SteeringDistance(Steered(angle, exact), exact, n - 1);
    }
  }

  /** At a fixed bearing, n adjustments reach the target exactly when n turns can cover the
      initial distance; eleven always can, and an opposite heading needs all eleven. */
  lemma ReachesBearing(angle: Angle, exact: Angle, n: nat)
    ensures SteeredBy(angle, exact, n) == exact <==> Distance(angle, exact) <= n * TRACEANGLE
    ensures n >= 11 ==> SteeredBy(angle, exact, n) == exact
    ensures Sub(exact, angle) == ANG180 && n < 11 ==> SteeredBy(angle, exact, n) != exact
  {
    SteeringDistance(angle, exact, n);
    var r := SteeredBy(angle, exact, n);
    assert Distance(r, exact) == 0 <==> r == exact;
  }
}
