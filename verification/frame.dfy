/** The per-frame step (`update`) and the shot bookkeeping (`resetFire`). */
module Frame {
  import opened Vectors
  import opened Controls
  import opened ShipState

  /** Seconds between shots: the exact value of the single-precision
      literal `0.1f`, which is 13421773 / 2^27. */
  const FIRE_RATE: real := 13421773.0 / 134217728.0

  /** Lateral distance from the ship to either muzzle. */
  const POS_OFFSET: Vec3 := Vec3(25.0, 0.0, 0.0)

  datatype Option<T> = None | Some(value: T)

  /** What one frame produces: the new state and, when the ship fired, the
      position the shot spawns at (`update`'s result and `firePos`). */
  datatype FrameResult = FrameResult(ship: Ship, shot: Option<Vec3>)

  /** `resetFire(timeOffset)`: restart the cooldown and switch muzzles. */
  function ResetFire(s: Ship, timeOffset: real): (r: Ship)
    ensures r.fireCooldown == FIRE_RATE + timeOffset
    ensures r.altFire != s.altFire
    ensures r == s.(fireCooldown := r.fireCooldown, altFire := r.altFire)
  {
    s.(fireCooldown := FIRE_RATE + timeOffset, altFire := !s.altFire)
  }

  /** The muzzle a shot leaves from: `+POS_OFFSET` when `altFire` is set,
      `-POS_OFFSET` otherwise. */
  function Muzzle(p: Vec3, altFire: bool): Vec3 {
    if altFire then p.Plus(POS_OFFSET) else p.Minus(POS_OFFSET)
  }

  lemma ScaleSquareLength(o: Vec3, k: real)
    ensures o.Scale(k).SquareLength() == k * k * o.SquareLength()
  {
    assert (k * o.x) * (k * o.x) == k * k * (o.x * o.x);
    assert (k * o.y) * (k * o.y) == k * k * (o.y * o.y);
    assert (k * o.z) * (k * o.z) == k * k * (o.z * o.z);
  }

  lemma SquareLengthNonNegative(o: Vec3)
    ensures o.SquareLength() >= 0.0
  {
    assert o.x * o.x >= 0.0 && o.y * o.y >= 0.0 && o.z * o.z >= 0.0;
  }

  /** Multiplying both sides of `a <= b` by a non-negative `c`. */
  lemma MulMono(a: real, b: real, c: real)
    requires a <= b && 0.0 <= c
    ensures a * c <= b * c
  {
    assert b * c - a * c == (b - a) * c;
  }

  lemma MulNonNegative(a: real, b: real)
    requires 0.0 <= a && 0.0 <= b
    ensures 0.0 <= a * b
  {
    MulMono(0.0, a, b);
    assert 0.0 * b == 0.0;
  }

  /** Scaling by a factor in `[0, 1]` never lengthens a vector. */
  lemma ScaleShrinks(o: Vec3, k: real)
    ensures 0.0 <= k <= 1.0 ==> o.Scale(k).SquareLength() <= o.SquareLength()
  {
    if 0.0 <= k <= 1.0 {
      ScaleSquareLength(o, k);
      SquareLengthNonNegative(o);
      MulMono(k, 1.0, k);
      MulMono(k * k, 1.0, o.SquareLength());
    }
  }

  /** Moves part or all of the pending `offset` into `position`: all of it
      when its squared length is below `dt * dt`, otherwise the fraction
      `dt` of it. */
  function Dissipate(position: Vec3, offset: Vec3, dt: real): (r: (Vec3, Vec3))
    ensures r.0.Plus(r.1) == position.Plus(offset)
  {
    if offset.SquareLength() < dt * dt then
      (position.Plus(offset), Zero)
    else
      (position.Plus(offset.Scale(dt)), offset.Minus(offset.Scale(dt)))
  }

  /** `update(deltaTime)`: move under the current input, count the cooldown
      down and fire if asked and ready, then dissipate the offset. */
  function Update(s: Ship, dt: real): (r: FrameResult)
    ensures r.ship.history == s.history && r.ship.historyIndex == s.historyIndex
    ensures r.shot.Some? <==> HeadFlags(s).fire && s.fireCooldown - dt <= 0.0
    ensures r.shot.Some? ==>
      && r.shot.value == Muzzle(Move(s.position, HeadFlags(s), dt), s.altFire)
      && r.ship.fireCooldown == FIRE_RATE > 0.0
      && r.ship.altFire == !s.altFire
    ensures r.shot.None? ==> r.ship.fireCooldown == s.fireCooldown - dt && r.ship.altFire == s.altFire
    ensures r.ship.position.Plus(r.ship.offset) == Move(s.position.Plus(s.offset), HeadFlags(s), dt)
  {
    var f := HeadFlags(s);
    var moved := s.(position := Move(s.position, f, dt), fireCooldown := s.fireCooldown - dt);
    var fired := f.fire && moved.fireCooldown <= 0.0;
    var shot := if fired then Some(Muzzle(moved.position, moved.altFire)) else None;
    var armed := if fired then ResetFire(moved, 0.0) else moved;
    var (position, offset) := Dissipate(armed.position, armed.offset, dt);
    FrameResult(armed.(position := position, offset := offset), shot)
  }

  /** A frame either folds the whole offset into the position (when its
      squared length is below `dt * dt`) or keeps the fraction `1 - dt` of
      it; for `0 <= dt <= 1` the offset never grows. */
  lemma UpdateDissipates(s: Ship, dt: real)
    ensures s.offset.SquareLength() < dt * dt ==> Update(s, dt).ship.offset == Zero
    ensures !(s.offset.SquareLength() < dt * dt) ==> Update(s, dt).ship.offset == s.offset.Scale(1.0 - dt)
    ensures 0.0 <= dt <= 1.0 ==> Update(s, dt).ship.offset.SquareLength() <= s.offset.SquareLength()
  {
    var o := s.offset;
    SquareLengthNonNegative(o);
    ScaleShrinks(o, 1.0 - dt);
    assert o.Minus(o.Scale(dt)) == o.Scale(1.0 - dt);
  }

  /** `n` consecutive frames of length `dt` with no message in between. */
  function Frames(s: Ship, dt: real, n: nat): Ship
    decreases n
  {
    if n == 0 then s else Frames(Update(s, dt).ship, dt, n - 1)
  }

  /** Time covered by `n` frames of length `dt`. */
  function Elapsed(dt: real, n: nat): (t: real)
    ensures t == n as real * dt
  {
    if n == 0 then 0.0 else dt + Elapsed(dt, n - 1)
  }

  /** Over any number of frames the input stays the one at the cursor, and
      `position + offset` moves exactly as that input dictates over the
      elapsed time: the offset is only ever transferred into the position,
      never lost. */
  lemma {:induction false} FramesConserve(s: Ship, dt: real, n: nat)
    ensures Frames(s, dt, n).history == s.history && Frames(s, dt, n).historyIndex == s.historyIndex
    ensures var e := Frames(s, dt, n);
      e.position.Plus(e.offset) == Move(s.position.Plus(s.offset), HeadFlags(s), Elapsed(dt, n))
    decreases n
  {
    if n > 0 {
      var s' := Update(s, dt).ship;
      var f := HeadFlags(s);
      var p := s.position.Plus(s.offset);
      FramesConserve(s', dt, n - 1);
      assert Frames(s, dt, n) == Frames(s', dt, n - 1);
      assert HeadFlags(s') == f;
      MoveAdditive(p, f, dt, Elapsed(dt, n - 1));
    }
  }

  /** A frame on a non-settled offset with `0 < dt <= 1` lowers its squared
      length by at least `dt` cubed. */
  lemma ShrinkStep(o: Vec3, dt: real)
    requires 0.0 < dt <= 1.0
    requires !(o.SquareLength() < dt * dt)
    ensures o.Scale(1.0 - dt).SquareLength() <= o.SquareLength() - dt * dt * dt
  {
    ScaleSquareLength(o, 1.0 - dt);
    ShrinkFactor(o.SquareLength(), dt);
  }

  /** The scalar core of `ShrinkStep`: with `g = d * (2 - d)`, the factor
      `(1 - d)^2` is `1 - g`, and `g * q >= g * d^2 >= d^3`. */
  lemma ShrinkFactor(q: real, d: real)
    requires 0.0 < d <= 1.0 && d * d <= q
    ensures (1.0 - d) * (1.0 - d) * q <= q - d * d * d
  {
    var g := d * (2.0 - d);
    assert (1.0 - d) * (1.0 - d) * q == q - q * g;
    MulNonNegative(d, 2.0 - d);
    MulMono(d * d, q, g);
    var c := d * d * d;
    assert d * d * g == c + c * (1.0 - d);
    MulNonNegative(d * d, d);
    MulNonNegative(c, 1.0 - d);
  }

  /** Dividing `a <= b - c` by the positive `c`. */
  lemma DivStep(a: real, b: real, c: real)
    requires c > 0.0 && a <= b - c
    ensures a / c <= b / c - 1.0
  {
    var u, w := a / c, b / c;
    assert a == u * c && b == w * c;
    var x := u - (w - 1.0);
    assert x * c == u * c - w * c + c;
    assert x * c <= 0.0;
  }

  /** Frames of a fixed length `0 < dt <= 1` bring any offset to exactly
      zero, within `q / dt^3 + 1` frames where `q` is its squared length. */
  lemma {:induction false} OffsetSettles(s: Ship, dt: real) returns (n: nat)
    requires 0.0 < dt <= 1.0
    ensures Frames(s, dt, n).offset == Zero
    ensures n <= (s.offset.SquareLength() / (dt * dt * dt)).Floor + 1
    decreases (s.offset.SquareLength() / (dt * dt * dt)).Floor
  {
    var c := dt * dt * dt;
    var q := s.offset.SquareLength();
    SquareLengthNonNegative(s.offset);
    assert c > 0.0;
    assert q / c >= 0.0;
    var s' := Update(s, dt).ship;
    UpdateDissipates(s, dt);
    if q < dt * dt {
      n := 1;
      assert Frames(s, dt, 1) == Frames(s', dt, 0);
    } else {
      ShrinkStep(s.offset, dt);
      var q' := s'.offset.SquareLength();
      DivStep(q', q, c);
      var m := OffsetSettles(s', dt);
      n := m + 1;
      assert Frames(s, dt, n) == Frames(s', dt, m);
    }
  }

  /** With frames of length `dt >= 2` the factor `1 - dt` is at most -1, so
      an offset that is not folded in on the first frame never is: its
      squared length never drops below `dt * dt` and it never reaches zero. */
  lemma {:induction false} OffsetNeverSettles(s: Ship, dt: real, n: nat)
    requires dt >= 2.0
    requires !(s.offset.SquareLength() < dt * dt)
    ensures !(Frames(s, dt, n).offset.SquareLength() < dt * dt)
    ensures Frames(s, dt, n).offset != Zero
    decreases n
  {
    if n > 0 {
      var s' := Update(s, dt).ship;
      UpdateDissipates(s, dt);
      assert s'.offset == s.offset.Scale(1.0 - dt);
      FlipStep(s.offset, dt);
      OffsetNeverSettles(s', dt, n - 1);
      assert Frames(s, dt, n) == Frames(s', dt, n - 1);
    }
    NotSettledIsNonZero(Frames(s, dt, n).offset, dt);
  }

  /** An offset whose squared length is at least `dt * dt`, for `dt >= 2`,
      is not zero. */
  lemma NotSettledIsNonZero(o: Vec3, dt: real)
    requires dt >= 2.0 && !(o.SquareLength() < dt * dt)
    ensures o != Zero
  {
    MulMono(2.0, dt, dt);
    assert o.SquareLength() > 0.0;
    ZeroSquareLength();
  }

  /** A frame of length `dt >= 2` on a non-settled offset leaves it at
      least as long. */
  lemma FlipStep(o: Vec3, dt: real)
    requires dt >= 2.0
    ensures o.SquareLength() <= o.Scale(1.0 - dt).SquareLength()
  {
    SquareLengthNonNegative(o);
    ScaleSquareLength(o, 1.0 - dt);
    GrowFactor(o.SquareLength(), dt);
  }

  /** The scalar core of `FlipStep`: `(1 - d)^2 >= 1` for `d >= 2`. */
  lemma GrowFactor(q: real, d: real)
    requires d >= 2.0 && q >= 0.0
    ensures q <= (1.0 - d) * (1.0 - d) * q
  {
    var k := (1.0 - d) * (1.0 - d);
    assert k == (d - 1.0) * (d - 1.0);
    MulMono(1.0, d - 1.0, d - 1.0);
    MulMono(1.0, k, q);
  }

  /** Two shots in adjacent frames leave from opposite muzzles (the case
      `n == 0` of `ShotsAlternateAcross`). */
  lemma ShotsAlternate(s: Ship, dt1: real, dt2: real)
    requires Update(s, dt1).shot.Some?
    requires Update(Update(s, dt1).ship, dt2).shot.Some?
    ensures var a := Update(s, dt1);
      var b := Update(a.ship, dt2);
      a.shot.value.Minus(Move(s.position, HeadFlags(s), dt1))
        == Zero.Minus(b.shot.value.Minus(Move(a.ship.position, HeadFlags(a.ship), dt2)))
  {
  }

  /** Whether none of the first `n` frames of length `dt` fires. */
  predicate QuietFrames(s: Ship, dt: real, n: nat)
    decreases n
  {
    n == 0 || (Update(s, dt).shot.None? && QuietFrames(Update(s, dt).ship, dt, n - 1))
  }

  /** Frames that do not fire leave the muzzle side as it was. */
  lemma {:induction false} QuietFramesKeepSide(s: Ship, dt: real, n: nat)
    requires QuietFrames(s, dt, n)
    ensures Frames(s, dt, n).altFire == s.altFire
    decreases n
  {
    if n > 0 {
      QuietFramesKeepSide(Update(s, dt).ship, dt, n - 1);
    }
  }

  /** A shot, any number of frames that do not fire, and the next shot: the
      two shots leave from opposite muzzles of the moved ship. */
  lemma ShotsAlternateAcross(s: Ship, dt1: real, dt: real, n: nat, dt2: real)
    requires Update(s, dt1).shot.Some?
    requires QuietFrames(Update(s, dt1).ship, dt, n)
    requires Update(Frames(Update(s, dt1).ship, dt, n), dt2).shot.Some?
    ensures var a := Update(s, dt1);
      var c := Frames(a.ship, dt, n);
      var b := Update(c, dt2);
      a.shot.value.Minus(Move(s.position, HeadFlags(s), dt1))
        == Zero.Minus(b.shot.value.Minus(Move(c.position, HeadFlags(c), dt2)))
  {
    QuietFramesKeepSide(Update(s, dt1).ship, dt, n);
  }
}
