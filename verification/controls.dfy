/** The three-flag control word and the movement rule it drives. */
module Controls {
  import opened Vectors

  /** Strafe speed in units per second. The definitions below spell it as
      the literal `300.0` so that every product with a time stays linear;
      `SpeedRule` ties them to this constant. */
  const SPEED: real := 300.0

  datatype Flags = Flags(fire: bool, left: bool, right: bool)

  /** The C++ `int` control word, as its 32-bit two's-complement pattern. */
  type Word = bv32

  /** `unpackInput`: fire is bit 2 (value 4), left bit 1 (value 2), right
      bit 0 (value 1); each flag is set when its bit is. */
  function Unpack(input: Word): (f: Flags)
    ensures Pack(f) == input & 7
  {
    Flags(input & 4 != 0, input & 2 != 0, input & 1 != 0)
  }

  /** The encoder the sender uses: one bit per flag, as `Unpack` reads them. */
  function Pack(f: Flags): Word {
    (if f.fire then 4 else 0) | (if f.left then 2 else 0) | (if f.right then 1 else 0)
  }

  /** Packing three flags and unpacking them gives them back. */
  lemma PackUnpack(f: Flags)
    ensures Unpack(Pack(f)) == f
  {
  }

  /** Two control words decode alike exactly when their three low bits agree. */
  lemma UnpackReadsLowBits(a: Word, b: Word)
    ensures Unpack(a) == Unpack(b) <==> a & 7 == b & 7
  {
    if a & 7 == b & 7 {
      PackUnpack(Unpack(a));
      PackUnpack(Unpack(b));
    }
  }

  /** Signed x velocity: right adds `SPEED`, left subtracts it. */
  function Velocity(f: Flags): real {
    (if f.right then 300.0 else 0.0) - (if f.left then 300.0 else 0.0)
  }

  /** Left alone moves at `-SPEED`, right alone at `+SPEED`; both or
      neither cancel. */
  lemma SpeedRule(f: Flags)
    ensures f.left && !f.right ==> Velocity(f) == -SPEED
    ensures f.right && !f.left ==> Velocity(f) == SPEED
    ensures f.left == f.right ==> Velocity(f) == 0.0
  {
  }

  /** `updatePosition`: first the left step, then the right step. */
  function Move(p: Vec3, f: Flags, t: real): (r: Vec3)
    ensures r == Vec3(p.x + t * Velocity(f), p.y, p.z)
    ensures f.left == f.right ==> r == p
  {
    var afterLeft := if f.left then p.Minus(Vec3(t * 300.0, 0.0, 0.0)) else p;
    if f.right then afterLeft.Plus(Vec3(t * 300.0, 0.0, 0.0)) else afterLeft
  }

  /** Moving for `a` and then for `b` under the same flags is moving for `a + b`. */
  lemma MoveAdditive(p: Vec3, f: Flags, a: real, b: real)
    ensures Move(Move(p, f, a), f, b) == Move(p, f, a + b)
  {
  }

  /** Moving for `t` and then for `-t` restores the position. */
  lemma MoveReverse(p: Vec3, f: Flags, t: real)
    ensures Move(Move(p, f, t), f, -t) == p
  {
    MoveAdditive(p, f, t, -t);
  }

  /** Movement commutes with translating the start point. */
  lemma MoveTranslates(p: Vec3, d: Vec3, f: Flags, t: real)
    ensures Move(p.Plus(d), f, t) == Move(p, f, t).Plus(d)
  {
  }
}
