/** The ship's state record and its ten-slot input history ring. */
module ShipState {
  import opened Vectors
  import opened Controls

  const HISTORY_SIZE: nat := 10

  /** One recorded input: the control word that became active at `time`. */
  datatype History = History(time: real, input: Word)

  /** Timestamp the constructor gives the slots that hold no input yet. */
  const UNUSED_TIME: real := -1.0

  type Ring = h: seq<History> | |h| == HISTORY_SIZE
    witness seq(HISTORY_SIZE, _ => History(UNUSED_TIME, 0))

  type Cursor = i: int | 0 <= i < HISTORY_SIZE

  /** `historyIndex` points at the slot holding the currently active input. */
  datatype Ship = Ship(
    position: Vec3,
    offset: Vec3,
    history: Ring,
    historyIndex: Cursor,
    fireCooldown: real,
    altFire: bool)

  /** The constructor's state. The start values of `fireCooldown` and
      `altFire` are given by member declarations in Ship.h, which is not part
      of this model, so they are parameters; `offset` starts as the zero
      vector and the unused slots are taken to hold the input 0. */
  function NewShip(startPos: Vec3, now: real, fireCooldown: real, altFire: bool): (s: Ship)
    ensures s.position == startPos && s.offset == Zero
    ensures s.historyIndex == 0 && s.history[0] == History(now, 0)
    ensures forall i :: 1 <= i < HISTORY_SIZE ==> s.history[i].time == UNUSED_TIME
    ensures s.fireCooldown == fireCooldown && s.altFire == altFire
  {
    var ring := seq(HISTORY_SIZE, i => if i == 0 then History(now, 0) else History(UNUSED_TIME, 0));
    Ship(startPos, Zero, ring, 0, fireCooldown, altFire)
  }

  /** `getCurrentInput`: the input of the newest sample, the one the
      backward walk starts from. */
  function CurrentInput(s: Ship): (input: Word)
    ensures input == Timeline(s.history, s.historyIndex)[0].input
  {
    s.history[s.historyIndex].input
  }

  /** Flags of the currently active input. */
  function HeadFlags(s: Ship): Flags {
    Unpack(CurrentInput(s))
  }

  /** How a backward step from the cursor is turned into a slot index. */
  datatype IndexRule =
    | Truncating  // C++ `%`: the remainder takes the sign of the dividend
    | Wrapped     // Euclidean remainder: always a valid slot

  /** C++ `a % HISTORY_SIZE` on an `int`: the quotient truncates towards
      zero, so a negative dividend leaves a non-positive remainder. */
  function TruncatedRemainder(a: int): (r: int)
    ensures -(HISTORY_SIZE as int) < r < HISTORY_SIZE
    ensures (a - r) % HISTORY_SIZE == 0
    ensures a >= 0 ==> r >= 0
    ensures a < 0 ==> r <= 0
  {
    if a >= 0 then a % HISTORY_SIZE else -((-a) % HISTORY_SIZE)
  }

  /** The slot `back` steps older than `head`, under `rule`. */
  function SlotIndex(rule: IndexRule, head: Cursor, back: nat): int {
    match rule
    case Truncating => TruncatedRemainder(head - back)
    case Wrapped => Slot(head, back)
  }

  /** The ring slot `back` steps older than `head`, wrapping past slot 0. */
  function Slot(head: Cursor, back: nat): Cursor {
    (head - back) % HISTORY_SIZE
  }

  /** The ring read backwards from the cursor: element `k` is the sample
      recorded `k` steps before the current one. */
  function Timeline(h: Ring, head: Cursor): (v: Ring)
    ensures forall k :: 0 <= k < HISTORY_SIZE ==> v[k] == h[Slot(head, k)]
  {
    seq(HISTORY_SIZE, k requires 0 <= k => h[Slot(head, k)])
  }

  /** Under C++'s `%`, step `back` of a walk from `head` reads inside the
      ring exactly when it does not pass slot 0, and then reads the same slot
      as the wrapping walk. */
  lemma TruncatedSlotInRange(head: Cursor, back: nat)
    requires back < HISTORY_SIZE
    ensures 0 <= SlotIndex(Truncating, head, back) < HISTORY_SIZE <==> back <= head
    ensures back <= head ==> SlotIndex(Truncating, head, back) == Slot(head, back)
  {
  }

  /** The timestamp recorded `back` steps older than the cursor. */
  function TimeBack(h: Ring, head: Cursor, back: nat): real
    requires back < HISTORY_SIZE
  {
    Timeline(h, head)[back].time
  }

  /** Timestamps never increase while walking back from the cursor. */
  predicate Ordered(h: Ring, head: Cursor) {
    forall k :: 0 < k < HISTORY_SIZE ==> TimeBack(h, head, k) <= TimeBack(h, head, k - 1)
  }

  /** Distinct steps of one walk visit distinct slots. */
  lemma SlotInjective(head: Cursor, a: nat, b: nat)
    requires a < HISTORY_SIZE && b < HISTORY_SIZE && a != b
    ensures Slot(head, a) != Slot(head, b)
  {
  }

  /** After the cursor advances, step `k` from the new cursor is step `k - 1`
      from the old one. */
  lemma SlotAdvance(head: Cursor, k: nat)
    requires 0 < k
    ensures Slot((head + 1) % HISTORY_SIZE, k) == Slot(head, k - 1)
  {
  }

  /** A freshly built ring is ordered exactly when it was built no earlier
      than the sentinel timestamp. */
  lemma NewShipOrdered(startPos: Vec3, now: real, fireCooldown: real, altFire: bool)
    ensures var s := NewShip(startPos, now, fireCooldown, altFire);
      Ordered(s.history, s.historyIndex) <==> now >= UNUSED_TIME
  {
    var s := NewShip(startPos, now, fireCooldown, altFire);
    assert Slot(0, 1) == 9;
    assert TimeBack(s.history, 0, 0) == now;
    assert TimeBack(s.history, 0, 1) == UNUSED_TIME;
    if now >= UNUSED_TIME {
      forall k | 0 < k < HISTORY_SIZE
        ensures TimeBack(s.history, 0, k) <= TimeBack(s.history, 0, k - 1)
      {
        assert Slot(0, k) == 10 - k;
      }
    }
  }
}
