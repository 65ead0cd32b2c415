# Ship reconciliation core, modelled in Dafny

This project models the gameplay logic of the multiplayer ship in
`Sources/Gameplay/Ship.cpp`. Rendering is not part of the model. Each ship
keeps a live `position` and an `offset` that is still waiting to be applied.
It also keeps a ten-slot ring of `(time, input)` samples with a cursor
`historyIndex` on the active input. The input is a control word with three
flags: fire, left and right. Network messages arrive late:

- `applyInput` rewrites the recent past with a remote input. It rolls the
  ship back, records the sample and replays the elapsed time.
- `applyPosition` compares an authoritative position with the ship's own
  reconstruction of that moment (`getHistoricPosition`). It stores the gap
  as the offset, except inside a 0.5 s grace window after the last input
  change.
- Every frame, `update` moves the ship under the active input. It counts the
  fire cooldown down, fires from alternating muzzles, and moves the pending
  offset into the position.

The state is an immutable `Ship` record. The ring is a length-10 sequence and
the cursor is an integer in 0..9. Vectors have `real` components. Every
operation is a pure function. The clock (`System::time()`) becomes a
parameter `now`.

Modules, one per file:

- `Vectors` (`vectors.dfy`): the vector record and its arithmetic.
- `Controls` (`controls.dfy`): decoding the control word and the movement rule.
- `ShipState` (`ship_state.dfy`): the record, the constructor and ring indexing.
- `Replay` (`replay.dfy`): the backward walk.
- `Reconcile` (`reconcile.dfy`): `applyInput` and `applyPosition`.
- `Frame` (`frame.dfy`): `update` and `resetFire`.

**Behaviour the model takes from the code:**

- **Grace window.** The window is measured from the query time, `time - history[head].time`, and not from the clock.
- **Exhausted history.** The wrapping walk stops where the code's `assert(offset < HISTORYSIZE)` would fail: every recorded sample is newer than the query. It does not fall back to the oldest sample, and the model reports this case as `HistoryExhausted`. The code as written reaches that assert only with `historyIndex == 9`; with any other cursor it leaves the ring first (see the ring index below).
- **Muzzle side.** With `altFire` set the shot leaves from `position + POS_OFFSET`, otherwise from `position - POS_OFFSET`.
- **Late input.** Holding left for a second from the origin reaches x = -300. Learning that the last half second was "right" then gives x = 0: half a second of left is undone and half a second of right is replayed (`Reconcile.ApplyInputScenario`).

**One departure from the code: the ring index.** `getHistoricPosition` computes its slot with C++'s truncating `%`. A walk that passes slot 0 gets a negative index and reads outside the array. `Replay.HistoricPositionAsWritten` models that walk exactly. `Replay.HistoricPosition` wraps the index instead, and the rest of the model uses it, including `applyPosition` (see "## Findings").

## Model

| member | source | states |
|---|---|---|
| Controls.PackUnpack | Sources/Gameplay/Ship.cpp:20-24 | fire is the bit of value 4, left the bit of value 2 and right the bit of value 1: packing three flags into those bits and decoding gives the same flags back |
| Controls.Unpack | Sources/Gameplay/Ship.cpp:20-24 | `unpackInput`: re-encoding the decoded flags gives back exactly the word's three low bits; with `Controls.PackUnpack` and `Controls.UnpackReadsLowBits` this fixes fire at value 4, left at 2 and right at 1 |
| Controls.UnpackReadsLowBits | Sources/Gameplay/Ship.cpp:20-24 | two control words decode to the same flags if and only if their three low bits agree, so no other bit is read |
| Controls.SpeedRule | Sources/Gameplay/Ship.cpp:26-29 | left alone moves at -SPEED, right alone at +SPEED, and both or neither cancel to 0 |
| Controls.Move | Sources/Gameplay/Ship.cpp:26-29 | `updatePosition` changes only x, by the time multiplied by the signed velocity; with both or neither direction held the position is unchanged |
| Controls.MoveReverse | Sources/Gameplay/Ship.cpp:26-29 | moving for t and then for -t under the same flags restores the position |
| Controls.MoveAdditive | Sources/Gameplay/Ship.cpp:26-29 | moving for a and then for b is moving for a + b |
| Controls.MoveTranslates | Sources/Gameplay/Ship.cpp:26-29 | movement commutes with translating the starting point |
| ShipState.NewShip | Sources/Gameplay/Ship.cpp:32-44 | the constructor puts the ship at its start position with the cursor at slot 0 (the offset starts at zero, as assumed under "## Left out"); that slot holds input 0 stamped with the creation time and every other slot has time -1 |
| ShipState.NewShipOrdered | Sources/Gameplay/Ship.cpp:38-44 | a new ring has timestamps that never increase walking back from the cursor if and only if the creation time is at least the sentinel -1 |
| ShipState.TruncatedRemainder | Sources/Gameplay/Ship.cpp:66 | C++ `%` by 10 gives a remainder in (-10, 10) that is congruent to the dividend and has its sign |
| ShipState.TruncatedSlotInRange | Sources/Gameplay/Ship.cpp:66 | the index `(historyIndex - offset) % HISTORYSIZE` lies inside the ring if and only if `offset <= historyIndex`, and then it is the wrapped slot |
| ShipState.SlotInjective | Sources/Gameplay/Ship.cpp:66 | distinct steps of one walk read distinct slots |
| ShipState.CurrentInput | Sources/Gameplay/Ship.cpp:77-79 | `getCurrentInput` returns the input of the newest sample, the step the backward walk starts from |
| Replay.StopIndex | Sources/Gameplay/Ship.cpp:60-69 | the loop stops at the first step whose sample is not newer than the query time; every earlier step is newer |
| Replay.WalkSucceeds | Sources/Gameplay/Ship.cpp:60-69 | a walk over the whole ring succeeds if and only if it reaches a sample not newer than the query time within ten steps |
| Replay.HistoricPosition | Sources/Gameplay/Ship.cpp:52-75 | the reconstruction fails if and only if every recorded sample is newer than the query time, which is the assertion's case (`HistoryExhausted`); when the query is not older than the newest sample, the result is `position + offset` moved back by `now - time` under the active input |
| Replay.HistoricPositionNow | Sources/Gameplay/Ship.cpp:52-75 | asked for the present moment, when the newest sample is not later than `now`, the reconstruction is `position + offset` exactly (a newest sample stamped later than the clock, which `applyInput` can store, is reverted first) |
| Replay.HistoricPositionKeepsPlane | Sources/Gameplay/Ship.cpp:52-75 | the reconstruction differs from `position + offset` only in x |
| Replay.HistoricRoundTrip | Sources/Gameplay/Ship.cpp:52-75 | replaying the recorded inputs forward from the reconstructed position, from the query time to `now`, gives back `position + offset` |
| Replay.HistoricPositionAsWritten | Sources/Gameplay/Ship.cpp:52-75 | the walk with C++'s `%` agrees with the wrapping walk whenever it stops within the first `historyIndex + 1` steps, and always when `historyIndex == 9`; there, with every sample newer than the query, it reaches the assertion (`HistoryExhausted`); when it needs more steps and `historyIndex < 9`, it reads outside the ring (`IndexOutOfRange`) |
| Replay.AsWrittenReadsOutOfRange | Sources/Gameplay/Ship.cpp:56-68 | for a new ship asked about a moment between -1 and its creation time, the walk as written reads index -1 and leaves the ring, while the wrapping walk returns the start position |
| Reconcile.ApplyInput | Sources/Gameplay/Ship.cpp:81-101 | a repeated input leaves the ship unchanged; otherwise the cursor advances by one modulo 10, that slot becomes `(time, input)`, every other slot and the offset, cooldown and muzzle side are kept, and `getCurrentInput` then returns the new input |
| Reconcile.ApplyInputDisplacement | Sources/Gameplay/Ship.cpp:86-100 | the live position moves only along x, by `(now - time)` times the new velocity minus the old one; a repeated input does not move it |
| Reconcile.ApplyInputIdempotent | Sources/Gameplay/Ship.cpp:82-83 | delivering the same input a second time, at any time, changes nothing |
| Reconcile.ApplyInputKeepsOrder | Sources/Gameplay/Ship.cpp:94-96 | on an ordered ring, a new input keeps the timestamps ordered if and only if it is not older than the current one |
| Reconcile.ApplyInputKeepsPast | Sources/Gameplay/Ship.cpp:81-101 | after reconciling an input at `time`, every reconstructed position at or before `time` is unchanged, provided the old walk did not stop at the slot the new sample overwrites; a walk that exhausted the old history exhausts the new one too |
| Reconcile.ApplyInputScenario | Sources/Gameplay/Ship.cpp:81-101 | from x = -300 with left held, learning that the last half second was right moves the ship to x = 0 |
| Reconcile.ApplyPosition | Sources/Gameplay/Ship.cpp:103-113 | inside the grace window `0 < time - head time < 0.5` nothing changes; otherwise the correction succeeds if and only if the reconstruction does, only the offset changes, and it becomes `remote` minus the reconstructed position; at the present moment that is `remote - (position + offset)` |
| Reconcile.ApplyPositionReconstructs | Sources/Gameplay/Ship.cpp:110-111 | after a correction the ship reconstructs the remote position minus the offset that was pending before it, so it matches the remote position exactly when no offset was pending |
| Frame.ResetFire | Sources/Gameplay/Ship.cpp:115-118 | the cooldown becomes FIRERATE plus the given time, the muzzle side flips, and nothing else changes |
| Frame.Update | Sources/Gameplay/Ship.cpp:120-147 | the ring is untouched; a shot happens if and only if fire is held and the lowered cooldown is at most 0; a shot leaves from `position + POS_OFFSET` or `position - POS_OFFSET` by muzzle side and resets the cooldown to FIRERATE, otherwise the cooldown just drops by the frame time; `position + offset` moves exactly as the input dictates |
| Frame.Dissipate | Sources/Gameplay/Ship.cpp:140-147 | moving offset into position keeps their sum |
| Frame.UpdateDissipates | Sources/Gameplay/Ship.cpp:140-147 | an offset with squared length below `dt * dt` is folded in whole and becomes zero, any other is scaled by `1 - dt`; for `0 <= dt <= 1` it never grows |
| Frame.FramesConserve | Sources/Gameplay/Ship.cpp:120-147 | over any number of frames the ring is kept and `position + offset` moves exactly as the active input dictates over the elapsed time |
| Frame.OffsetSettles | Sources/Gameplay/Ship.cpp:140-147 | with a fixed frame time in (0, 1], any offset reaches exactly zero within `q / dt^3 + 1` frames, where q is its squared length |
| Frame.OffsetNeverSettles | Sources/Gameplay/Ship.cpp:140-147 | with a fixed frame time of 2 or more, an offset that is not folded in on the first frame never is: its squared length stays at least `dt * dt` and it never reaches zero |
| Frame.ShotsAlternate | Sources/Gameplay/Ship.cpp:128-134 | shots in two adjacent frames leave from opposite sides of the ship |
| Frame.QuietFramesKeepSide | Sources/Gameplay/Ship.cpp:124-134 | frames that do not fire leave the muzzle side unchanged |
| Frame.ShotsAlternateAcross | Sources/Gameplay/Ship.cpp:124-134 | a shot and the next shot, with any number of frames that do not fire in between, leave from opposite sides of the ship |

## Left out

- Rendering: the render object, its visibility and its transform are engine calls with floating-point trigonometry.
- The clock: `System::time()` is the parameter `now`.
- Allocation: `new[]` and `delete[]` of the ring. The ring is a value.
- Projectiles: `Rockets.h` and what the caller does with the fire position. Only the position is computed.
- Concurrency: calls on one ship are assumed to be serialized.
- Ship.h is not part of this model. `fireCooldown` and `altFire` start with whatever it declares, so `ShipState.NewShip` takes them as parameters. The constructor does not assign `offset`; the model assumes it starts as the zero vector, from Ship.h or `vec3`'s default constructor. The constructor does not set the input of the unused slots either; the model takes it to be 0.
- Controls.Unpack: models the C++ `int` control word as its 32-bit two's-complement bit pattern (`bv32`). Only the bitwise `&` is applied to it.
- Controls.Move: works over exact reals. No claim is made about single- or double-precision rounding.
- Frame.Update: works over exact reals. The `(float)deltaTime` casts and rounding in the vector arithmetic are not modelled.
- Replay.HistoricPosition: where the source's `assert` would abort, the model returns `Failure(HistoryExhausted)`. It does not clamp to the oldest sample, because the code does not do that.
- Replay.HistoricPosition: wraps the slot index past slot 0 instead of using line 66's truncating `%`, which reads outside the array (see "## Findings"). `Replay.HistoricPositionAsWritten` is the walk as written.
- Reconcile.ApplyPosition: is built on the wrapping walk of `Replay.HistoricPosition`, so where the code would read outside the ring it computes an offset from a wrapped slot. One such case is `historyIndex == 2` with a query older than the three newest samples. `ApplyPositionReconstructs`, `ApplyInputKeepsPast` and `HistoricRoundTrip` are likewise stated for the wrapping walk.
- Reconcile.ApplyInputKeepsPast: requires that the old walk does not stop at the oldest slot, since the new sample overwrites that slot. It also requires that at `time` itself the new input is not older than the current one.
- Frame.OffsetSettles: only covers frame times in (0, 1]. For 1 < dt < 2 the factor `1 - dt` lies in (-1, 0), so the offset still shrinks while flipping sign; that case is not proved. For dt >= 2 the offset never settles (`Frame.OffsetNeverSettles`).

## Findings

| source | as written | input that shows it | evidently intended | confidence | as-written member | corrected member |
|---|---|---|---|---|---|---|
| Sources/Gameplay/Ship.cpp:66 | `pos = (historyIndex - offset) % HISTORYSIZE` uses C++'s truncating `%`. Once the walk passes slot 0 the index is negative, so `history[-1]` is read outside the array. | A ship just built at time c, with `historyIndex` 0, asked for any moment in [-1, c). The first step gives `(0 - 1) % 10 = -1`. | The walk wraps to slot 9 and the following slots. For that input it then reaches a sentinel sample and returns the start position. | high, not executed | Replay.AsWrittenReadsOutOfRange | Replay.HistoricPosition |
