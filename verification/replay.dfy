/** `getHistoricPosition`: where the ship was at a past moment, found by
    undoing the recorded inputs one slot at a time, newest first. */
module Replay {
  import opened Vectors
  import opened Controls
  import opened ShipState

  datatype ReplayError =
    | HistoryExhausted  // the walk's `assert(offset < HISTORYSIZE)` fails
    | IndexOutOfRange   // the walk reads a slot outside the ring

  datatype Result<T> = Success(value: T) | Failure(error: ReplayError)

  /** Translates a successful reconstruction by `d`. */
  function Translate(r: Result<Vec3>, d: Vec3): Result<Vec3> {
    match r
    case Success(v) => Success(v.Plus(d))
    case Failure(e) => Failure(e)
  }

  /** The first step at or after `k` whose sample is not newer than `time`
      (where the walk stops), or `HISTORY_SIZE` when there is none. */
  function StopIndex(v: Ring, time: real, k: nat): (m: nat)
    requires k < HISTORY_SIZE
    ensures k <= m <= HISTORY_SIZE
    ensures m < HISTORY_SIZE ==> time >= v[m].time
    ensures forall j :: k <= j < m ==> time < v[j].time
    decreases HISTORY_SIZE - k
  {
    if time >= v[k].time then k
    else if k + 1 < HISTORY_SIZE then StopIndex(v, time, k + 1)
    else HISTORY_SIZE
  }

  /** The replay loop from step `k` on, over the timeline `v` (the ring read
      backwards from the cursor) of which the first `readable` steps lie
      inside the ring: `acc` is the position reached so far and `lastTime`
      the end of the segment that step `k`'s sample drove. */
  function Walk(v: Ring, readable: nat, time: real, k: nat, acc: Vec3, lastTime: real): (r: Result<Vec3>)
    requires k < HISTORY_SIZE
    ensures readable >= HISTORY_SIZE && r.Failure? ==> r.error == HistoryExhausted
    ensures r.Success? ==> r.value.y == acc.y && r.value.z == acc.z
    decreases HISTORY_SIZE - k
  {
    if k >= readable then Failure(IndexOutOfRange)
    else
      var f := Unpack(v[k].input);
      if time < v[k].time then
        // fully revert this sample's segment, then step one slot older
        var acc' := Move(acc, f, -(lastTime - v[k].time));
        if k + 1 < HISTORY_SIZE then Walk(v, readable, time, k + 1, acc', v[k].time)
        else Failure(HistoryExhausted)
      else
        // partly revert the sample that was active at `time`
        Success(Move(acc, f, -(lastTime - time)))
  }

  /** A walk over the whole ring succeeds exactly when some step it may
      still take reaches a sample not newer than `time`. */
  lemma {:induction false} WalkSucceeds(v: Ring, time: real, k: nat, acc: Vec3, lastTime: real)
    requires k < HISTORY_SIZE
    ensures Walk(v, HISTORY_SIZE, time, k, acc, lastTime).Success? <==> StopIndex(v, time, k) < HISTORY_SIZE
    decreases HISTORY_SIZE - k
  {
    if time < v[k].time && k + 1 < HISTORY_SIZE {
      WalkSucceeds(v, time, k + 1, Move(acc, Unpack(v[k].input), -(lastTime - v[k].time)), v[k].time);
    }
  }

  /** `getHistoricPosition(time)`, walking the ring with wrapping indices.
      `now` is the clock reading the source takes inside the call. */
  function HistoricPosition(s: Ship, time: real, now: real): (r: Result<Vec3>)
    ensures r.Failure? <==> forall k :: 0 <= k < HISTORY_SIZE ==> time < TimeBack(s.history, s.historyIndex, k)
    ensures r.Failure? ==> r.error == HistoryExhausted
    ensures time >= TimeBack(s.history, s.historyIndex, 0) ==>
      r == Success(Move(s.position.Plus(s.offset), HeadFlags(s), -(now - time)))
  {
    ShipWalk(s, time, now);
    Walk(Timeline(s.history, s.historyIndex), HISTORY_SIZE, time, 0, s.position.Plus(s.offset), now)
  }

  /** Asked for the present moment, the walk undoes nothing. */
  lemma HistoricPositionNow(s: Ship, now: real)
    requires now >= TimeBack(s.history, s.historyIndex, 0)
    ensures HistoricPosition(s, now, now) == Success(s.position.Plus(s.offset))
  {
  }

  /** Reconstruction moves the ship along x only. */
  lemma HistoricPositionKeepsPlane(s: Ship, time: real, now: real)
    ensures var r := HistoricPosition(s, time, now);
      r.Success? ==> r.value.y == s.position.y + s.offset.y && r.value.z == s.position.z + s.offset.z
  {
  }

  /** `WalkFromNewest` restated for a ship's own ring and position. */
  lemma ShipWalk(s: Ship, time: real, now: real)
    ensures var w := Walk(Timeline(s.history, s.historyIndex), HISTORY_SIZE, time, 0, s.position.Plus(s.offset), now);
      && (w.Failure? <==> forall k :: 0 <= k < HISTORY_SIZE ==> time < TimeBack(s.history, s.historyIndex, k))
      && (time >= TimeBack(s.history, s.historyIndex, 0) ==>
           w == Success(Move(s.position.Plus(s.offset), HeadFlags(s), -(now - time))))
  {
    var v := Timeline(s.history, s.historyIndex);
    var p := s.position.Plus(s.offset);
    WalkFromNewest(v, time, p, now);
    NewestIsCurrent(s);
    TimeBackIsTimeline(s.history, s.historyIndex);
  }

  lemma NewestIsCurrent(s: Ship)
    ensures Timeline(s.history, s.historyIndex)[0] == s.history[s.historyIndex]
    ensures Unpack(Timeline(s.history, s.historyIndex)[0].input) == HeadFlags(s)
  {
  }

  lemma TimeBackIsTimeline(h: Ring, head: Cursor)
    ensures forall k :: 0 <= k < HISTORY_SIZE ==> TimeBack(h, head, k) == Timeline(h, head)[k].time
  {
  }

  /** The walk over the whole ring from the newest sample fails exactly when
      every sample is newer than `time`, and ends in its first step when the
      newest one is not. */
  lemma WalkFromNewest(v: Ring, time: real, acc: Vec3, now: real)
    ensures Walk(v, HISTORY_SIZE, time, 0, acc, now).Failure? <==> forall k :: 0 <= k < HISTORY_SIZE ==> time < v[k].time
    ensures time >= v[0].time ==> Walk(v, HISTORY_SIZE, time, 0, acc, now) == Success(Move(acc, Unpack(v[0].input), -(now - time)))
  {
    var m := StopIndex(v, time, 0);
    WalkSucceeds(v, time, 0, acc, now);
    if m < HISTORY_SIZE {
      assert time >= v[m].time;
    }
  }

  /** `getHistoricPosition(time)` exactly as written: the slot index is
      `(historyIndex - offset) % HISTORYSIZE` with C++'s truncating `%`
      (`SlotIndex(Truncating, ...)`), which stays inside the ring only for
      the first `historyIndex + 1` steps (`TruncatedSlotInRange`). That is
      how the truncating rule enters the walk: as its `readable` bound. With
      the cursor at the last slot every step is readable, so the walk as
      written reaches the assertion exactly where the wrapping one does. */
  function HistoricPositionAsWritten(s: Ship, time: real, now: real): (r: Result<Vec3>)
    ensures StopIndex(Timeline(s.history, s.historyIndex), time, 0) <= s.historyIndex || s.historyIndex == HISTORY_SIZE - 1 ==>
      r == HistoricPosition(s, time, now)
    ensures s.historyIndex == HISTORY_SIZE - 1 && StopIndex(Timeline(s.history, s.historyIndex), time, 0) == HISTORY_SIZE ==>
      r == Failure(HistoryExhausted)
    ensures s.historyIndex < HISTORY_SIZE - 1 && StopIndex(Timeline(s.history, s.historyIndex), time, 0) > s.historyIndex ==>
      r == Failure(IndexOutOfRange)
  {
    var v := Timeline(s.history, s.historyIndex);
    AsWrittenAgreesBeforeWrap(v, s.historyIndex + 1, time, 0, s.position.Plus(s.offset), now);
    AsWrittenLeavesRing(v, s.historyIndex + 1, time, 0, s.position.Plus(s.offset), now);
    Walk(v, s.historyIndex + 1, time, 0, s.position.Plus(s.offset), now)
  }

  /** A walk that stops within its first `readable` steps does not notice
      how many steps were readable. */
  lemma {:induction false} AsWrittenAgreesBeforeWrap(v: Ring, readable: nat, time: real, k: nat, acc: Vec3, lastTime: real)
    requires k < HISTORY_SIZE && readable <= HISTORY_SIZE
    ensures StopIndex(v, time, k) < readable ==>
      Walk(v, readable, time, k, acc, lastTime) == Walk(v, HISTORY_SIZE, time, k, acc, lastTime)
    decreases HISTORY_SIZE - k
  {
    if StopIndex(v, time, k) < readable && time < v[k].time {
      AsWrittenAgreesBeforeWrap(v, readable, time, k + 1, Move(acc, Unpack(v[k].input), -(lastTime - v[k].time)), v[k].time);
    }
  }

  /** A walk that needs more than its first `readable` steps, with
      `readable` short of the whole ring, reads outside the ring. */
  lemma {:induction false} AsWrittenLeavesRing(v: Ring, readable: nat, time: real, k: nat, acc: Vec3, lastTime: real)
    requires k < HISTORY_SIZE
    ensures readable < HISTORY_SIZE && StopIndex(v, time, k) >= readable ==>
      Walk(v, readable, time, k, acc, lastTime) == Failure(IndexOutOfRange)
    decreases HISTORY_SIZE - k
  {
    if readable < HISTORY_SIZE && StopIndex(v, time, k) >= readable && k < readable {
      assert time < v[k].time;
      AsWrittenLeavesRing(v, readable, time, k + 1, Move(acc, Unpack(v[k].input), -(lastTime - v[k].time)), v[k].time);
    }
  }

  /** A ship that has only its constructor's sample, asked for any moment
      between the sentinel timestamp and its construction: the walk as
      written steps from slot 0 to index -1 and leaves the ring, while the
      wrapping walk reaches a sentinel slot and reports the start position. */
  lemma AsWrittenReadsOutOfRange(startPos: Vec3, created: real, now: real, time: real, fireCooldown: real, altFire: bool)
    requires UNUSED_TIME <= time < created
    ensures var s := NewShip(startPos, created, fireCooldown, altFire);
      && SlotIndex(Truncating, s.historyIndex, 1) == -1
      && HistoricPositionAsWritten(s, time, now) == Failure(IndexOutOfRange)
      && HistoricPosition(s, time, now) == Success(startPos)
  {
    var s := NewShip(startPos, created, fireCooldown, altFire);
    var v := Timeline(s.history, 0);
    assert Slot(0, 1) == 9;
    assert v[0].time == created && v[1].time == UNUSED_TIME;
    assert s.position.Plus(s.offset) == startPos;
  }

  /** Re-integrates forward in time: step `m`'s input from `from` to the end
      of its segment, then each newer step's input over its own segment, up
      to step `j`, whose segment ends at `end`. */
  function Forward(v: Ring, m: nat, j: nat, r: Vec3, from: real, end: real): Vec3
    requires j <= m < HISTORY_SIZE
    decreases m - j
  {
    var f := Unpack(v[j].input);
    if m == j then Move(r, f, end - from)
    else Move(Forward(v, m, j + 1, r, from, v[j].time), f, end - v[j].time)
  }

  lemma {:induction false} WalkThenForward(v: Ring, time: real, k: nat, acc: Vec3, lastTime: real)
    requires k < HISTORY_SIZE
    requires StopIndex(v, time, k) < HISTORY_SIZE
    ensures Walk(v, HISTORY_SIZE, time, k, acc, lastTime).Success?
    ensures Forward(v, StopIndex(v, time, k), k, Walk(v, HISTORY_SIZE, time, k, acc, lastTime).value, time, lastTime) == acc
    decreases HISTORY_SIZE - k
  {
    WalkSucceeds(v, time, k, acc, lastTime);
    var f := Unpack(v[k].input);
    if time < v[k].time {
      var acc' := Move(acc, f, -(lastTime - v[k].time));
      WalkThenForward(v, time, k + 1, acc', v[k].time);
      MoveReverse(acc, f, -(lastTime - v[k].time));
    } else {
      MoveReverse(acc, f, -(lastTime - time));
    }
  }

  /** Replaying the recorded inputs forward from the reconstructed position
      at `time` up to `now` gives back `position + offset`. */
  lemma HistoricRoundTrip(s: Ship, time: real, now: real)
    requires HistoricPosition(s, time, now).Success?
    ensures var v := Timeline(s.history, s.historyIndex);
      Forward(v, StopIndex(v, time, 0), 0, HistoricPosition(s, time, now).value, time, now) == s.position.Plus(s.offset)
  {
    WalkThenForward(Timeline(s.history, s.historyIndex), time, 0, s.position.Plus(s.offset), now);
  }

  /** Starting the walk from a translated point translates its result. */
  lemma {:induction false} WalkTranslates(v: Ring, readable: nat, time: real, k: nat, acc: Vec3, d: Vec3, lastTime: real)
    requires k < HISTORY_SIZE
    ensures Walk(v, readable, time, k, acc.Plus(d), lastTime) == Translate(Walk(v, readable, time, k, acc, lastTime), d)
    decreases HISTORY_SIZE - k
  {
    if k < readable {
      var f := Unpack(v[k].input);
      if time < v[k].time {
        var t := -(lastTime - v[k].time);
        MoveTranslates(acc, d, f, t);
        if k + 1 < HISTORY_SIZE {
          WalkTranslates(v, readable, time, k + 1, Move(acc, f, t), d, v[k].time);
        }
      } else {
        MoveTranslates(acc, d, f, -(lastTime - time));
      }
    }
  }

  /** Moving the anchor of a step from `lastTime` to `lastTime'` while
      undoing that step's input over the gap leaves the walk unchanged. */
  lemma WalkReanchor(v: Ring, time: real, k: nat, acc: Vec3, lastTime: real, lastTime': real)
    requires k < HISTORY_SIZE
    ensures var f := Unpack(v[k].input);
      Walk(v, HISTORY_SIZE, time, k, Move(acc, f, -(lastTime - lastTime')), lastTime')
        == Walk(v, HISTORY_SIZE, time, k, acc, lastTime)
  {
    var f := Unpack(v[k].input);
    if time < v[k].time {
      MoveAdditive(acc, f, -(lastTime - lastTime'), -(lastTime' - v[k].time));
    } else {
      MoveAdditive(acc, f, -(lastTime - lastTime'), -(lastTime' - time));
    }
  }
}
