/** Late-arriving network messages: a remote input effective at a past
    moment (`applyInput`) and an authoritative position for a past moment
    (`applyPosition`). */
module Reconcile {
  import opened Vectors
  import opened Controls
  import opened ShipState
  import opened Replay

  /** Seconds after the newest recorded input during which remote position
      corrections are ignored. */
  const GRACE: real := 0.5

  /** `applyInput(time, input)`: roll the live position back over the time
      since `time` under the current input, record the new input as the
      newest sample, and move forward again under it. */
  function ApplyInput(s: Ship, time: real, input: Word, now: real): (r: Ship)
    ensures input == CurrentInput(s) ==> r == s
    ensures input != CurrentInput(s) ==>
      && r.historyIndex == (s.historyIndex + 1) % HISTORY_SIZE
      && r.history[r.historyIndex] == History(time, input)
      && (forall i :: 0 <= i < HISTORY_SIZE && i != r.historyIndex ==> r.history[i] == s.history[i])
      && r.offset == s.offset && r.fireCooldown == s.fireCooldown && r.altFire == s.altFire
    ensures CurrentInput(r) == input
  {
    if input == CurrentInput(s) then s
    else
      var elapsed := now - time;
      var rolledBack := Move(s.position, HeadFlags(s), -elapsed);
      var head: Cursor := (s.historyIndex + 1) % HISTORY_SIZE;
      var ring := s.history[head := History(time, input)];
      s.(position := Move(rolledBack, Unpack(input), elapsed), history := ring, historyIndex := head)
  }

  /** The live position moves along x by the time since `time` multiplied
      by the change of velocity; only a changed input moves it. */
  lemma ApplyInputDisplacement(s: Ship, time: real, input: Word, now: real)
    ensures var r := ApplyInput(s, time, input, now);
      var change := if input == CurrentInput(s) then 0.0 else Velocity(Unpack(input)) - Velocity(HeadFlags(s));
      r.position == Vec3(s.position.x + (now - time) * change, s.position.y, s.position.z)
  {
  }

  /** Delivering the same input again changes nothing. */
  lemma ApplyInputIdempotent(s: Ship, time: real, input: Word, now: real, time': real, now': real)
    ensures var r := ApplyInput(s, time, input, now);
      ApplyInput(r, time', input, now') == r
  {
  }

  /** A ring whose timestamps never increase walking back stays so after a
      new input exactly when that input is not older than the current one. */
  lemma ApplyInputKeepsOrder(s: Ship, time: real, input: Word, now: real)
    requires Ordered(s.history, s.historyIndex)
    requires input != CurrentInput(s)
    ensures var r := ApplyInput(s, time, input, now);
      Ordered(r.history, r.historyIndex) <==> time >= TimeBack(s.history, s.historyIndex, 0)
  {
    var r := ApplyInput(s, time, input, now);
    var h, head := s.history, s.historyIndex;
    assert Slot(r.historyIndex, 0) == r.historyIndex;
    assert TimeBack(r.history, r.historyIndex, 0) == time;
    forall k | 0 < k < HISTORY_SIZE
      ensures TimeBack(r.history, r.historyIndex, k) == TimeBack(h, head, k - 1)
    {
      SlotAdvance(head, k);
      SlotInjective(head, k - 1, HISTORY_SIZE - 1);
      SlotAdvance(head, HISTORY_SIZE);
    }
    if time >= TimeBack(h, head, 0) {
      forall k | 0 < k < HISTORY_SIZE
        ensures TimeBack(r.history, r.historyIndex, k) <= TimeBack(r.history, r.historyIndex, k - 1)
      {
        if k > 1 {
          assert TimeBack(h, head, k - 1) <= TimeBack(h, head, k - 2);
        }
      }
    } else {
      assert TimeBack(r.history, r.historyIndex, 1) > TimeBack(r.history, r.historyIndex, 0);
    }
  }

  /** After the cursor advances and the new slot is written, step `k + 1`
      of the new timeline is step `k` of the old one. */
  lemma TimelineAdvance(h: Ring, head: Cursor, sample: History)
    ensures var head' := (head + 1) % HISTORY_SIZE;
      var v' := Timeline(h[head' := sample], head');
      && v'[0] == sample
      && forall k :: 0 < k < HISTORY_SIZE ==> v'[k] == Timeline(h, head)[k - 1]
  {
    var head': Cursor := (head + 1) % HISTORY_SIZE;
    var v' := Timeline(h[head' := sample], head');
    forall k | 0 < k < HISTORY_SIZE
      ensures v'[k] == Timeline(h, head)[k - 1]
    {
      SlotAdvance(head, k);
      SlotInjective(head, k - 1, HISTORY_SIZE - 1);
      SlotAdvance(head, HISTORY_SIZE);
    }
  }

  /** On a timeline shifted by one step, the walk from step `k + 1` equals
      the old walk from step `k`, provided the old walk stops before its
      last step (the one the shift pushes out). */
  lemma {:induction false} WalkShift(v: Ring, v': Ring, t: real, k: nat, acc: Vec3, lastTime: real)
    requires forall j :: 0 < j < HISTORY_SIZE ==> v'[j] == v[j - 1]
    requires k < HISTORY_SIZE - 1
    requires StopIndex(v, t, k) < HISTORY_SIZE - 1
    ensures Walk(v', HISTORY_SIZE, t, k + 1, acc, lastTime) == Walk(v, HISTORY_SIZE, t, k, acc, lastTime)
    decreases HISTORY_SIZE - k
  {
    assert v'[k + 1] == v[k];
    if t < v[k].time {
      WalkShift(v, v', t, k + 1, Move(acc, Unpack(v[k].input), -(lastTime - v[k].time)), v[k].time);
    }
  }

  /** Reconciling an input effective at `time` leaves every reconstructed
      position at or before `time` as it was: only the segment after `time`
      is rewritten. The old walk must not need the slot the new sample
      overwrites, and at `time` itself the new input must not be older than
      the current one. */
  lemma ApplyInputKeepsPast(s: Ship, time: real, input: Word, now: real, t: real)
    requires t <= time
    requires t == time ==> time >= TimeBack(s.history, s.historyIndex, 0)
    requires StopIndex(Timeline(s.history, s.historyIndex), t, 0) != HISTORY_SIZE - 1
    ensures HistoricPosition(ApplyInput(s, time, input, now), t, now) == HistoricPosition(s, t, now)
  {
    if input != CurrentInput(s) {
      var r := ApplyInput(s, time, input, now);
      ApplyInputAdvances(s, time, input, now);
      if StopIndex(Timeline(s.history, s.historyIndex), t, 0) == HISTORY_SIZE {
        KeepsPastExhausted(s, r, t, time, now);
      } else {
        WalkAfterAdvance(Timeline(s.history, s.historyIndex), Timeline(r.history, r.historyIndex),
                         t, time, input, s.position.Plus(s.offset), r.position.Plus(r.offset), now);
      }
    }
  }

  /** When every old sample is newer than `t`, so is every sample of the
      advanced ring, and both reconstructions report the exhausted history. */
  lemma KeepsPastExhausted(s: Ship, r: Ship, t: real, time: real, now: real)
    requires t <= time
    requires t == time ==> time >= TimeBack(s.history, s.historyIndex, 0)
    requires StopIndex(Timeline(s.history, s.historyIndex), t, 0) == HISTORY_SIZE
    requires var v, v' := Timeline(s.history, s.historyIndex), Timeline(r.history, r.historyIndex);
      v'[0].time == time && forall k :: 0 < k < HISTORY_SIZE ==> v'[k] == v[k - 1]
    ensures HistoricPosition(r, t, now) == HistoricPosition(s, t, now) == Failure(HistoryExhausted)
  {
    var v, v' := Timeline(s.history, s.historyIndex), Timeline(r.history, r.historyIndex);
    TimeBackIsTimeline(s.history, s.historyIndex);
    TimeBackIsTimeline(r.history, r.historyIndex);
    assert t < v[0].time;
    assert forall k :: 0 <= k < HISTORY_SIZE ==> t < v'[k].time by {
      forall k | 0 <= k < HISTORY_SIZE
        ensures t < v'[k].time
      {
        if k > 0 {
          assert v'[k] == v[k - 1];
        }
      }
    }
  }

  /** A changed input shifts the timeline by one step with the new sample in
      front, and rolling the new live position back to `time` under the new
      input lands where rolling the old one back under the old input did. */
  lemma ApplyInputAdvances(s: Ship, time: real, input: Word, now: real)
    requires input != CurrentInput(s)
    ensures var r := ApplyInput(s, time, input, now);
      var v, v' := Timeline(s.history, s.historyIndex), Timeline(r.history, r.historyIndex);
      && v'[0] == History(time, input)
      && (forall k :: 0 < k < HISTORY_SIZE ==> v'[k] == v[k - 1])
      && Move(r.position.Plus(r.offset), Unpack(input), -(now - time))
           == Move(s.position.Plus(s.offset), Unpack(v[0].input), -(now - time))
  {
    var r := ApplyInput(s, time, input, now);
    var e := now - time;
    var back := Move(s.position, HeadFlags(s), -e);
    assert r.position == Move(back, Unpack(input), e);
    MoveTranslates(r.position, s.offset, Unpack(input), -e);
    MoveReverse(back, Unpack(input), e);
    MoveTranslates(s.position, s.offset, HeadFlags(s), -e);
    TimelineAdvance(s.history, s.historyIndex, History(time, input));
    assert Timeline(s.history, s.historyIndex)[0] == s.history[s.historyIndex];
  }

  /** The walk over a timeline advanced by a sample at `time` agrees with the
      walk over the old timeline for every moment up to `time`, when both
      start from positions that coincide once rolled back to `time`. */
  lemma WalkAfterAdvance(v: Ring, v': Ring, t: real, time: real, input: Word, p: Vec3, p': Vec3, now: real)
    requires v'[0] == History(time, input)
    requires forall k :: 0 < k < HISTORY_SIZE ==> v'[k] == v[k - 1]
    requires Move(p', Unpack(input), -(now - time)) == Move(p, Unpack(v[0].input), -(now - time))
    requires t <= time
    requires t == time ==> time >= v[0].time
    requires StopIndex(v, t, 0) < HISTORY_SIZE - 1
    ensures Walk(v', HISTORY_SIZE, t, 0, p', now) == Walk(v, HISTORY_SIZE, t, 0, p, now)
  {
    if t < time {
      WalkBeforeAdvance(v, v', t, time, Unpack(input), p, p', now);
    } else {
      WalkStopsFirst(v', t, p', now);
      WalkStopsFirst(v, t, p, now);
    }
  }

  /** The case of `WalkAfterAdvance` for a moment strictly before the new
      sample: the new walk takes the new step in full and continues as the
      old walk re-anchored at `time`. */
  lemma WalkBeforeAdvance(v: Ring, v': Ring, t: real, time: real, f: Flags, p: Vec3, p': Vec3, now: real)
    requires v'[0].time == time && Unpack(v'[0].input) == f
    requires forall k :: 0 < k < HISTORY_SIZE ==> v'[k] == v[k - 1]
    requires Move(p', f, -(now - time)) == Move(p, Unpack(v[0].input), -(now - time))
    requires t < time
    requires StopIndex(v, t, 0) < HISTORY_SIZE - 1
    ensures Walk(v', HISTORY_SIZE, t, 0, p', now) == Walk(v, HISTORY_SIZE, t, 0, p, now)
  {
    WalkFirstThenShift(v, v', t, p', now);
    WalkReanchor(v, t, 0, p, now, time);
  }

  /** Taking the new first step in full and continuing over the old
      timeline from its first step. */
  lemma WalkFirstThenShift(v: Ring, v': Ring, t: real, acc: Vec3, lastTime: real)
    requires t < v'[0].time
    requires forall k :: 0 < k < HISTORY_SIZE ==> v'[k] == v[k - 1]
    requires StopIndex(v, t, 0) < HISTORY_SIZE - 1
    ensures Walk(v', HISTORY_SIZE, t, 0, acc, lastTime)
      == Walk(v, HISTORY_SIZE, t, 0, Move(acc, Unpack(v'[0].input), -(lastTime - v'[0].time)), v'[0].time)
  {
    WalkFirstStep(v', t, acc, lastTime);
    WalkShift(v, v', t, 0, Move(acc, Unpack(v'[0].input), -(lastTime - v'[0].time)), v'[0].time);
  }

  /** A walk that starts at or after its first sample stops there. */
  lemma WalkStopsFirst(v: Ring, t: real, acc: Vec3, lastTime: real)
    requires t >= v[0].time
    ensures Walk(v, HISTORY_SIZE, t, 0, acc, lastTime) == Success(Move(acc, Unpack(v[0].input), -(lastTime - t)))
  {
  }

  /** A walk that starts before its first sample takes that step in full. */
  lemma WalkFirstStep(v: Ring, t: real, acc: Vec3, lastTime: real)
    requires t < v[0].time
    ensures Walk(v, HISTORY_SIZE, t, 0, acc, lastTime)
      == Walk(v, HISTORY_SIZE, t, 1, Move(acc, Unpack(v[0].input), -(lastTime - v[0].time)), v[0].time)
  {
  }

  /** Whether a position correction for `time` falls in the suppression
      window after the newest recorded input. */
  predicate InGrace(s: Ship, time: real) {
    var sinceChange := time - TimeBack(s.history, s.historyIndex, 0);
    0.0 < sinceChange < GRACE
  }

  /** `applyPosition(time, remote)`: outside the grace window, the offset
      becomes the gap between `remote` and the reconstructed position at
      `time`. A failed reconstruction (the source's assertion) is passed on. */
  function ApplyPosition(s: Ship, time: real, remote: Vec3, now: real): (r: Result<Ship>)
    ensures InGrace(s, time) ==> r == Success(s)
    ensures !InGrace(s, time) ==> (r.Success? <==> HistoricPosition(s, time, now).Success?)
    ensures r.Failure? ==> r.error == HistoryExhausted
    ensures r.Success? ==> r.value == s.(offset := r.value.offset)
    ensures r.Success? && !InGrace(s, time) ==> r.value.offset == remote.Minus(HistoricPosition(s, time, now).value)
    ensures r.Success? && !InGrace(s, time) && time == now >= TimeBack(s.history, s.historyIndex, 0) ==>
      r.value.offset == remote.Minus(s.position.Plus(s.offset))
  {
    if InGrace(s, time) then Success(s)
    else
      match HistoricPosition(s, time, now)
      case Failure(e) => Failure(e)
      case Success(historic) => Success(s.(offset := remote.Minus(historic)))
  }

  /** After a correction the ship reconstructs, for `time`, the remote
      position less the offset that was pending before it: the correction
      replaces the pending offset instead of adding to it, so the remote
      position is matched exactly when no offset was pending. */
  lemma ApplyPositionReconstructs(s: Ship, time: real, remote: Vec3, now: real)
    requires !InGrace(s, time)
    requires ApplyPosition(s, time, remote, now).Success?
    ensures HistoricPosition(ApplyPosition(s, time, remote, now).value, time, now) == Success(remote.Minus(s.offset))
    ensures s.offset == Zero ==> HistoricPosition(ApplyPosition(s, time, remote, now).value, time, now) == Success(remote)
  {
    var historic := HistoricPosition(s, time, now).value;
    var o := remote.Minus(historic);
    HistoricPositionOffset(s, o, time, now);
    assert historic.Plus(o.Minus(s.offset)) == remote.Minus(s.offset);
  }

  /** Replacing the pending offset by `o` translates every reconstructed
      position by the difference of the two offsets. */
  lemma HistoricPositionOffset(s: Ship, o: Vec3, time: real, now: real)
    ensures HistoricPosition(s.(offset := o), time, now) == Translate(HistoricPosition(s, time, now), o.Minus(s.offset))
  {
    var p := s.position.Plus(s.offset);
    var d := o.Minus(s.offset);
    assert s.position.Plus(o) == p.Plus(d);
    WalkTranslates(Timeline(s.history, s.historyIndex), HISTORY_SIZE, time, 0, p, d, now);
  }

  /** The reconciliation example: holding left for a second from the origin
      reaches x = -300; learning that the input was right for the last half
      second moves the ship to x = 0. */
  lemma ApplyInputScenario(s: Ship, now: real)
    requires s.position == Vec3(-300.0, 0.0, 0.0) && CurrentInput(s) == 2
    ensures ApplyInput(s, now - 0.5, 1, now).position == Vec3(0.0, 0.0, 0.0)
  {
  }
}
