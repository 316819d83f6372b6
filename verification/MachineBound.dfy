/**
 * When the program's 64-bit arithmetic is exact.
 *
 * Acceptance, status and the recorded instants never depend on the arithmetic.  The deadline does:
 * for logs of up to MAX_ROWS rows with four-digit years it equals the unbounded one exactly when
 * every saved duration and every completed pause fits in 64 bits of nanoseconds.
 */
module MachineBound {
  import opened Prelude
  import opened GoTime
  import opened DeadlineClock
  import opened ClockLaws
  import opened Mapping
  import opened InteractionTable
  import opened GuardEquivalence
  import Timestamps

  const MAX_ROWS := 900_000_000

  ghost predicate SameButDeadline(c: Clock, d: Clock) {
    c.(deadlineAt := d.deadlineAt) == d && (c.deadlineAt.Some? <==> d.deadlineAt.Some?)
  }

  /** The two replays accept the same logs, fail with the same error, and differ only in the deadline. */
  lemma {:induction false} AcceptanceIgnoresArithmetic(gameId: int, log: seq<Interaction>)
    ensures var machine, ideal := Replay(Int64, gameId, log), Replay(Unbounded, gameId, log);
            && (machine.Success? <==> ideal.Success?)
            && (machine.Failure? ==> machine == ideal)
            && (machine.Success? ==> SameButDeadline(machine.value, ideal.value))
  {
    if log != [] {
      AcceptanceIgnoresArithmetic(gameId, Front(log));
    }
  }

  /** Values as the program stores them: 64-bit durations, instants between the zero time and year 9999. */
  ghost predicate Storable(log: seq<Interaction>) {
    forall i :: 0 <= i < |log| ==>
      && 0 < log[i].occurredAt <= Timestamps.END_OF_TIME
      && (log[i].action == SAVED && log[i].savedBy.Some? ==> log[i].savedBy.value <= MAX_INT64)
  }

  /** Every saved duration and every completed pause fits in a 64-bit duration. */
  predicate FitsInt64(log: seq<Interaction>) {
    log != [] ==>
    && FitsInt64(Front(log))
    && (Last(log).action == SAVED && Last(log).savedBy.Some? ==> Last(log).savedBy.value <= MAX_SAVED_BY)
    && LastInterval(log, true) <= MAX_INT64
  }

  /** The machine deadline never runs ahead, and it has fallen behind exactly if something overflowed. */
  ghost predicate Behind(machine: Clock, ideal: Clock, rows: nat, exact: bool)
    requires machine.Consistent() && ideal.Consistent()
  {
    && SameButDeadline(machine, ideal)
    && (ideal.deadlineAt.Some? ==>
          var m, d := machine.deadlineAt.value, ideal.deadlineAt.value;
          && m <= d
          && (m == d <==> exact)
          && -(rows * TWO_63) <= m <= Timestamps.END_OF_TIME + rows * TWO_63)
    && (ideal.deadlineAt.None? ==> exact)
  }

  lemma SaveStaysBehind(gameId: int, machine: Clock, ideal: Clock, rows: nat, exact: bool, ia: Interaction)
    requires machine.Consistent() && ideal.Consistent() && Behind(machine, ideal, rows, exact) && rows < MAX_ROWS
    requires ia.action == SAVED && 0 < ia.occurredAt <= Timestamps.END_OF_TIME
    requires ia.savedBy.Some? ==> ia.savedBy.value <= MAX_INT64
    requires Step(Unbounded, gameId, ideal, ia).Success? && Step(Int64, gameId, machine, ia).Success?
    ensures Behind(Step(Int64, gameId, machine, ia).value, Step(Unbounded, gameId, ideal, ia).value,
                   rows + 1, exact && ia.savedBy.value <= MAX_SAVED_BY)
  {
    hide Seconds64, Add64;
    var n := ia.savedBy.value;
    var from := if machine.status == NotStarted then ia.occurredAt else machine.deadlineAt.value;
    Seconds64Error(n);
    Add64Exact(from, Seconds64(n));
  }

  lemma ResumeStaysBehind(gameId: int, machine: Clock, ideal: Clock, rows: nat, exact: bool, ia: Interaction)
    requires machine.Consistent() && ideal.Consistent() && Behind(machine, ideal, rows, exact) && rows < MAX_ROWS
    requires ia.action == RESUMED && 0 < ia.occurredAt
    requires ideal.status == Paused && 0 < ideal.lastPausedAt.value <= ia.occurredAt
    requires Step(Unbounded, gameId, ideal, ia).Success? && Step(Int64, gameId, machine, ia).Success?
    ensures Behind(Step(Int64, gameId, machine, ia).value, Step(Unbounded, gameId, ideal, ia).value,
                   rows + 1, exact && ia.occurredAt - ideal.lastPausedAt.value <= MAX_INT64)
  {
    hide Add64;
    Add64Exact(machine.deadlineAt.value, Sub64(ia.occurredAt, machine.lastPausedAt.value));
  }

  lemma {:induction false} MachineStaysBehind(gameId: int, log: seq<Interaction>)
    requires Storable(log) && Replays(gameId, log) && |log| <= MAX_ROWS
    ensures Replay(Int64, gameId, log).Success?
    ensures Behind(Replay(Int64, gameId, log).value, ClockOf(gameId, log), |log|, FitsInt64(log))
  {
    AcceptanceIgnoresArithmetic(gameId, log);
    if log != [] {
      var front, ia := Front(log), Last(log);
      ReplaysFront(gameId, log);
      MachineStaysBehind(gameId, front);
      LastActionDecidesStatus(Unbounded, gameId, front);
      LastActionDecidesStatus(Unbounded, gameId, log);
      var machine, ideal := Replay(Int64, gameId, front).value, ClockOf(gameId, front);
      if ia.action == SAVED {
        SaveStaysBehind(gameId, machine, ideal, |front|, FitsInt64(front), ia);
      } else if ia.action == RESUMED {
        ResumeStaysBehind(gameId, machine, ideal, |front|, FitsInt64(front), ia);
      }
    }
  }

  /**
   * The program's replay equals the unbounded one if and only if every saved duration is at most
   * MAX_SAVED_BY seconds and every completed pause is below 2^63 nanoseconds.  Otherwise its
   * deadline is too early.
   */
  lemma MachineReplayExactIff(gameId: int, log: seq<Interaction>)
    requires Storable(log) && |log| <= MAX_ROWS
    ensures Replays(gameId, log) ==>
              (Replay(Int64, gameId, log) == Replay(Unbounded, gameId, log) <==> FitsInt64(log))
    ensures Replays(gameId, log) && !FitsInt64(log) ==>
              Replay(Int64, gameId, log).Success? && log != [] &&
              Replay(Int64, gameId, log).value.deadlineAt.value < ClockOf(gameId, log).deadlineAt.value
    ensures !Replays(gameId, log) ==> Replay(Int64, gameId, log) == Replay(Unbounded, gameId, log)
  {
    AcceptanceIgnoresArithmetic(gameId, log);
    if Replays(gameId, log) {
      MachineStaysBehind(gameId, log);
    }
  }

  /** The smallest duration that overflows turns, at any instant, into a deadline before the save itself. */
  lemma OverflowingSave(gameId: int, save: Interaction)
    requires save.gameId == gameId && save.action == SAVED && save.savedBy == Some(MAX_SAVED_BY + 1)
    requires 0 < save.occurredAt <= Timestamps.END_OF_TIME
    ensures var r := Replay(Int64, gameId, [save]);
            r.Success? && r.value.deadlineAt.value < save.occurredAt
  {
    assert Seconds64(MAX_SAVED_BY + 1) < 0;
    Add64Exact(save.occurredAt, Seconds64(MAX_SAVED_BY + 1));
    ReplayAppend(Int64, gameId, [], save);
    assert [] + [save] == [save];
  }

  /** For exact logs the conserved quantity is the one the program itself reports. */
  lemma MachineDeadlineFormula(gameId: int, log: seq<Interaction>)
    requires Storable(log) && |log| <= MAX_ROWS && FitsInt64(log) && log != []
    requires Replay(Int64, gameId, log).Success?
    ensures Replay(Int64, gameId, log).value.deadlineAt ==
            Some(log[0].occurredAt + TotalSaved(log) + PausedTime(log))
  {
    AcceptanceIgnoresArithmetic(gameId, log);
    MachineReplayExactIff(gameId, log);
    DeadlineFormula(gameId, log);
  }

  /** What a verdict on a replayed log means, in play time and saved time. */
  ghost predicate VerdictMeans(log: seq<Interaction>, now: int, valid: Option<bool>) {
    && Saves(log) != [] && log != []
    && var pausedAt, savedAt := Last(log).occurredAt, Last(Saves(log)).occurredAt;
       if Last(log).action != PAUSED then valid == Some(PlayTimeUntil(log, now) < TotalSaved(log))
       else if pausedAt > savedAt then now >= pausedAt ==> valid == Some(PlayTime(log) < TotalSaved(log))
       else valid == Some(PlayTime(log) + (now - pausedAt) < TotalSaved(log))
  }

  /**
   * On a fitting log the verdict the program computes is about time saved and time played: frozen
   * during a pause, except that a pause in the second of the last save does not stop the clock.
   */
  lemma MachineVerdict(gameId: int, log: seq<Interaction>, now: int)
    requires Storable(log) && |log| <= MAX_ROWS && FitsInt64(log) && log != []
    requires Replay(Int64, gameId, log).Success?
    ensures var c := Replay(Int64, gameId, log).value;
            && ClockMeans(log, c) && VerdictMeans(log, now, Verdict(c, now))
            && c.deadlineAt == Some(log[0].occurredAt + TotalSaved(log) + PausedTime(log))
  {
    hide FitsInt64, Step, TotalSaved, PlayTime, PausedTime, Saves;
    ReplayMeans(Int64, gameId, log);
    AcceptanceIgnoresArithmetic(gameId, log);
    MachineReplayExactIff(gameId, log);
    LastActionDecidesStatus(Unbounded, gameId, log);
    MachineDeadlineFormula(gameId, log);
    var c := ClockOf(gameId, log);
    if c.status == Playing {
      PlayingVerdictDecaysOnce(gameId, log, now, now);
    } else {
      assert log[..|log|] == log;
      InstantsInOrder(Unbounded, gameId, log, |log|);
      Conservation(gameId, log, c.lastPausedAt.value);
      if now >= c.lastPausedAt.value { PauseFreezesVerdict(gameId, log, now); }
    }
  }

  // ----- Resuming and erasing, in 64 bits ------------------------------------------------------

  lemma FitsFront(log: seq<Interaction>)
    requires Storable(log) && FitsInt64(log) && log != []
    ensures Storable(Front(log)) && FitsInt64(Front(log))
  {}

  /** The program's own verdict after a resume, however late, is that of the pause instant. */
  lemma MachineResume(gameId: int, log: seq<Interaction>, resume: Interaction)
    requires Storable(log + [resume]) && |log| < MAX_ROWS && FitsInt64(log + [resume])
    requires Replay(Int64, gameId, log).Success? && Replay(Int64, gameId, log).value.status == Paused
    requires resume.gameId == gameId && resume.action == RESUMED
    requires resume.occurredAt >= Replay(Int64, gameId, log).value.lastPausedAt.value
    ensures var paused, resumed := Replay(Int64, gameId, log).value, Replay(Int64, gameId, log + [resume]);
            && resumed.Success?
            && Verdict(resumed.value, resume.occurredAt) == Some(PlayTime(log) < TotalSaved(log))
            && (paused.lastPausedAt.value > paused.lastSavedAt.value ==>
                  Verdict(paused, resume.occurredAt) == Verdict(resumed.value, resume.occurredAt))
  {
    hide Replay, FitsInt64, PlayTime, TotalSaved, Verdict;
    assert Front(log + [resume]) == log;
    FitsFront(log + [resume]);
    AcceptanceIgnoresArithmetic(gameId, log);
    MachineReplayExactIff(gameId, log);
    ResumeKeepsVerdict(gameId, log, resume);
    MachineReplayExactIff(gameId, log + [resume]);
  }

  lemma {:induction false} PausedTimeOfSorted(log: seq<Interaction>)
    requires SortedInstants(log)
    ensures PausedTime(log) >= 0
  {
    if |log| > 1 {
      SortedGrows(log);
      PausedTimeOfSorted(Front(log));
    } else if log != [] {
      assert Front(log) == [];
    }
  }

  lemma StorableAppend(log: seq<Interaction>, ia: Interaction)
    requires Storable(log) && 0 < ia.occurredAt <= Timestamps.END_OF_TIME
    requires ia.action == SAVED && ia.savedBy.Some? ==> ia.savedBy.value <= MAX_INT64
    ensures Storable(log + [ia])
  {}

  lemma FitsAppendSave(log: seq<Interaction>, ia: Interaction)
    requires FitsInt64(log) && forall i :: 0 <= i < |log| ==> log[i].action == SAVED
    requires ia.action == SAVED && (ia.savedBy.Some? ==> ia.savedBy.value <= MAX_SAVED_BY)
    ensures FitsInt64(log + [ia])
  {
    assert Front(log + [ia]) == log && Last(log + [ia]) == ia;
  }

  /** Erasing the pauses of a fitting log leaves a fitting log. */
  lemma {:induction false} ErasedLogFits(gameId: int, log: seq<Interaction>)
    requires Storable(log) && FitsInt64(log) && Replays(gameId, log)
    ensures Storable(Erase(log)) && FitsInt64(Erase(log)) && |Erase(log)| <= |log|
  {
    if log != [] {
      ReplaysFront(gameId, log);
      hide Step, Replay, PausedTime, LastInterval, FitsInt64;
      FitsFront(log);
      ErasedLogFits(gameId, Front(log));
      if Last(log).action == SAVED {
        ErasedInstant(gameId, log);
        ErasedSaveFits(log);
      }
    }
  }

  lemma ErasedSaveFits(log: seq<Interaction>)
    requires Storable(log) && FitsInt64(log) && log != [] && Last(log).action == SAVED
    requires 0 < Last(log).occurredAt - PausedTime(log) <= Last(log).occurredAt
    requires Storable(Erase(Front(log))) && FitsInt64(Erase(Front(log))) && |Erase(Front(log))| < |log|
    ensures Storable(Erase(log)) && FitsInt64(Erase(log)) && |Erase(log)| <= |log|
  {
    EraseOfSave(log);
    ErasedLogIsTheSaves(Front(log));
    hide Erase, PausedTime, LastInterval, FitsInt64, Storable, TotalSaved, SameButInstants;
    FitsEachSave(log, |log| - 1);
    LastStorable(log);
    var moved := Last(log).(occurredAt := Last(log).occurredAt - PausedTime(log));
    StorableAppend(Erase(Front(log)), moved);
    FitsAppendSave(Erase(Front(log)), moved);
  }

  lemma LastStorable(log: seq<Interaction>)
    requires Storable(log) && log != []
    ensures 0 < Last(log).occurredAt <= Timestamps.END_OF_TIME
    ensures Last(log).action == SAVED && Last(log).savedBy.Some? ==> Last(log).savedBy.value <= MAX_INT64
  {}

  lemma EraseOfSave(log: seq<Interaction>)
    requires log != [] && Last(log).action == SAVED
    ensures Erase(log) ==
            Erase(Front(log)) + [Last(log).(occurredAt := Last(log).occurredAt - PausedTime(log))]
  {}

  lemma ErasedInstant(gameId: int, log: seq<Interaction>)
    requires Storable(log) && Replays(gameId, log) && log != [] && Last(log).action == SAVED
    ensures 0 < Last(log).occurredAt - PausedTime(log) <= Last(log).occurredAt
  {
    EraseInStep(gameId, log);
    LastActionDecidesStatus(Unbounded, gameId, log);
    LastActionDecidesStatus(Unbounded, gameId, Erase(log));
    EraseOfSave(log);
    AcceptedLogIsSorted(Unbounded, gameId, log);
    PausedTimeOfSorted(log);
  }

  /** Pause erasure, for the replay the program runs. */
  lemma MachinePauseErasure(gameId: int, log: seq<Interaction>, now: int)
    requires Storable(log) && |log| <= MAX_ROWS && FitsInt64(log)
    requires Replay(Int64, gameId, log).Success? && Replay(Int64, gameId, log).value.status == Playing
    ensures SameButInstants(Erase(log), Saves(log)) && TotalSaved(Erase(log)) == TotalSaved(log)
    ensures var c, erased := Replay(Int64, gameId, log).value, Replay(Int64, gameId, Erase(log));
            && erased.Success?
            && erased.value.status == Playing
            && erased.value.deadlineAt == Some(c.deadlineAt.value - PausedTime(log))
            && Verdict(erased.value, now - PausedTime(log)) == Verdict(c, now)
  {
    hide Replay, FitsInt64, Erase, Saves, PausedTime, TotalSaved, Verdict;
    AcceptanceIgnoresArithmetic(gameId, log);
    MachineReplayExactIff(gameId, log);
    PauseErasure(gameId, log, now);
    ErasedLogFits(gameId, log);
    MachineReplayExactIff(gameId, Erase(log));
  }

  lemma StampedLogStorable(rows: seq<Row>, gameId: int, offset: int)
    requires TableOk(rows, offset) && FitsInt64(GameLog(rows, gameId, offset))
    ensures Storable(GameLog(rows, gameId, offset))
  {
    hide Stamped, InstantOf, Replay;
    var log := GameLog(rows, gameId, offset);
    ReplayRowsMembers(rows, gameId);
    forall i | 0 <= i < |log|
      ensures 0 < log[i].occurredAt <= Timestamps.END_OF_TIME
      ensures log[i].action == SAVED && log[i].savedBy.Some? ==> log[i].savedBy.value <= MAX_INT64
    {
      StampBounded(ReplayRows(rows, gameId)[i].occurredAt, offset);
      FitsEachSave(log, i);
    }
  }

  /** The logs the table can produce need no further assumption than the two 64-bit ones. */
  lemma StampedLogExact(rows: seq<Row>, gameId: int, offset: int, now: int)
    requires TableOk(rows, offset)
    requires var log := GameLog(rows, gameId, offset); |log| <= MAX_ROWS && FitsInt64(log)
    ensures var log := GameLog(rows, gameId, offset);
            && Replay(Int64, gameId, log) == Replay(Unbounded, gameId, log)
            && Replay(Int64, gameId, log).Success?
            && (log != [] ==>
                  var c := Replay(Int64, gameId, log).value;
                  && ClockMeans(log, c) && VerdictMeans(log, now, Verdict(c, now))
                  && c.deadlineAt == Some(log[0].occurredAt + TotalSaved(log) + PausedTime(log)))
  {
    hide GameLog, FitsInt64, Replay, VerdictMeans, ClockMeans, Verdict, TotalSaved, PausedTime, Step;
    var log := GameLog(rows, gameId, offset);
    StampedLogStorable(rows, gameId, offset);
    AcceptanceIgnoresArithmetic(gameId, log);
    MachineReplayExactIff(gameId, log);
    if log != [] { MachineVerdict(gameId, log, now); }
  }

  lemma StampBounded(s: string, offset: int)
    requires Stamped(s, offset)
    ensures InstantOf(s, offset) < Timestamps.END_OF_TIME
  {
    var t :| Timestamps.Formattable(t, offset) && t >= SECOND && s == Timestamps.Format(t, offset)
             && InstantOf(s, offset) == t - t % SECOND;
    Timestamps.FormattableBounded(t, offset);
  }

  lemma {:induction false} FitsEachSave(log: seq<Interaction>, i: nat)
    requires FitsInt64(log) && i < |log|
    ensures log[i].action == SAVED && log[i].savedBy.Some? ==> log[i].savedBy.value <= MAX_SAVED_BY
    decreases |log|
  {
    if i < |log| - 1 { FitsEachSave(Front(log), i); }
  }
}
