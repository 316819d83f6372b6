/**
 * The read side of the deadline clock: replaying a game's interaction log.
 *
 * `Replay` is the fold that the loop of `BuildSharedData` is proved against.  It is parameterised
 * by the arithmetic: `Int64` is what the program does, `Unbounded` is the same fold over integers.
 */
module DeadlineClock {
  import opened Prelude
  import opened GoTime

  const SAVED := "saved"
  const PAUSED := "paused"
  const RESUMED := "resumed"

  datatype Interaction = Interaction(
    id: int,
    gameId: int,
    playerId: Option<int>,
    action: string,
    occurredAt: int,
    savedBy: Option<int>)

  datatype Status = NotStarted | Playing | Paused

  datatype ReplayError =
    | WrongGame(id: int)
    | OutOfOrder(id: int)
    | SaveWhilePaused(id: int)
    | InvalidSavedBy(id: int)
    | CannotPause(id: int, from: Status)
    | CannotResume(id: int, from: Status)
    | UnknownAction(id: int, action: string)

  datatype Arithmetic = Unbounded | Int64

  /** The fields of the shared data that the loop updates, and the loop's own `prevOccurredAt`. */
  datatype Clock = Clock(
    status: Status,
    deadlineAt: Option<int>,
    lastSavedAt: Option<int>,
    lastPausedAt: Option<int>,
    prevOccurredAt: int)
  {
    /** Which optional fields are present is decided by the status alone. */
    predicate Consistent() {
      && (deadlineAt.Some? <==> status != NotStarted)
      && (lastSavedAt.Some? <==> status != NotStarted)
      && (lastPausedAt.Some? <==> status == Paused)
    }
  }

  const START := Clock(NotStarted, None, None, None, 0)

  function Extension(m: Arithmetic, savedBy: int): int {
    if m.Int64? then Seconds64(savedBy) else savedBy * SECOND
  }

  function Shift(m: Arithmetic, t: int, d: int): int {
    if m.Int64? then Add64(t, d) else t + d
  }

  function Gap(m: Arithmetic, t: int, u: int): int {
    if m.Int64? then Sub64(t, u) else t - u
  }

  /**
   * One round of the loop.  The precondition is what makes the two pointer dereferences safe, and
   * the postcondition is what carries it to the next round, whatever the interaction is.
   */
  function Step(m: Arithmetic, gameId: int, c: Clock, ia: Interaction): (r: Result<Clock, ReplayError>)
    requires c.Consistent()
    ensures r.Success? ==> r.value.Consistent()
  {
    if ia.gameId != gameId then
      Failure(WrongGame(ia.id))
    else if c.prevOccurredAt != 0 && ia.occurredAt < c.prevOccurredAt then
      Failure(OutOfOrder(ia.id))
    else if ia.action == SAVED then
      if c.status == Paused then
        Failure(SaveWhilePaused(ia.id))
      else if ia.savedBy.None? || ia.savedBy.value <= 0 then
        Failure(InvalidSavedBy(ia.id))
      else
        var from := if c.status == NotStarted then ia.occurredAt else c.deadlineAt.value;
        var deadline := Shift(m, from, Extension(m, ia.savedBy.value));
        Success(Clock(Playing, Some(deadline), Some(ia.occurredAt), c.lastPausedAt, ia.occurredAt))
    else if ia.action == PAUSED then
      if c.status != Playing then
        Failure(CannotPause(ia.id, c.status))
      else
        Success(c.(status := Paused, lastPausedAt := Some(ia.occurredAt), prevOccurredAt := ia.occurredAt))
    else if ia.action == RESUMED then
      if c.status != Paused then
        Failure(CannotResume(ia.id, c.status))
      else
        var deadline := Shift(m, c.deadlineAt.value, Gap(m, ia.occurredAt, c.lastPausedAt.value));
        Success(Clock(Playing, Some(deadline), c.lastSavedAt, None, ia.occurredAt))
    else
      Failure(UnknownAction(ia.id, ia.action))
  }

  /** The whole replay: the first failing interaction decides the error. */
  function Replay(m: Arithmetic, gameId: int, log: seq<Interaction>): (r: Result<Clock, ReplayError>)
    ensures r.Success? ==> r.value.Consistent()
  {
    if log == [] then Success(START) else Continue(m, gameId, Replay(m, gameId, Front(log)), Last(log))
  }

  /** A failed replay stays failed; a good one takes one more round. */
  function Continue(m: Arithmetic, gameId: int, r: Result<Clock, ReplayError>, ia: Interaction)
    : Result<Clock, ReplayError>
    requires r.Success? ==> r.value.Consistent()
  {
    if r.Failure? then r else Step(m, gameId, r.value, ia)
  }

  /** The verdict that `ComputeValid` stores. */
  function Verdict(c: Clock, now: int): Option<bool> {
    if c.deadlineAt.None? then None
    else if && c.status == Paused
            && c.lastPausedAt.Some?
            && c.lastSavedAt.Some?
            && c.lastPausedAt.value < c.deadlineAt.value
            && c.lastPausedAt.value > c.lastSavedAt.value
    then Some(true)
    else Some(now < c.deadlineAt.value)
  }

  /** The shared data handed to clients; its fields are assigned one by one. */
  class SharedData {
    var gameId: int
    var valid: Option<bool>
    var status: Status
    var deadlineAt: Option<int>
    var lastSavedAt: Option<int>
    var lastPausedAt: Option<int>

    constructor (gameId: int)
      ensures this.gameId == gameId && valid == None
      ensures AsClock(0) == START
    {
      this.gameId := gameId;
      valid, status, deadlineAt, lastSavedAt, lastPausedAt := None, NotStarted, None, None, None;
    }

    function AsClock(prevOccurredAt: int): Clock
      reads this
    {
      Clock(status, deadlineAt, lastSavedAt, lastPausedAt, prevOccurredAt)
    }
  }

  method ComputeValid(s: SharedData, now: int)
    modifies s`valid
    ensures forall p :: s.valid == Verdict(s.AsClock(p), now)
  {
    if s.deadlineAt.None? {
      s.valid := None;
      return;
    }
    var valid := now < s.deadlineAt.value;
    if && s.status == Paused
       && s.lastPausedAt.Some?
       && s.lastSavedAt.Some?
       && s.lastPausedAt.value < s.deadlineAt.value
       && s.lastPausedAt.value > s.lastSavedAt.value
    {
      valid := true;
    }
    s.valid := Some(valid);
  }

  method BuildSharedData(gameId: int, interactions: seq<Interaction>, now: int)
    returns (r: Result<SharedData, ReplayError>)
    ensures var spec := Replay(Int64, gameId, interactions);
            if spec.Failure? then r == Failure(spec.error)
            else
              && r.Success? && fresh(r.value)
              && r.value.gameId == gameId
              && r.value.AsClock(spec.value.prevOccurredAt) == spec.value
              && r.value.valid == Verdict(spec.value, now)
  {
    hide Replay, Verdict, Seconds64, Add64, Sub64;
    EmptyReplay(Int64, gameId, now);
    var data := new SharedData(gameId);
    if |interactions| == 0 {
      return Success(data);
    }
    var prevOccurredAt := 0;
    for k := 0 to |interactions|
      invariant fresh(data) && data.gameId == gameId && data.valid == None
      invariant Replay(Int64, gameId, interactions[..k]) == Success(data.AsClock(prevOccurredAt))
    {
      var ia := interactions[k];
      NextRound(Int64, gameId, interactions, k, data.AsClock(prevOccurredAt));

      if ia.gameId != data.gameId {
        return Failure(WrongGame(ia.id));
      }
      if prevOccurredAt != 0 && ia.occurredAt < prevOccurredAt {
        return Failure(OutOfOrder(ia.id));
      }
      prevOccurredAt := ia.occurredAt;

      if ia.action == SAVED {
        if data.status == Paused {
          return Failure(SaveWhilePaused(ia.id));
        }
        if ia.savedBy.None? || ia.savedBy.value <= 0 {
          return Failure(InvalidSavedBy(ia.id));
        }
        var extension := Seconds64(ia.savedBy.value);
        if data.status == NotStarted {
          data.deadlineAt := Some(Add64(ia.occurredAt, extension));
          data.status := Playing;
        } else {
          data.deadlineAt := Some(Add64(data.deadlineAt.value, extension));
        }
        data.lastSavedAt := Some(ia.occurredAt);
      } else if ia.action == PAUSED {
        if data.status != Playing {
          return Failure(CannotPause(ia.id, data.status));
        }
        data.status := Paused;
        data.lastPausedAt := Some(ia.occurredAt);
      } else if ia.action == RESUMED {
        if data.status != Paused {
          return Failure(CannotResume(ia.id, data.status));
        }
        data.deadlineAt := Some(Add64(data.deadlineAt.value, Sub64(ia.occurredAt, data.lastPausedAt.value)));
        data.status := Playing;
        data.lastPausedAt := None;
      } else {
        return Failure(UnknownAction(ia.id, ia.action));
      }
    }
    assert interactions[..|interactions|] == interactions;
    ComputeValid(data, now);
    r := Success(data);
  }

  /** No interactions: not started, and no verdict. */
  lemma EmptyReplay(m: Arithmetic, gameId: int, now: int)
    ensures Replay(m, gameId, []) == Success(START)
    ensures Verdict(START, now) == None
  {}

  /** One round of the loop: the step's error is final, and its clock is that of the longer prefix. */
  lemma NextRound(m: Arithmetic, gameId: int, log: seq<Interaction>, k: nat, c: Clock)
    requires k < |log| && c.Consistent() && Replay(m, gameId, log[..k]) == Success(c)
    ensures var next := Step(m, gameId, c, log[k]);
            && Replay(m, gameId, log[..k + 1]) == next
            && (next.Failure? ==> Replay(m, gameId, log) == next)
  {
    hide Step, Replay;
    ReplayAppend(m, gameId, log[..k], log[k]);
    assert log[..k] + [log[k]] == log[..k + 1];
    ReplayKeepsFailure(m, gameId, log, k + 1);
  }

  lemma ReplayAppend(m: Arithmetic, gameId: int, log: seq<Interaction>, ia: Interaction)
    ensures Replay(m, gameId, log + [ia]) == Continue(m, gameId, Replay(m, gameId, log), ia)
  {}

  /** An error found in a prefix is the error of the whole log. */
  lemma {:induction false} ReplayKeepsFailure(m: Arithmetic, gameId: int, log: seq<Interaction>, k: nat)
    requires k <= |log|
    ensures Replay(m, gameId, log[..k]).Failure? ==> Replay(m, gameId, log) == Replay(m, gameId, log[..k])
    decreases |log|
  {
    if k < |log| {
      assert Front(log)[..k] == log[..k];
      ReplayKeepsFailure(m, gameId, Front(log), k);
    } else {
      assert log[..k] == log;
    }
  }
}
