/** Save, pause and resume: validate, read the clock, then insert one guarded row. */
module GameCommands {
  import opened Prelude
  import opened DeadlineClock
  import opened InteractionTable
  import opened Mapping
  import opened GuardEquivalence
  import Text
  import Timestamps

  datatype Command =
    | Save(gameId: int, playerId: int, duration: int)
    | Pause(gameId: int, playerId: int)
    | Resume(gameId: int, playerId: int)
  {
    predicate WellFormed() {
      gameId >= 1 && playerId >= 1 && (Save? ==> duration >= 1)
    }

    /** The first argument error; a command without one can still fail to read the clock. */
    function EarlyError(): CommandError {
      if gameId < 1 then InvalidGameId
      else if playerId < 1 then InvalidPlayerId
      else if Save? && duration < 1 then InvalidDuration
      else ClockFailed
    }

    /** The columns of the INSERT statement for this command. */
    function ToDraft(occurredAt: string): (d: Draft)
      ensures WellFormed() ==> ChecksHold(d)
    {
      assert |SAVED| == 5 && |PAUSED| == 6 && |RESUMED| == 7;
      match this
      case Save(g, p, n) => Draft(g, Some(p), SAVED, occurredAt, Some(n))
      case Pause(g, p) => Draft(g, Some(p), PAUSED, occurredAt, None)
      case Resume(g, p) => Draft(g, Some(p), RESUMED, occurredAt, None)
    }
  }

  datatype CommandError =
    | InvalidGameId
    | InvalidPlayerId
    | InvalidDuration
    | ClockFailed
    | ErrCannotSaveWhilePaused
    | ErrCannotPause
    | ErrCannotResume
    | Database(error: DbError)
    | DatabaseFailed

  /** The error each command recognises in the database's message; the rest is passed on. */
  function CommandErrorOf(c: Command, e: DbError): CommandError {
    if c.Save? && e.CannotSaveWhilePaused? then ErrCannotSaveWhilePaused
    else if c.Pause? && e.CannotPauseNotPlaying? then ErrCannotPause
    else if c.Resume? && e.CannotResumeNotPaused? then ErrCannotResume
    else Database(e)
  }

  class Commands {
    const table: Interactions
    /** The zone of the server's clock, in seconds. */
    const zone: int

    constructor (table: Interactions, zone: int)
      ensures this.table == table && this.zone == zone
    {
      this.table, this.zone := table, zone;
    }

    /**
     * The new row, if the insert succeeds; the table is otherwise untouched.  A fault is told as such,
     * whether the insert never took effect or only its reply was lost.
     */
    twostate predicate Ran(c: Command, t: int, fault: Fault, new r: Option<CommandError>)
      reads table
    {
      var inserted := InsertRow(old(table.rows), c.ToDraft(Timestamps.Written(t, zone)));
      && (if inserted.Success? && fault != BeforeEffect then table.rows == old(table.rows) + [inserted.value]
          else table.rows == old(table.rows))
      && (r == None <==> inserted.Success? && fault == NoFault)
      && (fault != NoFault ==> r == Some(DatabaseFailed))
      && (fault == NoFault && inserted.Failure? ==> r == Some(CommandErrorOf(c, inserted.error)))
    }

    /** What an appended row holds, column by column, and whose history it joins. */
    twostate predicate Stored(gameId: int, playerId: int, action: string, t: int, savedBy: Option<int>)
      reads table
    {
      && |table.rows| == |old(table.rows)| + 1
      && var row := Last(table.rows);
         && table.rows == old(table.rows) + [row]
         && row.gameId == gameId && row.playerId == Some(playerId)
         && row.action == action && row.savedBy == savedBy
         && row.occurredAt == Timestamps.Written(t, zone)
         && Select(table.rows, OfGame(gameId)) == Select(old(table.rows), OfGame(gameId)) + [row]
         && Select(table.rows, OfPlayer(gameId, playerId)) ==
              Select(old(table.rows), OfPlayer(gameId, playerId)) + [row]
    }

    method SaveGame(gameId: int, playerId: int, duration: int, clock: Option<int>, fault: Fault)
      returns (r: Option<CommandError>)
      modifies table
      ensures var c := Save(gameId, playerId, duration);
              if c.WellFormed() && clock.Some? then Ran(c, clock.value, fault, r)
              else unchanged(table) && r == Some(c.EarlyError())
      ensures gameId < 1 ==> unchanged(table) && r == Some(InvalidGameId)
      ensures gameId >= 1 && playerId < 1 ==> unchanged(table) && r == Some(InvalidPlayerId)
      ensures gameId >= 1 && playerId >= 1 && duration < 1 ==> unchanged(table) && r == Some(InvalidDuration)
      ensures gameId >= 1 && playerId >= 1 && duration >= 1 && clock.None? ==>
                unchanged(table) && r == Some(ClockFailed)
      ensures r.None? ==> clock.Some? && Stored(gameId, playerId, "saved", clock.value, Some(duration))
      ensures table.rows != old(table.rows) ==>
                clock.Some? && Stored(gameId, playerId, "saved", clock.value, Some(duration))
    {
      hide InsertRow, LatestAction, Select, Timestamps.Written;
      if gameId < 1 {
        return Some(InvalidGameId);
      }
      if playerId < 1 {
        return Some(InvalidPlayerId);
      }
      if duration < 1 {
        return Some(InvalidDuration);
      }
      if clock.None? {
        return Some(ClockFailed);
      }
      if fault == BeforeEffect {
        return Some(DatabaseFailed);
      }
      var stamp := Timestamps.Written(clock.value, zone);
      var inserted := table.Insert(Draft(gameId, Some(playerId), SAVED, stamp, Some(duration)));
      if fault == AfterEffect {
        return Some(DatabaseFailed);
      }
      if inserted.Failure? {
        if inserted.error.CannotSaveWhilePaused? {
          return Some(ErrCannotSaveWhilePaused);
        }
        return Some(Database(inserted.error));
      }
      r := None;
    }

    method ResumeGame(gameId: int, playerId: int, clock: Option<int>, fault: Fault)
      returns (r: Option<CommandError>)
      modifies table
      ensures var c := Resume(gameId, playerId);
              if c.WellFormed() && clock.Some? then Ran(c, clock.value, fault, r)
              else unchanged(table) && r == Some(c.EarlyError())
      ensures gameId < 1 ==> unchanged(table) && r == Some(InvalidGameId)
      ensures gameId >= 1 && playerId < 1 ==> unchanged(table) && r == Some(InvalidPlayerId)
      ensures gameId >= 1 && playerId >= 1 && clock.None? ==> unchanged(table) && r == Some(ClockFailed)
      ensures r.None? ==> clock.Some? && Stored(gameId, playerId, "resumed", clock.value, None)
      ensures table.rows != old(table.rows) ==> clock.Some? && Stored(gameId, playerId, "resumed", clock.value, None)
    {
      hide InsertRow, LatestAction, Select, Timestamps.Written;
      if gameId < 1 {
        return Some(InvalidGameId);
      }
      if playerId < 1 {
        return Some(InvalidPlayerId);
      }
      if clock.None? {
        return Some(ClockFailed);
      }
      if fault == BeforeEffect {
        return Some(DatabaseFailed);
      }
      var stamp := Timestamps.Written(clock.value, zone);
      var inserted := table.Insert(Draft(gameId, Some(playerId), RESUMED, stamp, None));
      if fault == AfterEffect {
        return Some(DatabaseFailed);
      }
      if inserted.Failure? {
        if inserted.error.CannotResumeNotPaused? {
          return Some(ErrCannotResume);
        }
        return Some(Database(inserted.error));
      }
      r := None;
    }

    method PauseGame(gameId: int, playerId: int, clock: Option<int>, fault: Fault)
      returns (r: Option<CommandError>)
      modifies table
      ensures var c := Pause(gameId, playerId);
              if c.WellFormed() && clock.Some? then Ran(c, clock.value, fault, r)
              else unchanged(table) && r == Some(c.EarlyError())
      ensures gameId < 1 ==> unchanged(table) && r == Some(InvalidGameId)
      ensures gameId >= 1 && playerId < 1 ==> unchanged(table) && r == Some(InvalidPlayerId)
      ensures gameId >= 1 && playerId >= 1 && clock.None? ==> unchanged(table) && r == Some(ClockFailed)
      ensures r.None? ==> clock.Some? && Stored(gameId, playerId, "paused", clock.value, None)
      ensures table.rows != old(table.rows) ==> clock.Some? && Stored(gameId, playerId, "paused", clock.value, None)
    {
      hide InsertRow, LatestAction, Select, Timestamps.Written;
      if gameId < 1 {
        return Some(InvalidGameId);
      }
      if playerId < 1 {
        return Some(InvalidPlayerId);
      }
      if clock.None? {
        return Some(ClockFailed);
      }
      if fault == BeforeEffect {
        return Some(DatabaseFailed);
      }
      var stamp := Timestamps.Written(clock.value, zone);
      var inserted := table.Insert(Draft(gameId, Some(playerId), PAUSED, stamp, None));
      if fault == AfterEffect {
        return Some(DatabaseFailed);
      }
      if inserted.Failure? {
        if inserted.error.CannotPauseNotPlaying? {
          return Some(ErrCannotPause);
        }
        return Some(Database(inserted.error));
      }
      r := None;
    }
  }

  /** Each command can only meet the two refusals meant for it. */
  lemma GuardPerAction(c: Command, hasLater: bool, latest: Option<string>)
    ensures var refused := Guard(hasLater, latest, c.ToDraft("").action);
            refused.Some? && refused.value != OccurredAtPrecedes ==>
              match c
              case Save(_, _, _) => refused.value == DbError.CannotSaveWhilePaused
              case Pause(_, _) => refused.value == CannotPauseNotPlaying
              case Resume(_, _) => refused.value == CannotResumeNotPaused
  {}

  lemma FirstSave(c: Command, stamp: string)
    requires c.Save? && c.WellFormed()
    ensures InsertRow([], c.ToDraft(stamp)) == Success(WithId(1, c.ToDraft(stamp)))
  {
    assert |SAVED| == 5 && |PAUSED| == 6 && |RESUMED| == 7;
    assert Select([], OfGame(c.gameId)) == [];
    assert MaxId([]) == 0;
  }

  lemma OneRow(r: Row, d: Draft)
    requires r.id == 1 && d.gameId == r.gameId
    ensures HasLaterRow([r], d) <==> Text.TextLess(d.occurredAt, r.occurredAt)
    ensures MaxId([r]) == 1
  {
    hide Text.TextLess;
    assert r in [r] && Front([r]) == [];
  }

  /** After one save of a game, a second is admitted exactly if its timestamp is not smaller as text. */
  lemma SecondSave(c: Command, stamp: string, c': Command, stamp': string)
    requires c.Save? && c.WellFormed() && c'.Save? && c'.WellFormed() && c.gameId == c'.gameId
    ensures InsertRow([WithId(1, c.ToDraft(stamp))], c'.ToDraft(stamp')) ==
            if Text.TextLess(stamp', stamp) then Failure(OccurredAtPrecedes)
            else Success(WithId(2, c'.ToDraft(stamp')))
  {
    var first := WithId(1, c.ToDraft(stamp));
    FirstSave(c, stamp);
    AcceptedInsertIsNewest([], c.ToDraft(stamp));
    assert [] + [first] == [first];
    hide Text.TextLess, LatestAction, HasLaterRow, MaxId, ChecksHold, Select;
    assert |SAVED| == 5 && |PAUSED| == 6 && |RESUMED| == 7;
    OneRow(first, c'.ToDraft(stamp'));
  }

  /** For a well-formed command the trigger alone decides, and only with the refusals meant for it. */
  lemma TriggerDecides(rows: seq<Row>, c: Command, stamp: string)
    requires c.WellFormed()
    ensures var refused, inserted := TriggerError(rows, c.ToDraft(stamp)), InsertRow(rows, c.ToDraft(stamp));
            && (inserted.Success? <==> refused.None?)
            && (inserted.Failure? ==>
                  && refused == Some(inserted.error)
                  && (CommandErrorOf(c, inserted.error).Database? ==> inserted.error == OccurredAtPrecedes))
  {
    hide Guard, HasLaterRow, LatestAction;
    GuardPerAction(c, HasLaterRow(rows, c.ToDraft(stamp)), LatestAction(rows, c.gameId));
  }

  /** What a refusal tells the caller, if the replay fails for the same reason. */
  lemma ErrorNamesReason(c: Command, e: DbError, replay: Result<Clock, ReplayError>)
    requires SameRefusal(Some(e), replay)
    requires CommandErrorOf(c, e).Database? ==> e == OccurredAtPrecedes
    ensures replay.Failure? && NamesReason(CommandErrorOf(c, e), replay.error)
  {}

  predicate NamesReason(told: CommandError, reason: ReplayError) {
    match told
    case ErrCannotSaveWhilePaused => reason.SaveWhilePaused?
    case ErrCannotPause => reason.CannotPause?
    case ErrCannotResume => reason.CannotResume?
    case Database(_) => reason.OutOfOrder?
    case _ => false
  }

  /**
   * On a table whose logs replay, a well-formed command is refused exactly when its interaction
   * would break the replay of its game, and the three domain errors name the replay's own reason.
   */
  lemma CommandRefusedIffReplayBreaks(rows: seq<Row>, c: Command, stamp: string, offset: int)
    requires TableOk(rows, offset) && c.WellFormed() && Stamped(stamp, offset)
    ensures var d := c.ToDraft(stamp);
            var inserted := InsertRow(rows, d);
            var replay := Replay(Unbounded, c.gameId,
                                 GameLog(rows, c.gameId, offset) + [DomainOf(WithId(MaxId(rows) + 1, d), offset)]);
            && (inserted.Success? <==> replay.Success?)
            && (inserted.Failure? ==> NamesReason(CommandErrorOf(c, inserted.error), replay.error))
  {
    hide Stamped, InstantOf, Replay, GameLog, InsertRow, TriggerError, MaxId, SameRefusal, NamesReason, CommandErrorOf;
    var d := c.ToDraft(stamp);
    ReplayOrderIsInsertionOrder(rows, c.gameId);
    TriggerAgreesWithReplay(rows, d, MaxId(rows) + 1, offset);
    TriggerDecides(rows, c, stamp);
    if InsertRow(rows, d).Failure? {
      var ia := DomainOf(WithId(MaxId(rows) + 1, d), offset);
      ErrorNamesReason(c, InsertRow(rows, d).error,
                       Replay(Unbounded, c.gameId, GameLog(rows, c.gameId, offset) + [ia]));
    }
  }
}
