/**
 * The two guards agree: the write-side trigger and the read-side replay.
 *
 * The trigger sees text timestamps and the newest row's action; the replay sees the whole log.
 * The second half carries the agreement through every insertion.
 */
module GuardEquivalence {
  import opened Prelude
  import opened Text
  import opened DeadlineClock
  import opened ClockLaws
  import opened InteractionTable
  import opened Mapping
  import opened GoTime
  import Timestamps

  /** What `ListInteractionsForReplay` returns for a game. */
  function ReplayRows(rows: seq<Row>, gameId: int): seq<Row> {
    OrderAsc(Select(rows, OfGame(gameId)))
  }

  lemma ReplayRowsMembers(rows: seq<Row>, gameId: int)
    ensures forall r :: r in ReplayRows(rows, gameId) <==> r in rows && r.gameId == gameId
    ensures SortedAsc(ReplayRows(rows, gameId))
  {
    OrderAscMembers(Select(rows, OfGame(gameId)));
    OrderAscSorts(Select(rows, OfGame(gameId)));
  }

  /** The log the read side replays for a game. */
  ghost function GameLog(rows: seq<Row>, gameId: int, offset: int): seq<Interaction>
    requires AllStamped(rows, offset)
  {
    ReplayRowsMembers(rows, gameId);
    DomainLog(ReplayRows(rows, gameId), offset)
  }

  /** The newest row, as the trigger's subquery finds it, is the last row of the replay. */
  lemma LatestIsLast(rows: seq<Row>, gameId: int)
    requires DistinctIds(rows)
    ensures var log := ReplayRows(rows, gameId);
            LatestAction(rows, gameId) == if log == [] then None else Some(Last(log).action)
  {
    SelectKeepsDistinctIds(rows, OfGame(gameId));
    DescIsReversedAsc(Select(rows, OfGame(gameId)));
  }

  /** Some row of the game is later than the draft exactly when the last row of the replay is. */
  lemma PrecedesIffBeforeLast(rows: seq<Row>, d: Draft)
    ensures var log := ReplayRows(rows, d.gameId);
            HasLaterRow(rows, d) <==> log != [] && TextLess(d.occurredAt, Last(log).occurredAt)
  {
    var log := ReplayRows(rows, d.gameId);
    ReplayRowsMembers(rows, d.gameId);
    if log != [] { assert Last(log) in log; }
    forall r | r in rows && r.gameId == d.gameId && TextLess(d.occurredAt, r.occurredAt)
      ensures TextLess(d.occurredAt, Last(log).occurredAt)
    {
      LastIsGreatest(log, r);
      TextLessTrichotomy(Last(log).occurredAt, r.occurredAt);
      if TextLess(r.occurredAt, Last(log).occurredAt) {
        TextLessTransitive(d.occurredAt, r.occurredAt, Last(log).occurredAt);
      }
    }
  }

  /** The refusal of one guard, seen as the refusal of the other. */
  ghost predicate SameRefusal(trigger: Option<DbError>, replay: Result<Clock, ReplayError>) {
    match trigger
    case None => replay.Success?
    case Some(OccurredAtPrecedes) => replay.Failure? && replay.error.OutOfOrder?
    case Some(CannotSaveWhilePaused) => replay.Failure? && replay.error.SaveWhilePaused?
    case Some(CannotPauseNotPlaying) => replay.Failure? && replay.error.CannotPause?
    case Some(CannotResumeNotPaused) => replay.Failure? && replay.error.CannotResume?
    case Some(CheckViolated) => false
  }

  /** What the trigger's subquery knows about a replayed state. */
  ghost predicate Knows(c: Clock, latest: Option<string>) {
    if c.status == NotStarted then latest == None
    else latest.Some? && latest.value in {SAVED, PAUSED, RESUMED} && (latest.value == PAUSED <==> c.status == Paused)
  }

  lemma GuardAgreesWithStep(gameId: int, c: Clock, latest: Option<string>, ia: Interaction)
    requires c.Consistent() && Knows(c, latest)
    requires ia.gameId == gameId && ia.action in {SAVED, PAUSED, RESUMED}
    requires ia.action == SAVED ==> ia.savedBy.Some? && ia.savedBy.value > 0
    ensures var hasLater := c.prevOccurredAt != 0 && ia.occurredAt < c.prevOccurredAt;
            SameRefusal(Guard(hasLater, latest, ia.action), Step(Unbounded, gameId, c, ia))
  {}

  /**
   * Guard equivalence.  Take any table whose timestamps share one zone and any game whose log
   * replays.  For a draft that satisfies the CHECK constraints, the trigger admits it if and only if
   * the log with the new row appended still replays; and when it refuses, the replay would have
   * failed for the same reason.
   */
  lemma TriggerAgreesWithReplay(rows: seq<Row>, d: Draft, id: int, offset: int)
    requires DistinctIds(rows) && AllStamped(rows, offset)
    requires Replays(d.gameId, GameLog(rows, d.gameId, offset))
    requires ChecksHold(d) && Stamped(d.occurredAt, offset)
    ensures var appended := GameLog(rows, d.gameId, offset) + [DomainOf(WithId(id, d), offset)];
            && (TriggerError(rows, d).None? <==> Replays(d.gameId, appended))
            && SameRefusal(TriggerError(rows, d), Replay(Unbounded, d.gameId, appended))
  {
    hide Stamped, InstantOf;
    var last, log := ReplayRows(rows, d.gameId), GameLog(rows, d.gameId, offset);
    ReplayRowsMembers(rows, d.gameId);
    LatestIsLast(rows, d.gameId);
    PrecedesIffBeforeLast(rows, d);
    if log != [] {
      assert Last(last) in last && Last(log) == DomainOf(Last(last), offset);
      StampOrder(d.occurredAt, Last(last).occurredAt, offset);
    }
    LastActionDecidesStatus(Unbounded, d.gameId, log);
    var ia := DomainOf(WithId(id, d), offset);
    GuardAgreesWithStep(d.gameId, ClockOf(d.gameId, log), LatestAction(rows, d.gameId), ia);
    ReplayAppend(Unbounded, d.gameId, log, ia);
  }

  // ----- What every insertion keeps ------------------------------------------------------------

  /** Later rows have larger ids and, within a game, no earlier timestamp. */
  ghost predicate InsertionOrdered(rows: seq<Row>) {
    forall i, j :: 0 <= i < j < |rows| ==>
      && rows[i].id < rows[j].id
      && (rows[i].gameId == rows[j].gameId ==> !TextLess(rows[j].occurredAt, rows[i].occurredAt))
  }

  /** The table invariant: ordered, one zone, and every game's log replays. */
  ghost predicate TableOk(rows: seq<Row>, offset: int) {
    && InsertionOrdered(rows)
    && AllStamped(rows, offset)
    && forall g :: Replays(g, GameLog(rows, g, offset))
  }

  lemma {:induction false} SelectKeepsOrder(rows: seq<Row>, w: Where)
    requires InsertionOrdered(rows)
    ensures InsertionOrdered(Select(rows, w))
  {
    if rows != [] {
      var front, sel := Front(rows), Select(Front(rows), w);
      SelectKeepsOrder(front, w);
      forall i | 0 <= i < |sel|
        ensures sel[i].id < Last(rows).id
        ensures sel[i].gameId == Last(rows).gameId ==> !TextLess(Last(rows).occurredAt, sel[i].occurredAt)
      {
        assert sel[i] in front;
        var k :| 0 <= k < |front| && front[k] == sel[i];
        assert rows[k] == sel[i];
      }
    }
  }

  lemma {:induction false} OrderedIsFixed(s: seq<Row>, gameId: int)
    requires InsertionOrdered(s) && forall i :: 0 <= i < |s| ==> s[i].gameId == gameId
    ensures OrderAsc(s) == s
  {
    hide TextLess;
    if |s| > 1 {
      OrderedIsFixed(Front(s), gameId);
      assert !RowLess(Last(s), Last(Front(s)));
      hide RowLess, InsertionOrdered;
      assert s == Front(s) + [Last(s)];
    }
  }

  /** In an ordered table both orderings of a game's rows, or of a player's, are the insertion order. */
  lemma OrderIsInsertionOrder(rows: seq<Row>, w: Where)
    requires InsertionOrdered(rows)
    ensures OrderAsc(Select(rows, w)) == Select(rows, w)
    ensures OrderDesc(Select(rows, w)) == Reverse(Select(rows, w))
  {
    SelectKeepsOrder(rows, w);
    forall i | 0 <= i < |Select(rows, w)| ensures Select(rows, w)[i].gameId == w.gameId {
      assert Select(rows, w)[i] in Select(rows, w);
    }
    OrderedIsFixed(Select(rows, w), w.gameId);
    SelectKeepsDistinctIds(rows, w);
    DescIsReversedAsc(Select(rows, w));
  }

  /** In an ordered table the replay order of a game is its insertion order. */
  lemma ReplayOrderIsInsertionOrder(rows: seq<Row>, gameId: int)
    requires InsertionOrdered(rows)
    ensures DistinctIds(rows)
    ensures ReplayRows(rows, gameId) == Select(rows, OfGame(gameId))
    ensures OrderDesc(Select(rows, OfGame(gameId))) == Reverse(Select(rows, OfGame(gameId)))
  {
    OrderIsInsertionOrder(rows, OfGame(gameId));
  }

  lemma InsertKeepsOrder(rows: seq<Row>, d: Draft)
    requires InsertionOrdered(rows) && InsertRow(rows, d).Success?
    ensures InsertionOrdered(rows + [InsertRow(rows, d).value])
  {}

  /** An accepted insert appends to its own game's log and leaves every other game's log alone. */
  lemma InsertAppendsToLog(rows: seq<Row>, d: Draft, g: int, offset: int)
    requires InsertionOrdered(rows) && AllStamped(rows, offset)
    requires InsertRow(rows, d).Success? && Stamped(d.occurredAt, offset)
    ensures var r := InsertRow(rows, d).value;
            && AllStamped(rows + [r], offset)
            && GameLog(rows + [r], g, offset) ==
                 GameLog(rows, g, offset) + if g == d.gameId then [DomainOf(r, offset)] else []
  {
    hide Stamped, InstantOf, TextLess, TriggerError, MaxId, ChecksHold, OrderAsc, OrderDesc;
    var r := InsertRow(rows, d).value;
    InsertKeepsOrder(rows, d);
    ReplayOrderIsInsertionOrder(rows, g);
    ReplayOrderIsInsertionOrder(rows + [r], g);
    SelectAppend(rows, r, OfGame(g));
    ReplayRowsMembers(rows, g);
    DomainLogAppend(ReplayRows(rows, g), r, offset);
  }

  lemma InsertKeepsTableOk(rows: seq<Row>, d: Draft, offset: int)
    requires TableOk(rows, offset) && InsertRow(rows, d).Success? && Stamped(d.occurredAt, offset)
    ensures TableOk(rows + [InsertRow(rows, d).value], offset)
  {
    var r := InsertRow(rows, d).value;
    InsertKeepsOrder(rows, d);
    InsertAppendsToLog(rows, d, d.gameId, offset);
    ReplayOrderIsInsertionOrder(rows, d.gameId);
    TriggerAgreesWithReplay(rows, d, r.id, offset);
    forall g ensures Replays(g, GameLog(rows + [r], g, offset)) {
      InsertAppendsToLog(rows, d, g, offset);
    }
  }

  /** The instants of a stored log are after the zero time, so the order test is never skipped. */
  lemma GameLogAfterZero(rows: seq<Row>, gameId: int, offset: int)
    requires AllStamped(rows, offset)
    ensures AfterZeroTime(GameLog(rows, gameId, offset))
  {
    var log := GameLog(rows, gameId, offset);
    ReplayRowsMembers(rows, gameId);
    forall i | 0 <= i < |log| ensures log[i].occurredAt > 0 {
      assert ReplayRows(rows, gameId)[i] in ReplayRows(rows, gameId);
    }
  }

  /** The trigger never stores the log that defeats the order test of the replay. */
  lemma TriggerRefusesDropFromZero()
    ensures Timestamps.Formattable(0, 0) && Timestamps.Formattable(-5 * SECOND, 0)
    ensures var save := Row(1, 1, None, SAVED, Timestamps.Format(0, 0), Some(60));
            var pause := Draft(1, None, PAUSED, Timestamps.Format(-5 * SECOND, 0), None);
            InsertRow([save], pause) == Failure(OccurredAtPrecedes)
  {
    hide Timestamps.Format, TextLess;
    Timestamps.FormatOrderIff(-5 * SECOND, 0, 0);
    var save := Row(1, 1, None, SAVED, Timestamps.Format(0, 0), Some(60));
    assert save in [save];
  }

  /** The empty table satisfies the invariant, and a first save is always admitted. */
  lemma FirstSaveAdmitted(gameId: int, playerId: int, duration: int, t: int, offset: int)
    requires duration > 0 && t >= SECOND && Timestamps.Formattable(t, offset)
    ensures Timestamps.Formattable(SECOND, 0)
    ensures TableOk([], offset) && Stamped(Timestamps.Format(t, offset), offset)
    ensures InsertRow([], Draft(gameId, Some(playerId), SAVED, Timestamps.Format(t, offset), Some(duration))).Success?
  {
    hide Timestamps.Format;
    assert |SAVED| == 5 && |PAUSED| == 6 && |RESUMED| == 7;
    forall g ensures Replays(g, GameLog([], g, offset)) {
      assert Select([], OfGame(g)) == [];
    }
  }
}
