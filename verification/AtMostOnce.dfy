/**
 * The composition: what the idempotency protocol and the guarded table guarantee together.
 *
 * Every reachable log replays; and a save retried under one key within a TTL reaches the table, and
 * so the deadline, at most once.
 */
module AtMostOnce {
  import opened Prelude
  import opened GoTime
  import opened DeadlineClock
  import opened ClockLaws
  import opened InteractionTable
  import opened Mapping
  import opened GuardEquivalence
  import opened IdempotencyStore
  import opened GameCommands
  import opened System
  import opened KeyLifetime
  import IdempotencyRecord
  import MachineBound
  import Timestamps

  // ----- Every reachable log replays -----------------------------------------------------------

  /** The table invariant, and what the running commands are about to insert. */
  ghost predicate TableInv(cfg: Config, s: Sys) {
    && TableOk(s.rows, cfg.offset)
    && |s.origins| == |s.rows|
    && (forall id :: id in s.reqs && s.reqs[id].phase.Timed? ==>
          Stamped(s.reqs[id].phase.stamp, cfg.offset) && s.reqs[id].request.command.WellFormed())
  }

  lemma InsertKeepsTableInv(cfg: Config, s: Sys, id: nat, replyLost: bool)
    requires TableInv(cfg, s) && id in s.reqs && DoInsert(s, id, s.reqs[id], replyLost).Some?
    ensures TableInv(cfg, DoInsert(s, id, s.reqs[id], replyLost).value)
  {
    hide Stamped, TableOk, InsertRow;
    var d := s.reqs[id].request.command.ToDraft(s.reqs[id].phase.stamp);
    if InsertRow(s.rows, d).Success? {
      InsertKeepsTableOk(s.rows, d, cfg.offset);
    }
  }

  lemma ReadClockKeepsTableInv(cfg: Config, s: Sys, id: nat, t: int)
    requires TableInv(cfg, s) && id in s.reqs && DoReadClock(cfg, s, id, s.reqs[id], t).Some?
    ensures TableInv(cfg, DoReadClock(cfg, s, id, s.reqs[id], t).value)
  {
    hide TableOk, Timestamps.Formattable, Timestamps.Format;
    assert Stamped(Timestamps.Format(t, cfg.offset), cfg.offset);
  }

  /** Steps other than an insert leave the table alone. */
  lemma OtherStepsKeepTable(cfg: Config, s: Sys, a: Action)
    requires Apply(cfg, s, a).Some? && !a.Insert? && !a.ReadClock?
    ensures var t := Apply(cfg, s, a).value;
            && t.rows == s.rows && t.origins == s.origins
            && forall id :: id in t.reqs && t.reqs[id].phase.Timed? ==> id in s.reqs && t.reqs[id] == s.reqs[id]
  {
    hide Timestamps.Format, Timestamps.Formattable, IdempotencyRecord.ValidKey, IdempotencyRecord.StoreKey;
    hide Get, StatusCode, BodyBytes, StatusOf;
  }

  lemma TableUnchanged(cfg: Config, s: Sys, a: Action)
    requires Apply(cfg, s, a).Some? && !a.Insert?
    ensures Apply(cfg, s, a).value.rows == s.rows && Apply(cfg, s, a).value.origins == s.origins
  {}

  lemma StepKeepsTableInv(cfg: Config, s: Sys, a: Action)
    requires TableInv(cfg, s) && Apply(cfg, s, a).Some?
    ensures TableInv(cfg, Apply(cfg, s, a).value)
  {
    hide Stamped, TableOk;
    match a
    case Insert(id, replyLost) => InsertKeepsTableInv(cfg, s, id, replyLost);
    case ReadClock(id, t) => ReadClockKeepsTableInv(cfg, s, id, t);
    case _ =>
      OtherStepsKeepTable(cfg, s, a);
      hide Apply;
  }

  lemma {:induction false} RunKeepsTableInv(cfg: Config, init: Sys, trace: seq<Action>)
    requires Initial(init) && TableOk(init.rows, cfg.offset) && Exec(cfg, init, trace).Some?
    ensures TableInv(cfg, Exec(cfg, init, trace).value)
  {
    hide TableOk, Stamped;
    if trace != [] {
      RunKeepsTableInv(cfg, init, Front(trace));
      StepKeepsTableInv(cfg, Exec(cfg, init, Front(trace)).value, Last(trace));
    }
  }

  /**
   * Every reachable log replays.  Whatever the players do, in whatever order they read their clocks
   * and insert, and even if those clocks disagree or run backwards: each game's rows in replay order
   * are its rows in insertion order, they all map to the domain, and the program's replay accepts
   * them.
   */
  lemma EveryReachableLogReplays(cfg: Config, init: Sys, trace: seq<Action>, gameId: int)
    requires Initial(init) && TableOk(init.rows, cfg.offset) && Exec(cfg, init, trace).Some?
    ensures var rows := Exec(cfg, init, trace).value.rows;
            && ReplayRows(rows, gameId) == Select(rows, OfGame(gameId))
            && AllStamped(rows, cfg.offset)
            && MapsTo(ReplayRows(rows, gameId), Success(GameLog(rows, gameId, cfg.offset)))
            && AfterZeroTime(GameLog(rows, gameId, cfg.offset))
            && Replay(Int64, gameId, GameLog(rows, gameId, cfg.offset)).Success?
  {
    hide Stamped, InstantOf, Timestamps.Parse, Replay;
    var rows := Exec(cfg, init, trace).value.rows;
    RunKeepsTableInv(cfg, init, trace);
    ReplayOrderIsInsertionOrder(rows, gameId);
    ReplayRowsMembers(rows, gameId);
    StampedRowsMap(ReplayRows(rows, gameId), cfg.offset);
    GameLogAfterZero(rows, gameId, cfg.offset);
    MachineBound.AcceptanceIgnoresArithmetic(gameId, GameLog(rows, gameId, cfg.offset));
  }

  // ----- At most one row per execution ---------------------------------------------------------

  predicate IsUndecided(p: Phase) {
    p == Running || p.Timed?
  }

  /** The requests of a key that are inside the handler and have not decided yet. */
  function Undecided(s: Sys, key: string): set<nat> {
    set id | id in s.reqs && s.reqs[id].key == Some(key) && IsUndecided(s.reqs[id].phase)
  }

  /** Who can be undecided after a step: whoever was, unless it just inserted, or who just entered. */
  lemma StepMovesOneRequest(cfg: Config, s: Sys, a: Action)
    requires Apply(cfg, s, a).Some? && !a.Tick? && !a.Expire?
    ensures var t := Apply(cfg, s, a).value;
            && a.id in t.reqs && t.reqs == s.reqs[a.id := t.reqs[a.id]]
            && (a.id in s.reqs ==> t.reqs[a.id].key == s.reqs[a.id].key && t.reqs[a.id].request == s.reqs[a.id].request)
            && (a.Arrive? ==> a.id !in s.reqs && t.reqs[a.id] == Admit(a.request))
            && (!a.Arrive? ==> a.id in s.reqs)
            && (IsUndecided(t.reqs[a.id].phase) ==>
                  if a.Arrive? then t.reqs[a.id].key.None?
                  else if a.AcquireKey? then a.fault == NoFault && Wins(s, s.reqs[a.id], a.fault)
                  else IsUndecided(s.reqs[a.id].phase) && !a.Insert?)
  {
    hide Timestamps.Format, Timestamps.Formattable, IdempotencyRecord.ValidKey, IdempotencyRecord.StoreKey;
    hide Get, StatusCode, BodyBytes, StatusOf, InsertRow;
  }

  /** How the undecided requests of a key change when one request moves. */
  lemma UndecidedMoved(s: Sys, t: Sys, id: nat, key: string)
    requires id in t.reqs && t.reqs == s.reqs[id := t.reqs[id]]
    requires id in s.reqs ==> t.reqs[id].key == s.reqs[id].key
    ensures var r, n, m := t.reqs[id], |Undecided(s, key)|, |Undecided(t, key)|;
            && m <= n + 1
            && ((IsUndecided(r.phase) && r.key == Some(key) ==> id in s.reqs && IsUndecided(s.reqs[id].phase)) ==>
                  m <= n)
    ensures id in Undecided(s, key) && !IsUndecided(t.reqs[id].phase) ==> |Undecided(t, key)| < |Undecided(s, key)|
  {
    SubsetSize(Undecided(t, key), Undecided(s, key) + {id});
    if Undecided(t, key) <= Undecided(s, key) { SubsetSize(Undecided(t, key), Undecided(s, key)); }
    if id in Undecided(s, key) && !IsUndecided(t.reqs[id].phase) {
      SubsetSize(Undecided(t, key), Undecided(s, key) - {id});
    }
  }

  /** Each step moves at most one request in or out, in step with the two counters. */
  lemma UndecidedChange(cfg: Config, s: Sys, a: Action, key: string)
    requires Apply(cfg, s, a).Some?
    ensures (if Happens(Inserted(key), s, a) then 1 else 0) + |Undecided(Apply(cfg, s, a).value, key)| <=
            |Undecided(s, key)| + if Happens(Entered(key), s, a) then 1 else 0
  {
    var t := Apply(cfg, s, a).value;
    if a.Tick? || a.Expire? {
      assert Undecided(t, key) == Undecided(s, key);
    } else {
      StepMovesOneRequest(cfg, s, a);
      hide Apply, InsertRow, Admit;
      UndecidedMoved(s, t, a.id, key);
      if Happens(Inserted(key), s, a) { assert a.id in Undecided(s, key); }
    }
  }

  lemma {:induction false} SubsetSize<T>(a: set<T>, b: set<T>)
    requires a <= b
    ensures |a| <= |b|
  {
    if a != {} {
      var x :| x in a;
      SubsetSize(a - {x}, b - {x});
    }
  }

  /** An execution appends at most one row, so rows are bounded by executions. */
  lemma {:induction false} RowsWithinExecutions(cfg: Config, init: Sys, trace: seq<Action>, key: string)
    requires Initial(init) && Exec(cfg, init, trace).Some?
    ensures Count(cfg, init, trace, Inserted(key)) + |Undecided(Exec(cfg, init, trace).value, key)| <=
            Count(cfg, init, trace, Entered(key))
  {
    if trace != [] {
      RowsWithinExecutions(cfg, init, Front(trace), key);
      UndecidedChange(cfg, Exec(cfg, init, Front(trace)).value, Last(trace), key);
    }
  }

  /** The rows appended on behalf of a key. */
  function RowsOf(origins: seq<Option<string>>, key: string): nat {
    if origins == [] then 0 else RowsOf(Front(origins), key) + if Last(origins) == Some(key) then 1 else 0
  }

  lemma {:induction false} NoOrigins(origins: seq<Option<string>>, key: string)
    requires forall i :: 0 <= i < |origins| ==> origins[i] == None
    ensures RowsOf(origins, key) == 0
  {
    if origins != [] { NoOrigins(Front(origins), key); }
  }

  lemma OriginsChange(cfg: Config, s: Sys, a: Action, key: string)
    requires Apply(cfg, s, a).Some?
    ensures RowsOf(Apply(cfg, s, a).value.origins, key) ==
            RowsOf(s.origins, key) + if Happens(Inserted(key), s, a) then 1 else 0
  {
    match a
    case Insert(id, _) => assert Front(s.origins + [s.reqs[id].key]) == s.origins;
    case _ =>
      TableUnchanged(cfg, s, a);
      hide Apply;
  }

  lemma {:induction false} OriginsCountInserts(cfg: Config, init: Sys, trace: seq<Action>, key: string)
    requires Initial(init) && Exec(cfg, init, trace).Some?
    ensures RowsOf(Exec(cfg, init, trace).value.origins, key) == Count(cfg, init, trace, Inserted(key))
  {
    if trace == [] {
      NoOrigins(init.origins, key);
    } else {
      OriginsCountInserts(cfg, init, Front(trace), key);
      OriginsChange(cfg, Exec(cfg, init, Front(trace)).value, Last(trace), key);
    }
  }

  /** In any run a key appends at most one row more than it expired; within a span of one TTL, at most one. */
  lemma RowsPerKey(cfg: Config, init: Sys, trace: seq<Action>, key: string, from: int, span: int)
    requires cfg.Valid() && Initial(init) && Exec(cfg, init, trace).Some?
    ensures RowsOf(Exec(cfg, init, trace).value.origins, key) <= 1 + Count(cfg, init, trace, Expired(key))
    ensures span <= cfg.Ttl() && WithinSpan(cfg, init, trace, key, from, span) ==>
              RowsOf(Exec(cfg, init, trace).value.origins, key) <= 1
  {
    OriginsCountInserts(cfg, init, trace, key);
    RowsWithinExecutions(cfg, init, trace, key);
    ExecutionAccounting(cfg, init, trace, key);
    if span <= cfg.Ttl() && WithinSpan(cfg, init, trace, key, from, span) {
      WonOncePerWindow(cfg, init, trace, key, from, span);
    }
  }

  // ----- The deadline --------------------------------------------------------------------------

  function SavedRow(r: Row): int {
    if r.action == SAVED && r.savedBy.Some? then r.savedBy.value * SECOND else 0
  }

  /** The time saved in a game by the rows of a key, or by all the other rows. */
  function SavedFor(rows: seq<Row>, origins: seq<Option<string>>, gameId: int, key: string, ofKey: bool): int
    requires |origins| == |rows|
  {
    if rows == [] then 0 else
    SavedFor(Front(rows), Front(origins), gameId, key, ofKey) +
      if Last(rows).gameId == gameId && (Last(origins) == Some(key)) == ofKey then SavedRow(Last(rows)) else 0
  }

  lemma {:induction false} SavedSplits(rows: seq<Row>, origins: seq<Option<string>>, gameId: int, key: string,
                                          offset: int)
    requires |origins| == |rows| && AllStamped(rows, offset)
    ensures AllStamped(Select(rows, OfGame(gameId)), offset)
    ensures TotalSaved(DomainLog(Select(rows, OfGame(gameId)), offset)) ==
            SavedFor(rows, origins, gameId, key, true) + SavedFor(rows, origins, gameId, key, false)
  {
    hide Stamped, InstantOf;
    if rows != [] {
      var front, r := Front(rows), Last(rows);
      assert r in rows;
      SavedSplits(front, Front(origins), gameId, key, offset);
      if r.gameId == gameId {
        var log := DomainLog(Select(front, OfGame(gameId)), offset);
        DomainLogAppend(Select(front, OfGame(gameId)), r, offset);
        assert Front(log + [DomainOf(r, offset)]) == log;
      }
    }
  }

  /** Every request that arrives under the key carries the same command: they are retries of it. */
  ghost predicate OnlyRetries(trace: seq<Action>, key: string, c: Command) {
    forall i :: 0 <= i < |trace| && trace[i].Arrive? && Admit(trace[i].request).key == Some(key) ==>
      trace[i].request.command == c
  }

  ghost predicate Carries(s: Sys, key: string, c: Command) {
    && |s.origins| == |s.rows|
    && (forall id :: id in s.reqs && s.reqs[id].key == Some(key) ==> s.reqs[id].request.command == c)
    && (forall i :: 0 <= i < |s.rows| && s.origins[i] == Some(key) ==>
          s.rows[i] == WithId(s.rows[i].id, c.ToDraft(s.rows[i].occurredAt)))
  }

  lemma InsertCarries(s: Sys, id: nat, replyLost: bool, key: string, c: Command)
    requires Carries(s, key, c) && id in s.reqs && DoInsert(s, id, s.reqs[id], replyLost).Some?
    ensures Carries(DoInsert(s, id, s.reqs[id], replyLost).value, key, c)
  {
    hide TriggerError, MaxId;
  }

  lemma MoveCarries(s: Sys, t: Sys, id: nat, key: string, c: Command)
    requires Carries(s, key, c) && t.rows == s.rows && t.origins == s.origins
    requires id in t.reqs && t.reqs == s.reqs[id := t.reqs[id]]
    requires if id in s.reqs then t.reqs[id].key == s.reqs[id].key && t.reqs[id].request == s.reqs[id].request
             else t.reqs[id].key == Some(key) ==> t.reqs[id].request.command == c
    ensures Carries(t, key, c)
  {
    hide Command.ToDraft;
  }

  lemma TimeCarries(s: Sys, t: Sys, key: string, c: Command)
    requires Carries(s, key, c) && t.rows == s.rows && t.origins == s.origins && t.reqs == s.reqs
    ensures Carries(t, key, c)
  {
    hide Command.ToDraft;
  }

  lemma StepCarries(cfg: Config, s: Sys, a: Action, key: string, c: Command)
    requires Carries(s, key, c) && Apply(cfg, s, a).Some?
    requires a.Arrive? && Admit(a.request).key == Some(key) ==> a.request.command == c
    ensures Carries(Apply(cfg, s, a).value, key, c)
  {
    hide Carries, IdempotencyRecord.ValidKey, IdempotencyRecord.StoreKey;
    match a
    case Insert(id, replyLost) => InsertCarries(s, id, replyLost, key, c);
    case Tick(_) => TimeCarries(s, Apply(cfg, s, a).value, key, c);
    case Expire(_) => TimeCarries(s, Apply(cfg, s, a).value, key, c);
    case _ =>
      StepMovesOneRequest(cfg, s, a);
      TableUnchanged(cfg, s, a);
      hide Apply;
      MoveCarries(s, Apply(cfg, s, a).value, a.id, key, c);
  }

  lemma {:induction false} RunCarries(cfg: Config, init: Sys, trace: seq<Action>, key: string, c: Command)
    requires Initial(init) && Exec(cfg, init, trace).Some? && OnlyRetries(trace, key, c)
    ensures Carries(Exec(cfg, init, trace).value, key, c)
  {
    if trace != [] {
      forall i | 0 <= i < |Front(trace)| && Front(trace)[i].Arrive? && Admit(Front(trace)[i].request).key == Some(key)
        ensures Front(trace)[i].request.command == c
      {
        assert trace[i] == Front(trace)[i];
      }
      RunCarries(cfg, init, Front(trace), key, c);
      StepCarries(cfg, Exec(cfg, init, Front(trace)).value, Last(trace), key, c);
    }
  }

  lemma {:induction false} ContributionOfRetries(rows: seq<Row>, origins: seq<Option<string>>, key: string, c: Command)
    requires |origins| == |rows| && c.Save? && RowsOf(origins, key) <= 1
    requires forall i :: 0 <= i < |rows| && origins[i] == Some(key) ==>
               rows[i] == WithId(rows[i].id, c.ToDraft(rows[i].occurredAt))
    ensures SavedFor(rows, origins, c.gameId, key, true) == if RowsOf(origins, key) == 1 then c.duration * SECOND else 0
  {
    if rows != [] {
      ContributionOfRetries(Front(rows), Front(origins), key, c);
    }
  }

  /** The deadline of a game, with the contribution of one key set apart. */
  ghost predicate DeadlineSplits(rows: seq<Row>, origins: seq<Option<string>>, offset: int, gameId: int, key: string,
                                 saved: int)
    requires |origins| == |rows| && AllStamped(rows, offset)
  {
    var log := GameLog(rows, gameId, offset);
    && Replays(gameId, log)
    && (log != [] ==>
          ClockOf(gameId, log).deadlineAt ==
          Some(log[0].occurredAt + PausedTime(log) + SavedFor(rows, origins, gameId, key, false) + saved))
    && (MachineBound.FitsInt64(log) && |log| <= MachineBound.MAX_ROWS ==>
          Replay(Int64, gameId, log) == Replay(Unbounded, gameId, log))
  }

  lemma TableSaved(rows: seq<Row>, origins: seq<Option<string>>, offset: int, gameId: int, key: string)
    requires TableOk(rows, offset) && |origins| == |rows|
    ensures AllStamped(rows, offset) && Replays(gameId, GameLog(rows, gameId, offset))
    ensures TotalSaved(GameLog(rows, gameId, offset)) ==
            SavedFor(rows, origins, gameId, key, true) + SavedFor(rows, origins, gameId, key, false)
  {
    hide Stamped, InstantOf, Replay, TotalSaved, SavedFor, InsertionOrdered;
    SavedSplits(rows, origins, gameId, key, offset);
    ReplayOrderIsInsertionOrder(rows, gameId);
  }

  lemma TableDeadline(rows: seq<Row>, origins: seq<Option<string>>, offset: int, gameId: int, key: string)
    requires TableOk(rows, offset) && |origins| == |rows| && AllStamped(rows, offset)
    ensures DeadlineSplits(rows, origins, offset, gameId, key, SavedFor(rows, origins, gameId, key, true))
  {
    hide Stamped, InstantOf, Replay, TableOk, GameLog, SavedFor, PausedTime, MachineBound.FitsInt64;
    TableSaved(rows, origins, offset, gameId, key);
    var log := GameLog(rows, gameId, offset);
    if log != [] { DeadlineFormula(gameId, log); }
    if MachineBound.FitsInt64(log) && |log| <= MachineBound.MAX_ROWS {
      MachineBound.StampedLogExact(rows, gameId, offset, 0);
    }
  }

  /**
   * End to end, at most once.  Take any run in which all requests with one key are retries of one
   * save, all trying to acquire the key within a span of at most one TTL; anything else may happen
   * around them.
   * Then at most one row of the table is theirs, and the replayed deadline is the first save's
   * instant, plus everything saved by other rows, plus the completed pauses, plus the retried
   * duration once or not at all.  The program's own replay reports that deadline whenever no
   * duration in the log overflows.
   */
  lemma SaveCountedAtMostOnce(cfg: Config, init: Sys, trace: seq<Action>, key: string, c: Command, from: int,
                              span: int)
    requires cfg.Valid() && Initial(init) && TableOk(init.rows, cfg.offset) && Exec(cfg, init, trace).Some?
    requires c.Save? && OnlyRetries(trace, key, c)
    requires span <= cfg.Ttl() && WithinSpan(cfg, init, trace, key, from, span)
    ensures var s := Exec(cfg, init, trace).value;
            && RowsOf(s.origins, key) <= 1
            && |s.origins| == |s.rows| && AllStamped(s.rows, cfg.offset)
            && DeadlineSplits(s.rows, s.origins, cfg.offset, c.gameId, key,
                              if RowsOf(s.origins, key) == 1 then c.duration * SECOND else 0)
  {
    hide Stamped, GameLog, DeadlineSplits, WithinSpan, AllStamped;
    var s := Exec(cfg, init, trace).value;
    RowsPerKey(cfg, init, trace, key, from, span);
    RunKeepsTableInv(cfg, init, trace);
    RunCarries(cfg, init, trace, key, c);
    ContributionOfRetries(s.rows, s.origins, key, c);
    TableDeadline(s.rows, s.origins, cfg.offset, c.gameId, key);
  }
}
