/**
 * Exactly how far the two promises of the idempotency key reach.
 *
 * A retried save is counted at most once in all runs if and only if its tries always lie less than
 * one effective TTL apart; and a replay is the latest execution's answer in all runs if and only if
 * a Complete always lands less than one effective TTL after its Acquire.
 */
module Limits {
  import opened Prelude
  import opened GoTime
  import opened InteractionTable
  import opened Mapping
  import opened GuardEquivalence
  import opened IdempotencyRecord
  import opened IdempotencyStore
  import opened GameCommands
  import opened System
  import opened Executions
  import opened KeyLifetime
  import opened AtMostOnce
  import opened ReplayFidelity
  import Text
  import Timestamps

  // ----- A save tried again after its key expired ----------------------------------------------

  /** A save under a well-formed key, and two clock readings, the later one not earlier. */
  predicate Retry(cfg: Config, q: Request, t: int, t': int) {
    && q.rawKey != "" && ValidKey(q.rawKey)
    && q.command.Save? && q.command.WellFormed()
    && SECOND <= t <= t' && Timestamps.Formattable(t, cfg.offset) && Timestamps.Formattable(t', cfg.offset)
  }

  function KeyOf(q: Request): string {
    StoreKey(ActorOf(q.claim), q.rawKey)
  }

  /** The row of the save, read at `t`. */
  function SaveRow(cfg: Config, id: int, q: Request, t: int): Row
    requires Timestamps.Formattable(t, cfg.offset)
  {
    WithId(id, q.command.ToDraft(Timestamps.Format(t, cfg.offset)))
  }

  /** Both tries are admitted: the first by the empty table, the second after the first. */
  lemma BothSavesAdmitted(cfg: Config, q: Request, t: int, t': int)
    requires Retry(cfg, q, t, t')
    ensures TableOk([], cfg.offset)
    ensures var first := SaveRow(cfg, 1, q, t);
            && InsertRow([], q.command.ToDraft(Timestamps.Format(t, cfg.offset))) == Success(first)
            && InsertRow([first], q.command.ToDraft(Timestamps.Format(t', cfg.offset))) ==
                 Success(SaveRow(cfg, 2, q, t'))
  {
    hide Timestamps.Format, Timestamps.Formattable, ValidKey, Text.TextLess, TableOk, Stamped, InsertRow;
    var c := q.command;
    FirstSaveAdmitted(c.gameId, c.playerId, c.duration, t, cfg.offset);
    FirstSave(c, Timestamps.Format(t, cfg.offset));
    SecondSave(c, Timestamps.Format(t, cfg.offset), c, Timestamps.Format(t', cfg.offset));
    Timestamps.FormatOrderIff(t', t, cfg.offset);
    assert t / SECOND <= t' / SECOND;
  }

  /** Arrive, acquire, read the clock and insert; then the client hears nothing and gives up. */
  function Try(id: nat, q: Request, t: int): seq<Action> {
    [Arrive(id, q), AcquireKey(id, NoFault)] + [ReadClock(id, t), Insert(id, false)]
  }

  /** A save, a gap in which its key expires, and the same save again. */
  function RetryTrace(q: Request, gap: nat, t: int, t': int): seq<Action> {
    Try(1, q, t) + [Tick(gap), Expire(KeyOf(q))] + Try(2, q, t')
  }

  lemma TryRuns(cfg: Config, trace: seq<Action>, id: nat, q: Request, t: int, row: Row)
    requires Runs(cfg, trace) && Admit(q) == Req(q, Some(KeyOf(q)), Arrived, None, None)
    requires id !in After(cfg, trace).reqs && KeyOf(q) !in After(cfg, trace).db
    requires q.command.WellFormed() && t >= SECOND && Timestamps.Formattable(t, cfg.offset)
    requires InsertRow(After(cfg, trace).rows, q.command.ToDraft(Timestamps.Format(t, cfg.offset))) == Success(row)
    ensures var s, longer := After(cfg, trace), trace + Try(id, q, t);
            && Runs(cfg, longer)
            && After(cfg, longer) ==
                 s.(db := s.db[KeyOf(q) := Entry(IN_PROGRESS, s.now + cfg.Ttl())],
                    winner := s.winner[KeyOf(q) := id],
                    rows := s.rows + [row], origins := s.origins + [Some(KeyOf(q))],
                    reqs := s.reqs[id := Req(q, Some(KeyOf(q)), Decided, Some(s.now), Some(Appended(|s.rows|)))])
  {
    hide Exec, Admit, InsertRow, Timestamps.Format, Timestamps.Formattable, StoreKey;
    var s := After(cfg, trace);
    var won := trace + [Arrive(id, q), AcquireKey(id, NoFault)];
    WinRuns(cfg, trace, id, q, KeyOf(q));
    InsertRuns(cfg, won, id, t);
    Overwrite(s.reqs, id, Req(q, Some(KeyOf(q)), Running, Some(s.now), None),
              Req(q, Some(KeyOf(q)), Decided, Some(s.now), Some(Appended(|s.rows|))));
    assert trace + Try(id, q, t) == won + [ReadClock(id, t), Insert(id, false)];
  }

  lemma RetryAdmitted(q: Request)
    requires q.rawKey != "" && ValidKey(q.rawKey)
    ensures Admit(q) == Req(q, Some(KeyOf(q)), Arrived, None, None)
  {}

  /** The first try, and the end of its key. */
  lemma FirstTryRuns(cfg: Config, q: Request, gap: nat, t: int)
    requires cfg.Valid() && Retry(cfg, q, t, t) && gap >= cfg.Ttl()
    ensures var s, longer := EMPTY, Try(1, q, t) + [Tick(gap), Expire(KeyOf(q))];
            && Runs(cfg, longer) && After(cfg, longer).now == gap && After(cfg, longer).db == map[]
            && After(cfg, longer).rows == [SaveRow(cfg, 1, q, t)]
            && After(cfg, longer).origins == [Some(KeyOf(q))]
            && After(cfg, longer).reqs.Keys == {1}
  {
    hide Exec, Admit, InsertRow, Timestamps.Format, Timestamps.Formattable, KeyOf, SaveRow, ValidKey, Try;
    BothSavesAdmitted(cfg, q, t, t);
    RetryAdmitted(q);
    StartRuns(cfg);
    var first, row := Try(1, q, t), SaveRow(cfg, 1, q, t);
    TryRuns(cfg, [], 1, q, t, row);
    assert [] + first == first && [] + [row] == [row];
    ExpireRuns(cfg, first, gap, KeyOf(q));
  }

  lemma RetryRuns(cfg: Config, q: Request, gap: nat, t: int, t': int)
    requires cfg.Valid() && Retry(cfg, q, t, t') && gap >= cfg.Ttl()
    ensures var trace := RetryTrace(q, gap, t, t');
            && Runs(cfg, trace) && After(cfg, trace).now == gap
            && After(cfg, trace).rows == [SaveRow(cfg, 1, q, t), SaveRow(cfg, 2, q, t')]
            && After(cfg, trace).origins == [Some(KeyOf(q)), Some(KeyOf(q))]
  {
    hide Exec, Admit, InsertRow, Timestamps.Format, Timestamps.Formattable, KeyOf, SaveRow, ValidKey, Try;
    BothSavesAdmitted(cfg, q, t, t');
    RetryAdmitted(q);
    FirstTryRuns(cfg, q, gap, t);
    TryRuns(cfg, Try(1, q, t) + [Tick(gap), Expire(KeyOf(q))], 2, q, t', SaveRow(cfg, 2, q, t'));
  }

  /** Both tries carry the same command. */
  lemma OnlyTheSave(q: Request, gap: nat, t: int, t': int)
    ensures OnlyRetries(RetryTrace(q, gap, t, t'), KeyOf(q), q.command)
  {
    hide Admit, KeyOf;
    forall i | 0 <= i < |RetryTrace(q, gap, t, t')| && RetryTrace(q, gap, t, t')[i].Arrive?
      ensures RetryTrace(q, gap, t, t')[i].request == q
    {
      assert i == 0 || i == 6;
    }
  }

  lemma EmptyIsInitial()
    ensures Initial(EMPTY)
  {}

  /** The store's time never runs backwards. */
  lemma {:induction false} TimeInRun(cfg: Config, init: Sys, trace: seq<Action>, k: nat)
    requires k <= |trace| && Exec(cfg, init, trace).Some?
    ensures Exec(cfg, init, trace[..k]).Some?
    ensures init.now <= TimeAt(cfg, init, trace, k) <= Exec(cfg, init, trace).value.now
    decreases |trace|
  {
    if trace == [] {
    } else if k == |trace| {
      assert trace[..k] == trace;
      TimeInRun(cfg, init, Front(trace), 0);
      StepKeepsTime(cfg, Exec(cfg, init, Front(trace)).value, Last(trace));
    } else {
      assert Front(trace)[..k] == trace[..k];
      TimeInRun(cfg, init, Front(trace), k);
      StepKeepsTime(cfg, Exec(cfg, init, Front(trace)).value, Last(trace));
    }
  }

  lemma StepKeepsTime(cfg: Config, s: Sys, a: Action)
    requires Apply(cfg, s, a).Some?
    ensures s.now <= Apply(cfg, s, a).value.now
  {}

  lemma SpanOfRun(cfg: Config, trace: seq<Action>, key: string, span: int)
    requires Runs(cfg, trace) && After(cfg, trace).now < span
    ensures WithinSpan(cfg, EMPTY, trace, key, 0, span)
  {
    forall i | 0 <= i < |trace| && TriedAt(cfg, EMPTY, trace, i, key) ensures 0 <= TimeAt(cfg, EMPTY, trace, i) < span {
      TimeInRun(cfg, EMPTY, trace, i);
    }
  }

  lemma SavedByTwo(rows: seq<Row>, origins: seq<Option<string>>, gameId: int, key: string)
    requires |rows| == |origins| == 2 && origins == [Some(key), Some(key)]
    requires rows[0].gameId == rows[1].gameId == gameId
    ensures RowsOf(origins, key) == 2
    ensures SavedFor(rows, origins, gameId, key, true) == SavedRow(rows[0]) + SavedRow(rows[1])
    ensures SavedFor(rows, origins, gameId, key, false) == 0
  {
    assert Front(rows) == [rows[0]] && Front(origins) == [origins[0]];
    assert Front([rows[0]]) == [] && Front([origins[0]]) == [];
    assert RowsOf([origins[0]], key) == 1;
    assert SavedFor([rows[0]], [origins[0]], gameId, key, true) == SavedRow(rows[0]);
    assert SavedFor([rows[0]], [origins[0]], gameId, key, false) == 0;
  }

  lemma SavedTwice(cfg: Config, q: Request, t: int, t': int, rows: seq<Row>, origins: seq<Option<string>>)
    requires Retry(cfg, q, t, t')
    requires rows == [SaveRow(cfg, 1, q, t), SaveRow(cfg, 2, q, t')] && origins == [Some(KeyOf(q)), Some(KeyOf(q))]
    ensures RowsOf(origins, KeyOf(q)) == 2
    ensures SavedFor(rows, origins, q.command.gameId, KeyOf(q), true) == 2 * q.command.duration * SECOND
    ensures SavedFor(rows, origins, q.command.gameId, KeyOf(q), false) == 0
  {
    SavedByTwo(rows, origins, q.command.gameId, KeyOf(q));
    hide KeyOf, ValidKey, Timestamps.Format, Timestamps.Formattable, SavedFor, RowsOf;
  }

  /**
   * Double counting.  For every configuration, every save under a valid key and every gap of at
   * least the TTL there is a run in which a retry is admitted as a second row, and the deadline
   * contains the duration twice.
   */
  lemma RetryAfterExpiryCountsTwice(cfg: Config, q: Request, gap: nat, t: int, t': int)
    requires cfg.Valid() && Retry(cfg, q, t, t') && gap >= cfg.Ttl()
    ensures var trace, c := RetryTrace(q, gap, t, t'), q.command;
            && Initial(EMPTY) && TableOk(EMPTY.rows, cfg.offset) && Runs(cfg, trace)
            && OnlyRetries(trace, KeyOf(q), c)
            && WithinSpan(cfg, EMPTY, trace, KeyOf(q), 0, gap + 1)
            && var s := After(cfg, trace);
               && RowsOf(s.origins, KeyOf(q)) == 2
               && |s.origins| == |s.rows| && AllStamped(s.rows, cfg.offset)
               && DeadlineSplits(s.rows, s.origins, cfg.offset, c.gameId, KeyOf(q), 2 * c.duration * SECOND)
               && SavedFor(s.rows, s.origins, c.gameId, KeyOf(q), false) == 0
  {
    hide Exec, DeadlineSplits, TableOk, AllStamped, WithinSpan, OnlyRetries, Initial, SavedFor, RowsOf;
    hide Timestamps.Format, Timestamps.Formattable, KeyOf, ValidKey, SaveRow, RetryTrace;
    var trace, c := RetryTrace(q, gap, t, t'), q.command;
    RetryRuns(cfg, q, gap, t, t');
    BothSavesAdmitted(cfg, q, t, t');
    SpanOfRun(cfg, trace, KeyOf(q), gap + 1);
    OnlyTheSave(q, gap, t, t');
    EmptyIsInitial();
    var s := After(cfg, trace);
    RunKeepsTableInv(cfg, EMPTY, trace);
    StampedRows(s.rows, cfg.offset);
    SavedTwice(cfg, q, t, t', s.rows, s.origins);
    TableDeadline(s.rows, s.origins, cfg.offset, c.gameId, KeyOf(q));
  }

  lemma StampedRows(rows: seq<Row>, offset: int)
    requires TableOk(rows, offset)
    ensures AllStamped(rows, offset)
  {
    hide Stamped;
  }

  // ----- Counted once: exactly within one TTL --------------------------------------------------

  /** In every run in which the tries of a save fall within the span, at most one row is theirs. */
  ghost predicate SavesCountOnce(cfg: Config, span: int) {
    forall init: Sys, trace: seq<Action>, key: string, c: Command, from: int ::
      && Initial(init) && TableOk(init.rows, cfg.offset) && Exec(cfg, init, trace).Some?
      && c.Save? && OnlyRetries(trace, key, c) && WithinSpan(cfg, init, trace, key, from, span) ==>
        RowsOf(Exec(cfg, init, trace).value.origins, key) <= 1
  }

  lemma WiderSpan(cfg: Config, init: Sys, trace: seq<Action>, key: string, from: int, span: int, wider: int)
    requires WithinSpan(cfg, init, trace, key, from, span) && span <= wider
    ensures WithinSpan(cfg, init, trace, key, from, wider)
  {
    hide Exec, TriedAt;
  }

  /** Some save, under some key, at some time. */
  const SOME_SAVE := Request(Some(1), "k", Save(1, 1, 1))
  const SOME_TIME := 2 * Timestamps.DAY * SECOND

  lemma SomeRetry(cfg: Config)
    requires cfg.Valid()
    ensures Retry(cfg, SOME_SAVE, SOME_TIME, SOME_TIME)
  {}

  /**
   * Take any bound on how far apart the tries of a save may lie.  The bound keeps every save from
   * being counted twice, whatever else happens, if and only if it is at most one effective TTL.
   */
  lemma SavesCountOnceIff(cfg: Config, span: int)
    requires cfg.Valid()
    ensures SavesCountOnce(cfg, span) <==> span <= cfg.Ttl()
  {
    hide Exec, TableOk, OnlyRetries, RowsOf, WithinSpan, Initial, RetryTrace, KeyOf;
    hide AllStamped, DeadlineSplits, SavedFor;
    if span <= cfg.Ttl() {
      forall init: Sys, trace: seq<Action>, key: string, c: Command, from: int |
        && Initial(init) && TableOk(init.rows, cfg.offset) && Exec(cfg, init, trace).Some?
        && c.Save? && OnlyRetries(trace, key, c) && WithinSpan(cfg, init, trace, key, from, span)
        ensures RowsOf(Exec(cfg, init, trace).value.origins, key) <= 1
      {
        RowsPerKey(cfg, init, trace, key, from, span);
      }
    } else {
      EffectiveTtlBounds(cfg.ttl);
      SomeRetry(cfg);
      var gap: nat := cfg.Ttl();
      RetryAfterExpiryCountsTwice(cfg, SOME_SAVE, gap, SOME_TIME, SOME_TIME);
      WiderSpan(cfg, EMPTY, RetryTrace(SOME_SAVE, gap, SOME_TIME, SOME_TIME), KeyOf(SOME_SAVE), 0, gap + 1, span);
    }
  }

  // ----- A Complete that comes too late --------------------------------------------------------

  /** A request is turned down with an error body, slowly; it has responded but not completed. */
  function TurnedDown(id: nat, q: Request, code: int, body: seq<Byte>): seq<Action> {
    [Arrive(id, q), AcquireKey(id, NoFault)] + [Deny(id, code)] + [Respond(id, [body])]
  }

  /** Its key expires; the retry saves, answers and completes; then the first Complete arrives. */
  function LateTrace(q: Request, delay: nat, code: int, body: seq<Byte>, t: int): seq<Action> {
    TurnedDown(1, q, code, body) + [Tick(delay), Expire(KeyOf(q))] + Try(2, q, t) + [Respond(2, [])]
      + [Complete(2, NoFault)] + [Complete(1, NoFault)]
  }

  lemma OneChunk(body: seq<Byte>)
    ensures BodyBytes(Bodies([body])) == body && BodyBytes(Bodies([])) == []
  {
    assert Bodies([body]) == [Body(body)] && Bodies([]) == [];
    assert [Body(body)][1..] == [] && BodyBytes([]) == [];
  }

  lemma TurnedDownRuns(cfg: Config, q: Request, delay: nat, code: int, body: seq<Byte>)
    requires cfg.Valid() && q.rawKey != "" && ValidKey(q.rawKey) && delay >= cfg.Ttl()
    requires code in {400, 401, 404, 500}
    ensures var longer := TurnedDown(1, q, code, body) + [Tick(delay), Expire(KeyOf(q))];
            && Runs(cfg, longer)
            && After(cfg, longer) ==
                 Sys(delay, map[], map[KeyOf(q) := 1], [], [],
                     map[1 := Req(q, Some(KeyOf(q)), Responded(code, body), Some(0), Some(Denied(code)))])
  {
    hide Exec, Admit, KeyOf, ValidKey, BodyBytes, Bodies;
    var won := [Arrive(1, q), AcquireKey(1, NoFault)];
    RetryAdmitted(q);
    StartRuns(cfg);
    WinRuns(cfg, [], 1, q, KeyOf(q));
    assert [] + won == won;
    DenyRuns(cfg, won, 1, code);
    RespondRuns(cfg, won + [Deny(1, code)], 1, [body]);
    OneChunk(body);
    ExpireRuns(cfg, TurnedDown(1, q, code, body), delay, KeyOf(q));
    assert map[KeyOf(q) := Entry(IN_PROGRESS, cfg.Ttl())] - {KeyOf(q)} == map[];
  }

  /** The older request when the retry is done: it has responded, and will complete. */
  function Older(q: Request, code: int, body: seq<Byte>): Req {
    Req(q, Some(KeyOf(q)), Responded(code, body), Some(0), Some(Denied(code)))
  }

  /** The retry, in a phase after its insert. */
  function Newer(q: Request, delay: int, phase: Phase): Req {
    Req(q, Some(KeyOf(q)), phase, Some(delay), Some(Appended(0)))
  }

  /** The state in which only the two Completes are missing; `value` is the record so far. */
  function Racing(cfg: Config, q: Request, delay: int, code: int, body: seq<Byte>, t: int, value: string,
                  phase: Phase): Sys
    requires Timestamps.Formattable(t, cfg.offset)
  {
    Sys(delay, map[KeyOf(q) := Entry(value, delay + cfg.Ttl())], map[KeyOf(q) := 2],
        [SaveRow(cfg, 1, q, t)], [Some(KeyOf(q))], map[1 := Older(q, code, body), 2 := Newer(q, delay, phase)])
  }

  function UntilDecided(q: Request, delay: nat, code: int, body: seq<Byte>, t: int): seq<Action> {
    TurnedDown(1, q, code, body) + [Tick(delay), Expire(KeyOf(q))] + Try(2, q, t)
  }

  function UntilLate(q: Request, delay: nat, code: int, body: seq<Byte>, t: int): seq<Action> {
    UntilDecided(q, delay, code, body, t) + [Respond(2, [])]
  }

  lemma UntilDecidedRuns(cfg: Config, q: Request, delay: nat, code: int, body: seq<Byte>, t: int)
    requires cfg.Valid() && Retry(cfg, q, t, t) && delay >= cfg.Ttl() && code in {400, 401, 404, 500}
    ensures var trace := UntilDecided(q, delay, code, body, t);
            Runs(cfg, trace) && After(cfg, trace) == Racing(cfg, q, delay, code, body, t, IN_PROGRESS, Decided)
  {
    hide Exec, Admit, InsertRow, Timestamps.Format, Timestamps.Formattable, KeyOf, SaveRow, ValidKey, Try, TurnedDown;
    BothSavesAdmitted(cfg, q, t, t);
    RetryAdmitted(q);
    TurnedDownRuns(cfg, q, delay, code, body);
    TryRuns(cfg, TurnedDown(1, q, code, body) + [Tick(delay), Expire(KeyOf(q))], 2, q, t, SaveRow(cfg, 1, q, t));
    assert [] + [SaveRow(cfg, 1, q, t)] == [SaveRow(cfg, 1, q, t)] && [] + [Some(KeyOf(q))] == [Some(KeyOf(q))];
  }

  lemma UntilLateRuns(cfg: Config, q: Request, delay: nat, code: int, body: seq<Byte>, t: int)
    requires cfg.Valid() && Retry(cfg, q, t, t) && delay >= cfg.Ttl() && code in {400, 401, 404, 500}
    ensures var trace := UntilLate(q, delay, code, body, t);
            && Runs(cfg, trace)
            && After(cfg, trace) == Racing(cfg, q, delay, code, body, t, IN_PROGRESS, Responded(204, []))
  {
    hide Exec, KeyOf, SaveRow, UntilDecided, Older, BodyBytes, Bodies, Retry, Timestamps.Formattable;
    UntilDecidedRuns(cfg, q, delay, code, body, t);
    RespondRuns(cfg, UntilDecided(q, delay, code, body, t), 2, []);
    OneChunk([]);
  }

  /** The retry completes in time; the older request has still to. */
  lemma BeforeLateRuns(cfg: Config, q: Request, delay: nat, code: int, body: seq<Byte>, t: int)
    requires cfg.Valid() && Retry(cfg, q, t, t) && delay >= cfg.Ttl() && code in {400, 401, 404, 500}
    ensures var trace := UntilLate(q, delay, code, body, t) + [Complete(2, NoFault)];
            && Runs(cfg, trace)
            && After(cfg, trace) ==
                 Racing(cfg, q, delay, code, body, t, EncodeCompleted(204, []), Done(Answered(204, [])))
  {
    hide Exec, KeyOf, SaveRow, UntilLate, Older, EncodeCompleted, Retry, Timestamps.Formattable;
    UntilLateRuns(cfg, q, delay, code, body, t);
    CompleteRuns(cfg, UntilLate(q, delay, code, body, t), 2, KeyOf(q));
  }

  lemma LateRuns(cfg: Config, q: Request, delay: nat, code: int, body: seq<Byte>, t: int)
    requires cfg.Valid() && Retry(cfg, q, t, t) && delay >= cfg.Ttl() && code in {400, 401, 404, 500}
    ensures var trace := LateTrace(q, delay, code, body, t);
            var s := Racing(cfg, q, delay, code, body, t, EncodeCompleted(code, body), Done(Answered(204, [])));
            && Runs(cfg, trace)
            && After(cfg, trace) == s.(reqs := s.reqs[1 := s.reqs[1].(phase := Done(Answered(code, body)))])
  {
    hide Exec, KeyOf, SaveRow, EncodeCompleted, Try, TurnedDown, Retry, Timestamps.Formattable;
    BeforeLateRuns(cfg, q, delay, code, body, t);
    CompleteRuns(cfg, UntilLate(q, delay, code, body, t) + [Complete(2, NoFault)], 1, KeyOf(q));
  }

  /** Without any Complete so far, every Complete so far was on time. */
  lemma {:induction false} TimelyWithoutCompletes(cfg: Config, trace: seq<Action>, within: int)
    requires Runs(cfg, trace) && forall i :: 0 <= i < |trace| ==> !trace[i].Complete?
    ensures Timely(cfg, EMPTY, trace, within)
  {
    if trace != [] {
      assert Last(trace) == trace[|trace| - 1];
      TimelyWithoutCompletes(cfg, Front(trace), within);
      hide Exec;
    }
  }

  lemma TimelyAppend(cfg: Config, trace: seq<Action>, a: Action, within: int)
    requires Runs(cfg, trace) && Runs(cfg, trace + [a])
    requires Timely(cfg, EMPTY, trace, within) && OnTime(After(cfg, trace), a, within)
    ensures Timely(cfg, EMPTY, trace + [a], within)
  {
    hide Exec, OnTime;
    assert Front(trace + [a]) == trace;
  }

  lemma BeforeLateIsTimely(cfg: Config, q: Request, delay: nat, code: int, body: seq<Byte>, t: int, within: int)
    requires cfg.Valid() && Retry(cfg, q, t, t) && delay >= cfg.Ttl() && code in {400, 401, 404, 500} && 0 < within
    ensures var trace := UntilLate(q, delay, code, body, t) + [Complete(2, NoFault)];
            Runs(cfg, trace) && Timely(cfg, EMPTY, trace, within)
  {
    hide Exec, KeyOf, SaveRow, Timely, UntilLate, Older, Retry, Timestamps.Formattable;
    UntilLateRuns(cfg, q, delay, code, body, t);
    BeforeLateRuns(cfg, q, delay, code, body, t);
    NoCompletes(q, delay, code, body, t);
    TimelyWithoutCompletes(cfg, UntilLate(q, delay, code, body, t), within);
    TimelyAppend(cfg, UntilLate(q, delay, code, body, t), Complete(2, NoFault), within);
  }

  lemma LateIsTimely(cfg: Config, q: Request, delay: nat, code: int, body: seq<Byte>, t: int, within: int)
    requires cfg.Valid() && Retry(cfg, q, t, t) && delay >= cfg.Ttl() && code in {400, 401, 404, 500} && delay < within
    ensures Runs(cfg, LateTrace(q, delay, code, body, t))
    ensures Timely(cfg, EMPTY, LateTrace(q, delay, code, body, t), within)
  {
    hide Exec, KeyOf, SaveRow, Timely, UntilLate, LateTrace, Newer, Retry, Timestamps.Formattable;
    LateTraceEnds(q, delay, code, body, t);
    BeforeLateRuns(cfg, q, delay, code, body, t);
    BeforeLateIsTimely(cfg, q, delay, code, body, t, within);
    LateRuns(cfg, q, delay, code, body, t);
    TimelyAppend(cfg, UntilLate(q, delay, code, body, t) + [Complete(2, NoFault)], Complete(1, NoFault), within);
  }

  lemma LateTraceEnds(q: Request, delay: nat, code: int, body: seq<Byte>, t: int)
    ensures LateTrace(q, delay, code, body, t) ==
            UntilLate(q, delay, code, body, t) + [Complete(2, NoFault)] + [Complete(1, NoFault)]
  {}

  lemma NoCompletes(q: Request, delay: nat, code: int, body: seq<Byte>, t: int)
    ensures var trace := UntilLate(q, delay, code, body, t);
            forall i :: 0 <= i < |trace| ==> !trace[i].Complete?
  {}

  /**
   * A Complete that is too late.  For every configuration and every delay of at least the TTL, a
   * request that was turned down completes after its key expired and a retry has saved, been told
   * 204 and completed.  The record is overwritten: the save is in the table, and every further
   * retry is told the older request's error, with its body.
   */
  lemma LateCompleteReplaysOlderExecution(cfg: Config, q: Request, delay: nat, code: int, body: seq<Byte>, t: int)
    requires cfg.Valid() && Retry(cfg, q, t, t) && delay >= cfg.Ttl()
    requires code in {400, 401, 404, 500} && body != []
    ensures var trace, key := LateTrace(q, delay, code, body, t), KeyOf(q);
            && Initial(EMPTY) && Runs(cfg, trace) && Timely(cfg, EMPTY, trace, delay + 1)
            && var s := After(cfg, trace);
               && s.rows == [SaveRow(cfg, 1, q, t)] && s.origins == [Some(key)]
               && key in s.winner && s.winner[key] == 2
               && 2 in s.reqs && s.reqs[2].phase == Done(Answered(204, [])) && s.reqs[2].outcome == Some(Appended(0))
               && LoserReply(Get(s.db, key)) == Replayed(code, body)
               && !ReplayIsLatest(s, key)
  {
    hide Exec, Timestamps.Format, Timestamps.Formattable, KeyOf, SaveRow, ValidKey, Timely, LateTrace, Initial;
    hide EncodeCompleted, DecodeRecord;
    EmptyIsInitial();
    LateRuns(cfg, q, delay, code, body, t);
    LateIsTimely(cfg, q, delay, code, body, t, delay + 1);
    RecordRoundTrip(code, body);
  }

  // ----- Faithful replays: exactly within one TTL ----------------------------------------------

  /** In every run with every Complete less than `within` after its Acquire, replays are the latest answers. */
  ghost predicate ReplaysAreLatest(cfg: Config, within: int) {
    forall init: Sys, trace: seq<Action>, key: string ::
      && Initial(init) && Exec(cfg, init, trace).Some? && Timely(cfg, init, trace, within)
      && LoserReply(Get(Exec(cfg, init, trace).value.db, key)).Replayed? ==>
        ReplayIsLatest(Exec(cfg, init, trace).value, key)
  }

  lemma {:induction false} TimelyWider(cfg: Config, init: Sys, trace: seq<Action>, within: int, wider: int)
    requires Exec(cfg, init, trace).Some? && Timely(cfg, init, trace, within) && within <= wider
    ensures Timely(cfg, init, trace, wider)
  {
    if trace != [] { TimelyWider(cfg, init, Front(trace), within, wider); }
  }

  /**
   * Take any bound on how long after its Acquire a Complete may land.  The bound makes every replay
   * the answer of the key's most recent execution, whatever else happens, if and only if it is at
   * most one effective TTL.
   */
  lemma ReplaysAreLatestIff(cfg: Config, within: int)
    requires cfg.Valid()
    ensures ReplaysAreLatest(cfg, within) <==> within <= cfg.Ttl()
  {
    hide Exec, Initial, Timely, ReplayIsLatest, LoserReply, Get, LateTrace, KeyOf, SaveRow;
    if within <= cfg.Ttl() {
      forall init: Sys, trace: seq<Action>, key: string |
        && Initial(init) && Exec(cfg, init, trace).Some? && Timely(cfg, init, trace, within)
        && LoserReply(Get(Exec(cfg, init, trace).value.db, key)).Replayed?
        ensures ReplayIsLatest(Exec(cfg, init, trace).value, key)
      {
        var _ := ReplaysMostRecentExecution(cfg, init, trace, key, within);
      }
    } else {
      EffectiveTtlBounds(cfg.ttl);
      SomeRetry(cfg);
      var delay: nat := cfg.Ttl();
      LateCompleteReplaysOlderExecution(cfg, SOME_SAVE, delay, 404, [0], SOME_TIME);
      TimelyWider(cfg, EMPTY, LateTrace(SOME_SAVE, delay, 404, [0], SOME_TIME), delay + 1, within);
    }
  }

  // ----- Retries held off: exactly within one TTL ----------------------------------------------

  /** In every run with every Complete less than `within` after its Acquire, retries of a running request wait. */
  ghost predicate RetriesAreHeldOff(cfg: Config, within: int) {
    forall init: Sys, trace: seq<Action>, key: string ::
      && Initial(init) && Exec(cfg, init, trace).Some? && Timely(cfg, init, trace, within)
      && WinnerIsRunning(cfg, Exec(cfg, init, trace).value, key) ==>
        HeldOff(cfg, Exec(cfg, init, trace).value, key)
  }

  /** The retry has inserted and is still in its handler when the older request completes. */
  function OvertakenTrace(q: Request, delay: nat, code: int, body: seq<Byte>, t: int): seq<Action> {
    UntilDecided(q, delay, code, body, t) + [Complete(1, NoFault)]
  }

  lemma OvertakenRuns(cfg: Config, q: Request, delay: nat, code: int, body: seq<Byte>, t: int)
    requires cfg.Valid() && Retry(cfg, q, t, t) && delay >= cfg.Ttl() && code in {400, 401, 404, 500}
    ensures var trace := OvertakenTrace(q, delay, code, body, t);
            var s := Racing(cfg, q, delay, code, body, t, EncodeCompleted(code, body), Decided);
            && Runs(cfg, trace)
            && After(cfg, trace) == s.(reqs := s.reqs[1 := s.reqs[1].(phase := Done(Answered(code, body)))])
            && Runs(cfg, UntilDecided(q, delay, code, body, t))
            && After(cfg, UntilDecided(q, delay, code, body, t)).now == delay
            && 1 in After(cfg, UntilDecided(q, delay, code, body, t)).reqs
            && After(cfg, UntilDecided(q, delay, code, body, t)).reqs[1].acquiredAt == Some(0)
  {
    hide Exec, KeyOf, SaveRow, EncodeCompleted, UntilDecided, Retry, Timestamps.Formattable;
    UntilDecidedRuns(cfg, q, delay, code, body, t);
    CompleteRuns(cfg, UntilDecided(q, delay, code, body, t), 1, KeyOf(q));
  }

  lemma NoCompletesUntilDecided(q: Request, delay: nat, code: int, body: seq<Byte>, t: int)
    ensures var trace := UntilDecided(q, delay, code, body, t);
            forall i :: 0 <= i < |trace| ==> !trace[i].Complete?
  {}

  /**
   * A Complete that is too late for a running retry: the retry has inserted its save and is still in
   * its handler, and a third try is told the older error instead of being held off.
   */
  lemma LateCompleteMisleadsRetry(cfg: Config, q: Request, delay: nat, code: int, body: seq<Byte>, t: int)
    requires cfg.Valid() && Retry(cfg, q, t, t) && delay >= cfg.Ttl() && code in {400, 401, 404, 500}
    ensures var trace, key := OvertakenTrace(q, delay, code, body, t), KeyOf(q);
            && Initial(EMPTY) && Runs(cfg, trace) && Timely(cfg, EMPTY, trace, delay + 1)
            && WinnerIsRunning(cfg, After(cfg, trace), key)
            && LoserReply(Get(After(cfg, trace).db, key)) == Replayed(code, body)
            && !HeldOff(cfg, After(cfg, trace), key)
  {
    hide Exec, KeyOf, SaveRow, EncodeCompleted, DecodeRecord, UntilDecided, Retry, Timestamps.Formattable;
    hide Timely, Initial, Apply;
    EffectiveTtlBounds(cfg.ttl);
    EmptyIsInitial();
    OvertakenRuns(cfg, q, delay, code, body, t);
    NoCompletesUntilDecided(q, delay, code, body, t);
    TimelyWithoutCompletes(cfg, UntilDecided(q, delay, code, body, t), delay + 1);
    TimelyAppend(cfg, UntilDecided(q, delay, code, body, t), Complete(1, NoFault), delay + 1);
    RecordRoundTrip(code, body);
  }

  /**
   * Take any bound on how long after its Acquire a Complete may land.  The bound holds off every
   * retry of a running request, whatever else happens, if and only if it is at most one TTL.
   */
  lemma RetriesAreHeldOffIff(cfg: Config, within: int)
    requires cfg.Valid()
    ensures RetriesAreHeldOff(cfg, within) <==> within <= cfg.Ttl()
  {
    hide Exec, Initial, Timely, HeldOff, WinnerIsRunning, OvertakenTrace, KeyOf, LoserReply, Get;
    if within <= cfg.Ttl() {
      forall init: Sys, trace: seq<Action>, key: string |
        && Initial(init) && Exec(cfg, init, trace).Some? && Timely(cfg, init, trace, within)
        && WinnerIsRunning(cfg, Exec(cfg, init, trace).value, key)
        ensures HeldOff(cfg, Exec(cfg, init, trace).value, key)
      {
        RetryHeldOff(cfg, init, trace, key, within);
      }
    } else {
      EffectiveTtlBounds(cfg.ttl);
      SomeRetry(cfg);
      var delay: nat := cfg.Ttl();
      LateCompleteMisleadsRetry(cfg, SOME_SAVE, delay, 404, [0], SOME_TIME);
      TimelyWider(cfg, EMPTY, OvertakenTrace(SOME_SAVE, delay, 404, [0], SOME_TIME), delay + 1, within);
    }
  }
}
