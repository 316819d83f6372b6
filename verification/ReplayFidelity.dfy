/**
 * What a retry is told: the response of the key's last writer, word for word; and so the response
 * of its most recent execution, as long as executions complete within the TTL of their Acquire.
 *
 * The requests are the game commands.  A login runs behind the same middleware, under anonymous
 * keys, and is not among them.
 */
module ReplayFidelity {
  import opened Prelude
  import opened GoTime
  import opened InteractionTable
  import opened IdempotencyRecord
  import opened IdempotencyStore
  import opened GameCommands
  import opened GuardEquivalence
  import opened Mapping
  import opened System
  import opened KeyLifetime
  import AtMostOnce
  import Timestamps

  // ----- Responses tell outcomes ---------------------------------------------------------------

  const STATUSES := {204, 400, 401, 404, 409, 500}

  predicate Tells(p: Phase, o: Option<Outcome>) {
    match p
    case Decided => o.Some?
    case Responded(code, _) => o.Some? && code == StatusOf(o.value)
    case Done(Answered(code, _)) => o.Some? && code == StatusOf(o.value)
    case _ => true
  }

  /** A success names the row it appended: the command's own row, on behalf of the request's key. */
  ghost predicate OutcomeOk(s: Sys, r: Req)
    requires |s.origins| == |s.rows|
  {
    && Tells(r.phase, r.outcome)
    && (r.outcome.Some? ==>
          var o := r.outcome.value;
          && StatusOf(o) in STATUSES
          && (StatusOf(o) == 204 <==> o.Appended?)
          && (o.Appended? ==>
                && o.index < |s.rows|
                && s.origins[o.index] == r.key
                && s.rows[o.index] ==
                     WithId(s.rows[o.index].id, r.request.command.ToDraft(s.rows[o.index].occurredAt))))
  }

  ghost predicate OutcomesOk(s: Sys) {
    && |s.origins| == |s.rows|
    && forall id :: id in s.reqs ==> OutcomeOk(s, s.reqs[id])
  }

  lemma InsertKeepsOutcomes(s: Sys, id: nat, replyLost: bool)
    requires OutcomesOk(s) && id in s.reqs && DoInsert(s, id, s.reqs[id], replyLost).Some?
    ensures OutcomesOk(DoInsert(s, id, s.reqs[id], replyLost).value)
  {
    hide TriggerError, MaxId, ChecksHold;
    var t := DoInsert(s, id, s.reqs[id], replyLost).value;
    forall i | i in t.reqs ensures OutcomeOk(t, t.reqs[i]) {
      assert OutcomeOk(s, s.reqs[i]);
    }
  }

  lemma RespondKeepsOutcomes(s: Sys, id: nat, chunks: seq<seq<Byte>>)
    requires OutcomesOk(s) && id in s.reqs && DoRespond(s, id, s.reqs[id], chunks).Some?
    ensures OutcomesOk(DoRespond(s, id, s.reqs[id], chunks).value)
  {}

  /** How the remaining steps can change a request: its reply, a denial, or nothing that matters. */
  ghost predicate KeepsTelling(r: Req, r': Req) {
    && r'.key == r.key && r'.request == r.request
    && (r'.outcome == r.outcome
        || (r'.outcome.Some? && r'.outcome.value.Denied? && r'.outcome.value.code in {400, 401, 404, 500}))
    && (r'.phase == Decided ==> r'.outcome.Some?)
    && (r'.phase.Responded? ==> r' == r)
    && (r'.phase.Done? && r'.phase.reply.Answered? ==>
          r' == r || (r'.outcome == r.outcome && r.phase == Responded(r'.phase.reply.code, r'.phase.reply.body)))
  }

  lemma OtherStepsKeepTelling(cfg: Config, s: Sys, a: Action, id: nat)
    requires Apply(cfg, s, a).Some? && !a.Insert? && !a.Respond? && id in s.reqs
    requires s.reqs[id].phase == Decided ==> s.reqs[id].outcome.Some?
    ensures id in Apply(cfg, s, a).value.reqs && KeepsTelling(s.reqs[id], Apply(cfg, s, a).value.reqs[id])
  {
    hide Timestamps.Format, Timestamps.Formattable, ValidKey, StoreKey, Get, EncodeCompleted, StatusOf;
    hide DoInsert, DoRespond;
  }

  lemma TellingKeepsOk(s: Sys, t: Sys, r: Req, r': Req)
    requires |s.origins| == |s.rows| && t.rows == s.rows && t.origins == s.origins
    requires OutcomeOk(s, r) && KeepsTelling(r, r')
    ensures OutcomeOk(t, r')
  {}

  lemma OtherStepsKeepOutcomes(cfg: Config, s: Sys, a: Action)
    requires OutcomesOk(s) && Apply(cfg, s, a).Some? && !a.Insert? && !a.Respond?
    ensures OutcomesOk(Apply(cfg, s, a).value)
  {
    var t := Apply(cfg, s, a).value;
    AtMostOnce.TableUnchanged(cfg, s, a);
    if !a.Tick? && !a.Expire? { AtMostOnce.StepMovesOneRequest(cfg, s, a); }
    forall i | i in t.reqs ensures OutcomeOk(t, t.reqs[i]) {
      if i in s.reqs {
        hide Apply, OutcomeOk, KeepsTelling;
        assert OutcomeOk(s, s.reqs[i]);
        assert s.reqs[i].phase == Decided ==> s.reqs[i].outcome.Some? by { DecidedHasOutcome(s, s.reqs[i]); }
        OtherStepsKeepTelling(cfg, s, a, i);
        TellingKeepsOk(s, t, s.reqs[i], t.reqs[i]);
      } else {
        hide Apply;
      }
    }
  }

  lemma DecidedHasOutcome(s: Sys, r: Req)
    requires |s.origins| == |s.rows| && OutcomeOk(s, r)
    ensures r.phase == Decided ==> r.outcome.Some?
  {}

  lemma StepKeepsOutcomes(cfg: Config, s: Sys, a: Action)
    requires OutcomesOk(s) && Apply(cfg, s, a).Some?
    ensures OutcomesOk(Apply(cfg, s, a).value)
  {
    match a
    case Insert(id, replyLost) => InsertKeepsOutcomes(s, id, replyLost);
    case Respond(id, chunks) => RespondKeepsOutcomes(s, id, chunks);
    case _ => OtherStepsKeepOutcomes(cfg, s, a);
  }

  lemma {:induction false} RunKeepsOutcomes(cfg: Config, init: Sys, trace: seq<Action>)
    requires Initial(init) && Exec(cfg, init, trace).Some?
    ensures OutcomesOk(Exec(cfg, init, trace).value)
  {
    if trace != [] {
      RunKeepsOutcomes(cfg, init, Front(trace));
      StepKeepsOutcomes(cfg, Exec(cfg, init, Front(trace)).value, Last(trace));
    }
  }

  // ----- Records belong to the last writer -----------------------------------------------------

  predicate CompletesKey(s: Sys, a: Action, key: string) {
    a.Complete? && a.id in s.reqs && s.reqs[a.id].key == Some(key) && Writes(s.reqs[a.id], a.fault)
  }

  /** The request whose successful Acquire or effective Complete was the last write to the key. */
  function LastWriter(cfg: Config, init: Sys, trace: seq<Action>, key: string): Option<nat>
    requires Exec(cfg, init, trace).Some?
  {
    if trace == [] then None else
    var s, a := Exec(cfg, init, Front(trace)).value, Last(trace);
    if Happens(Won(key), s, a) || CompletesKey(s, a, key) then Some(a.id)
    else LastWriter(cfg, init, Front(trace), key)
  }

  /** The stored record is in progress, or the answer of the given request. */
  ghost predicate RecordOf(s: Sys, key: string, id: nat)
    requires key in s.db
  {
    s.db[key].value == IN_PROGRESS ||
    (id in s.reqs && s.reqs[id].key == Some(key) &&
     var p := s.reqs[id].phase;
     p.Done? && p.reply.Answered? && s.db[key].value == EncodeCompleted(p.reply.code, p.reply.body))
  }

  /** A finished request is never touched again. */
  lemma DoneStaysDone(cfg: Config, s: Sys, a: Action)
    requires Apply(cfg, s, a).Some?
    ensures forall id :: id in s.reqs && s.reqs[id].phase.Done? ==>
              id in Apply(cfg, s, a).value.reqs && Apply(cfg, s, a).value.reqs[id] == s.reqs[id]
  {
    hide Timestamps.Format, Timestamps.Formattable, ValidKey, StoreKey, Get, InsertRow, StatusCode, BodyBytes, StatusOf;
  }

  /** Steps that do not write the key leave its record, if it stays, and the request behind it. */
  lemma RecordKept(cfg: Config, s: Sys, a: Action, key: string, id: nat)
    requires Apply(cfg, s, a).Some? && key in Apply(cfg, s, a).value.db
    requires !Happens(Won(key), s, a) && !CompletesKey(s, a, key)
    ensures key in s.db
    ensures RecordOf(s, key, id) ==> RecordOf(Apply(cfg, s, a).value, key, id)
  {
    hide EncodeCompleted;
    DoneStaysDone(cfg, s, a);
    if !a.Tick? && !a.Expire? && !a.AcquireKey? && !a.Complete? {
      OtherStepsAreQuiet(cfg, s, a);
      hide Apply;
    }
  }

  /** In every run, timely or not, a record is in progress or the answer of the key's last writer. */
  lemma {:induction false} RecordsAreLastWriters(cfg: Config, init: Sys, trace: seq<Action>, key: string)
    requires Initial(init) && Exec(cfg, init, trace).Some? && key in Exec(cfg, init, trace).value.db
    ensures LastWriter(cfg, init, trace, key).Some?
    ensures RecordOf(Exec(cfg, init, trace).value, key, LastWriter(cfg, init, trace, key).value)
  {
    var s, a := Exec(cfg, init, Front(trace)).value, Last(trace);
    if Happens(Won(key), s, a) || CompletesKey(s, a, key) {
      hide EncodeCompleted;
    } else {
      RecordKept(cfg, s, a, key, 0);
      RecordsAreLastWriters(cfg, init, Front(trace), key);
      RecordKept(cfg, s, a, key, LastWriter(cfg, init, Front(trace), key).value);
    }
  }

  // ----- The last winner -----------------------------------------------------------------------

  /** The position of the last successful Acquire of the key. */
  ghost predicate LastWonAt(cfg: Config, init: Sys, trace: seq<Action>, i: nat, key: string) {
    WonAt(cfg, init, trace, i, key) && forall j :: i < j < |trace| ==> !WonAt(cfg, init, trace, j, key)
  }

  lemma WinnerChange(cfg: Config, s: Sys, a: Action, key: string)
    requires Apply(cfg, s, a).Some?
    ensures var t := Apply(cfg, s, a).value;
            if Happens(Won(key), s, a) then key in t.winner && t.winner[key] == a.id
            else (key in t.winner <==> key in s.winner) && (key in s.winner ==> t.winner[key] == s.winner[key])
  {
    if !a.Tick? && !a.Expire? && !a.AcquireKey? && !a.Complete? {
      OtherStepsAreQuiet(cfg, s, a);
      hide Apply;
    }
  }

  lemma {:induction false} WinnerIsLastWin(cfg: Config, init: Sys, trace: seq<Action>, key: string) returns (i: nat)
    requires Initial(init) && Exec(cfg, init, trace).Some?
    requires key in Exec(cfg, init, trace).value.winner
    ensures LastWonAt(cfg, init, trace, i, key)
    ensures Exec(cfg, init, trace).value.winner[key] == trace[i].id
  {
    var front := Front(trace);
    var s := Exec(cfg, init, front).value;
    WinnerChange(cfg, s, Last(trace), key);
    assert trace[..|front|] == front;
    if Happens(Won(key), s, Last(trace)) {
      i := |front|;
    } else {
      i := WinnerIsLastWin(cfg, init, front, key);
      assert front[..i] == trace[..i];
      forall j | i < j < |trace| ensures !WonAt(cfg, init, trace, j, key) {
        if j < |front| {
          assert front[..j] == trace[..j];
          assert WonAt(cfg, init, trace, j, key) ==> WonAt(cfg, init, front, j, key);
        }
      }
    }
  }

  // ----- Timely runs ---------------------------------------------------------------------------

  /** The Complete lands less than `within` after its own Acquire. */
  ghost predicate OnTime(s: Sys, a: Action, within: int) {
    a.Complete? && a.id in s.reqs && Writes(s.reqs[a.id], a.fault) && s.reqs[a.id].acquiredAt.Some? ==>
      s.now < s.reqs[a.id].acquiredAt.value + within
  }

  ghost predicate Timely(cfg: Config, init: Sys, trace: seq<Action>, within: int)
    requires Exec(cfg, init, trace).Some?
  {
    trace == [] || (Timely(cfg, init, Front(trace), within)
                    && OnTime(Exec(cfg, init, Front(trace)).value, Last(trace), within))
  }

  /** A timely Complete always writes for the key's last winner. */
  lemma TimelyCompleteIsWinners(cfg: Config, s: Sys, a: Action, key: string, within: int)
    requires KeysOk(cfg, s) && Apply(cfg, s, a).Some? && CompletesKey(s, a, key)
    requires OnTime(s, a, within) && within <= cfg.Ttl()
    ensures key in s.winner && s.winner[key] == a.id
  {
    assert ReqOk(cfg, s, a.id);
  }

  /** So in a timely run the last writer of a key is its last winner. */
  lemma {:induction false} TimelyWriterIsWinner(cfg: Config, init: Sys, trace: seq<Action>, key: string, within: int)
    requires cfg.Valid() && Initial(init) && Exec(cfg, init, trace).Some?
    requires within <= cfg.Ttl() && Timely(cfg, init, trace, within)
    ensures var s := Exec(cfg, init, trace).value;
            LastWriter(cfg, init, trace, key) == if key in s.winner then Some(s.winner[key]) else None
  {
    if trace != [] {
      var s, a := Exec(cfg, init, Front(trace)).value, Last(trace);
      TimelyWriterIsWinner(cfg, init, Front(trace), key, within);
      RunKeepsKeys(cfg, init, Front(trace));
      WinnerChange(cfg, s, a, key);
      if CompletesKey(s, a, key) { TimelyCompleteIsWinners(cfg, s, a, key, within); }
    }
  }

  // ----- Fidelity ------------------------------------------------------------------------------

  lemma ReplayedRecord(s: Sys, key: string, id: nat)
    requires key in s.db && OutcomesOk(s) && RecordOf(s, key, id)
    requires LoserReply(Get(s.db, key)).Replayed?
    ensures id in s.reqs && s.reqs[id].key == Some(key)
    ensures var reply := LoserReply(Get(s.db, key));
            s.reqs[id].phase == Done(Answered(reply.code, reply.body))
  {
    hide DecodeRecord, EncodeCompleted, Command.ToDraft;
    RecordsNeverConfused(s.db[key].value, 0, []);
    assert OutcomeOk(s, s.reqs[id]);
    RecordRoundTrip(s.reqs[id].phase.reply.code, s.reqs[id].phase.reply.body);
  }

  /** What it means for a reply to be the answer of a request, and for a success to be in the table. */
  ghost predicate AnswerOf(s: Sys, key: string, w: Req, reply: Reply)
    requires reply.Replayed?
  {
    && w.key == Some(key)
    && w.phase == Done(Answered(reply.code, reply.body))
    && w.outcome.Some? && reply.code == StatusOf(w.outcome.value)
    && (reply.code == 204 <==> w.outcome.value.Appended?)
    && (reply.code == 204 ==>
          var x := w.outcome.value.index;
          && x < |s.rows| && |s.origins| == |s.rows| && s.origins[x] == Some(key)
          && s.rows[x] == WithId(s.rows[x].id, w.request.command.ToDraft(s.rows[x].occurredAt)))
  }

  /**
   * In every run, a loser that is given a replay is given exactly the code and the body answered by
   * the request that last wrote the key; a replayed success means that request's row is in the table.
   */
  lemma ReplaysLastWriter(cfg: Config, init: Sys, trace: seq<Action>, key: string)
    requires Initial(init) && Exec(cfg, init, trace).Some?
    requires LoserReply(Get(Exec(cfg, init, trace).value.db, key)).Replayed?
    ensures var s := Exec(cfg, init, trace).value;
            var w := LastWriter(cfg, init, trace, key);
            && w.Some? && w.value in s.reqs
            && AnswerOf(s, key, s.reqs[w.value], LoserReply(Get(s.db, key)))
  {
    var s := Exec(cfg, init, trace).value;
    RunKeepsOutcomes(cfg, init, trace);
    assert key in s.db;
    RecordsAreLastWriters(cfg, init, trace, key);
    var id := LastWriter(cfg, init, trace, key).value;
    ReplayedRecord(s, key, id);
    assert OutcomeOk(s, s.reqs[id]);
    hide Command.ToDraft, Get, OutcomesOk;
  }

  /** A replay would now be the answer of the key's last winner. */
  ghost predicate ReplayIsLatest(s: Sys, key: string)
    requires LoserReply(Get(s.db, key)).Replayed?
  {
    key in s.winner && s.winner[key] in s.reqs &&
    AnswerOf(s, key, s.reqs[s.winner[key]], LoserReply(Get(s.db, key)))
  }

  /**
   * Replay fidelity.  When every Complete lands within the TTL of its Acquire, the replay is the
   * answer of the key's most recent execution: the request that made the last successful Acquire.
   */
  lemma ReplaysMostRecentExecution(cfg: Config, init: Sys, trace: seq<Action>, key: string, within: int)
    returns (i: nat)
    requires cfg.Valid() && Initial(init) && Exec(cfg, init, trace).Some?
    requires within <= cfg.Ttl() && Timely(cfg, init, trace, within)
    requires LoserReply(Get(Exec(cfg, init, trace).value.db, key)).Replayed?
    ensures var s := Exec(cfg, init, trace).value;
            && ReplayIsLatest(s, key)
            && LastWonAt(cfg, init, trace, i, key) && s.winner[key] == trace[i].id
  {
    hide AnswerOf, LoserReply, Get;
    ReplaysLastWriter(cfg, init, trace, key);
    TimelyWriterIsWinner(cfg, init, trace, key, within);
    i := WinnerIsLastWin(cfg, init, trace, key);
  }

  // ----- Retries while the first request is running ---------------------------------------------

  /** The key's last winner is still in its handler, and its TTL has not run out. */
  ghost predicate WinnerIsRunning(cfg: Config, s: Sys, key: string) {
    && key in s.winner && s.winner[key] in s.reqs
    && var w := s.reqs[s.winner[key]];
       InHandler(w.phase) && w.acquiredAt.Some? && s.now < w.acquiredAt.value + cfg.Ttl()
  }

  /** Whoever reads the state of the key now is told to come back later, and does not run. */
  ghost predicate HeldOff(cfg: Config, s: Sys, key: string) {
    && LoserReply(Get(s.db, key)) == Rejected(409)
    && forall id :: id in s.reqs && s.reqs[id].phase == Losing && s.reqs[id].key == Some(key) ==>
         Apply(cfg, s, ReadState(id, NoFault)) == Some(s.Put(id, s.reqs[id].(phase := Done(Rejected(409)))))
  }

  lemma EntryKept(cfg: Config, s: Sys, a: Action, key: string)
    requires Apply(cfg, s, a).Some? && key in Apply(cfg, s, a).value.db
    requires !Happens(Won(key), s, a) && !CompletesKey(s, a, key)
    ensures key in s.db && s.db[key] == Apply(cfg, s, a).value.db[key]
  {
    hide EncodeCompleted;
    if !a.Tick? && !a.Expire? && !a.AcquireKey? && !a.Complete? {
      OtherStepsAreQuiet(cfg, s, a);
      hide Apply;
    }
  }

  /** A key that reads in progress was last written by its last winner. */
  lemma {:induction false} InProgressIsWinners(cfg: Config, init: Sys, trace: seq<Action>, key: string)
    requires Initial(init) && Exec(cfg, init, trace).Some?
    requires var s := Exec(cfg, init, trace).value; key in s.db && s.db[key].value == IN_PROGRESS
    ensures var s := Exec(cfg, init, trace).value;
            key in s.winner && LastWriter(cfg, init, trace, key) == Some(s.winner[key])
  {
    var s, a := Exec(cfg, init, Front(trace)).value, Last(trace);
    WinnerChange(cfg, s, a, key);
    if !Happens(Won(key), s, a) && !CompletesKey(s, a, key) {
      EntryKept(cfg, s, a, key);
      InProgressIsWinners(cfg, init, Front(trace), key);
    }
  }

  lemma RunningWinnerHolds(cfg: Config, s: Sys, key: string)
    requires KeysOk(cfg, s) && WinnerIsRunning(cfg, s, key)
    ensures key in s.db
  {
    assert WinnerOk(s, key) && ReqOk(cfg, s, s.winner[key]);
  }

  lemma InProgressHoldsOff(cfg: Config, s: Sys, key: string)
    requires key in s.db
    ensures HeldOff(cfg, s, key) <==> s.db[key].value == IN_PROGRESS
  {
    RecordsNeverConfused(s.db[key].value, 0, []);
    hide DecodeRecord;
  }

  /**
   * While a key's winner is running, less than a TTL after its Acquire, a retry is held off with a
   * 409 exactly if the last write to the key was that winner's own Acquire.
   */
  lemma RetryHeldOffIff(cfg: Config, init: Sys, trace: seq<Action>, key: string)
    requires cfg.Valid() && Initial(init) && Exec(cfg, init, trace).Some?
    requires WinnerIsRunning(cfg, Exec(cfg, init, trace).value, key)
    ensures var s := Exec(cfg, init, trace).value;
            HeldOff(cfg, s, key) <==> LastWriter(cfg, init, trace, key) == Some(s.winner[key])
  {
    hide HeldOff;
    var s := Exec(cfg, init, trace).value;
    RunKeepsKeys(cfg, init, trace);
    RunningWinnerHolds(cfg, s, key);
    InProgressHoldsOff(cfg, s, key);
    RecordsAreLastWriters(cfg, init, trace, key);
    if s.db[key].value == IN_PROGRESS { InProgressIsWinners(cfg, init, trace, key); }
  }

  /** So with every Complete on time a retry is held off as long as its first request is running. */
  lemma RetryHeldOff(cfg: Config, init: Sys, trace: seq<Action>, key: string, within: int)
    requires cfg.Valid() && Initial(init) && Exec(cfg, init, trace).Some?
    requires within <= cfg.Ttl() && Timely(cfg, init, trace, within)
    requires WinnerIsRunning(cfg, Exec(cfg, init, trace).value, key)
    ensures HeldOff(cfg, Exec(cfg, init, trace).value, key)
  {
    hide HeldOff;
    RetryHeldOffIff(cfg, init, trace, key);
    TimelyWriterIsWinner(cfg, init, trace, key, within);
  }

  // ----- Successes that were told --------------------------------------------------------------

  predicate ToldSuccess(p: Phase) {
    match p
    case Done(Answered(code, _)) => code == 204
    case Done(Replayed(code, _)) => code == 204
    case _ => false
  }

  lemma {:induction false} OriginCounts(origins: seq<Option<string>>, i: nat, key: string)
    requires i < |origins| && origins[i] == Some(key)
    ensures AtMostOnce.RowsOf(origins, key) >= 1
  {
    if i < |origins| - 1 { OriginCounts(Front(origins), i, key); }
  }

  /** Only reading the state of a taken key turns a request into a replay of its record. */
  lemma OnlyReadsReplay(cfg: Config, s: Sys, a: Action, id: nat)
    requires Apply(cfg, s, a).Some? && id in Apply(cfg, s, a).value.reqs
    requires var p := Apply(cfg, s, a).value.reqs[id].phase; p.Done? && p.reply.Replayed?
    ensures id in s.reqs && Apply(cfg, s, a).value.reqs[id].key == s.reqs[id].key
    ensures s.reqs[id].phase == Apply(cfg, s, a).value.reqs[id].phase ||
            (s.reqs[id].key.Some? &&
             Apply(cfg, s, a).value.reqs[id].phase == Done(LoserReply(Get(s.db, s.reqs[id].key.value))))
  {
    hide Timestamps.Format, Timestamps.Formattable, ValidKey, StoreKey, Get, LoserReply, InsertRow;
    hide StatusCode, BodyBytes, StatusOf;
  }

  /**
   * Who is told that a request succeeded, first hand or by a replay, is told the truth: a row of its
   * key is in the table.
   */
  lemma {:induction false} SuccessHasRow(cfg: Config, init: Sys, trace: seq<Action>, id: nat, key: string)
    requires Initial(init) && Exec(cfg, init, trace).Some?
    requires var s := Exec(cfg, init, trace).value;
             id in s.reqs && s.reqs[id].key == Some(key) && ToldSuccess(s.reqs[id].phase)
    ensures AtMostOnce.RowsOf(Exec(cfg, init, trace).value.origins, key) >= 1
  {
    var t := Exec(cfg, init, trace).value;
    if t.reqs[id].phase.reply.Answered? {
      RunKeepsOutcomes(cfg, init, trace);
      assert OutcomeOk(t, t.reqs[id]);
      OriginCounts(t.origins, t.reqs[id].outcome.value.index, key);
    } else {
      var front, a := Front(trace), Last(trace);
      var s := Exec(cfg, init, front).value;
      OnlyReadsReplay(cfg, s, a, id);
      AtMostOnce.OriginsChange(cfg, s, a, key);
      if s.reqs[id].phase == t.reqs[id].phase {
        SuccessHasRow(cfg, init, front, id, key);
      } else {
        SuccessInRecord(cfg, init, front, key);
      }
    }
  }

  lemma SuccessInRecord(cfg: Config, init: Sys, trace: seq<Action>, key: string)
    requires Initial(init) && Exec(cfg, init, trace).Some?
    requires var reply := LoserReply(Get(Exec(cfg, init, trace).value.db, key)); reply.Replayed? && reply.code == 204
    ensures AtMostOnce.RowsOf(Exec(cfg, init, trace).value.origins, key) >= 1
  {
    hide LoserReply, Get;
    var s := Exec(cfg, init, trace).value;
    ReplaysLastWriter(cfg, init, trace, key);
    var w := s.reqs[LastWriter(cfg, init, trace, key).value];
    OriginCounts(s.origins, w.outcome.value.index, key);
  }

  /**
   * So a retried save of which any try was told 204, first hand or by a replay, is in the deadline
   * exactly once.
   */
  lemma ToldSaveCountedOnce(cfg: Config, init: Sys, trace: seq<Action>, key: string, c: Command, from: int, span: int,
                            id: nat)
    requires cfg.Valid() && Initial(init) && TableOk(init.rows, cfg.offset) && Exec(cfg, init, trace).Some?
    requires c.Save? && AtMostOnce.OnlyRetries(trace, key, c)
    requires span <= cfg.Ttl() && WithinSpan(cfg, init, trace, key, from, span)
    requires var s := Exec(cfg, init, trace).value;
             id in s.reqs && s.reqs[id].key == Some(key) && ToldSuccess(s.reqs[id].phase)
    ensures var s := Exec(cfg, init, trace).value;
            && AtMostOnce.RowsOf(s.origins, key) == 1
            && |s.origins| == |s.rows| && AllStamped(s.rows, cfg.offset)
            && AtMostOnce.DeadlineSplits(s.rows, s.origins, cfg.offset, c.gameId, key, c.duration * SECOND)
  {
    hide AtMostOnce.DeadlineSplits, AllStamped, TableOk, WithinSpan, AtMostOnce.OnlyRetries, AtMostOnce.RowsOf;
    SuccessHasRow(cfg, init, trace, id, key);
    AtMostOnce.SaveCountedAtMostOnce(cfg, init, trace, key, c, from, span);
  }
}
