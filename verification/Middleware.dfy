/**
 * The imperative code around a handler: the idempotency middleware and the command handlers, each
 * run from start to end against the store and the table.
 */
module Middleware {
  import opened Prelude
  import opened GoTime
  import opened InteractionTable
  import opened IdempotencyRecord
  import opened IdempotencyStore
  import opened GameCommands
  import opened System
  import Timestamps

  /** The three ways one middleware call can be let down by the store. */
  datatype Faults = Faults(acquire: Fault, state: Fault, complete: Fault)

  /** What one undisturbed request leaves behind: the store, the reply, and whether the handler ran. */
  datatype Served = Served(db: Db, reply: Reply, entered: bool)

  /** What a client is told by the handler's writes; nothing if the handler returns an error. */
  function AnswerTo(calls: Option<seq<WriterCall>>): Reply {
    if calls.None? then Nothing else Answered(StatusCode(calls.value), BodyBytes(calls.value))
  }

  /**
   * One request served alone: acquired at `now`, completed `latency` later.  `calls` is what the
   * handler writes, None if it returns an error.  The handler runs only without a key or for the
   * request whose Acquire created the key; what is stored then is what the client was sent.
   */
  function ServeAlone(db: Db, now: int, latency: nat, ttl: int, claim: Option<int>, rawKey: string,
                      calls: Option<seq<WriterCall>>, faults: Faults): Served
  {
    var key := StoreKey(ActorOf(claim), rawKey);
    var acquired := SetNxEx(db, key, IN_PROGRESS, now, ttl);
    var answer := AnswerTo(calls);
    if rawKey == "" then Served(db, answer, true)
    else if !ValidKey(rawKey) then Served(db, Rejected(400), false)
    else if faults.acquire == BeforeEffect then Served(db, Rejected(500), false)
    else if faults.acquire == AfterEffect then Served(acquired, Rejected(500), false)
    else if key in db then
      Served(db, if faults.state != NoFault then Rejected(500) else LoserReply(Get(db, key)), false)
    else if calls.None? || faults.complete == BeforeEffect then Served(acquired, answer, true)
    else Served(SetEx(acquired, key, EncodeCompleted(answer.code, answer.body), now + latency, ttl), answer, true)
  }

  // ----- What a command handler does -----------------------------------------------------------

  /** What a handler does before it answers: turns the request down, or inserts at clock time `t`. */
  datatype Decision = TurnDown(code: int) | RunAt(t: int, replyLost: bool)

  /** The insert a decision attempts, in the zone of the server's clock. */
  function InsertAt(zone: int, rows: seq<Row>, c: Command, t: int): Result<Row, DbError> {
    InsertRow(rows, c.ToDraft(Timestamps.Written(t, zone)))
  }

  function RowsAfter(zone: int, rows: seq<Row>, c: Command, d: Decision): seq<Row> {
    if d.RunAt? && InsertAt(zone, rows, c, d.t).Success? then rows + [InsertAt(zone, rows, c, d.t).value] else rows
  }

  function OutcomeOf(zone: int, rows: seq<Row>, c: Command, d: Decision): Outcome {
    if d.TurnDown? then Denied(d.code)
    else if d.replyLost then Denied(500)
    else if InsertAt(zone, rows, c, d.t).Success? then Appended(|rows|)
    else Refused(CommandErrorOf(c, InsertAt(zone, rows, c, d.t).error))
  }

  function CallsOf(o: Outcome, chunks: seq<seq<Byte>>): seq<WriterCall> {
    [Header(StatusOf(o))] + Bodies(chunks)
  }

  /** A handler's decision, the body chunks it writes, and whether it then returns an error. */
  datatype Handler = Handler(decision: Decision, chunks: seq<seq<Byte>>, fails: bool)

  /**
   * A call of `handleSave`, `handlePause` or `handleResume`: how the access check denies it, if it
   * does; whether a save's body can be read; the clock reading, if there is one; how the insert goes
   * wrong, if it does; the body of an error response; and whether the handler ends in an error
   * although it has decided.
   */
  datatype Call = Call(denied: Option<int>, command: Command, readable: bool, clock: Option<int>, fault: Fault,
                       errorBody: seq<Byte>, fails: bool)
  {
    predicate Possible() {
      denied.Some? ==> denied.value in {400, 401, 404, 500}
    }

    function Decides(): Decision {
      if denied.Some? then TurnDown(denied.value)
      else if command.Save? && (!readable || command.duration < 1) then TurnDown(400)
      else if !command.WellFormed() || clock.None? || fault == BeforeEffect then TurnDown(500)
      else RunAt(clock.value, fault == AfterEffect)
    }

    function Outcome(zone: int, rows: seq<Row>): Outcome {
      OutcomeOf(zone, rows, command, Decides())
    }

    /** A success writes no body. */
    function AsHandler(zone: int, rows: seq<Row>): Handler {
      Handler(Decides(), if Outcome(zone, rows).Appended? then [] else [errorBody], fails)
    }

    /** What the handler writes; None if it returns an error. */
    function Calls(zone: int, rows: seq<Row>): Option<seq<WriterCall>> {
      if fails then None else Some(CallsOf(Outcome(zone, rows), AsHandler(zone, rows).chunks))
    }

    /** The clock reading is one the transition system allows. */
    predicate InRange(cfg: Config) {
      clock.Some? ==> clock.value >= SECOND && Timestamps.Formattable(clock.value, cfg.offset)
    }
  }

  /** What the record of a taken key makes its client hear; the key may have expired before it is read. */
  lemma LoserIsTold(db: Db, key: string)
    ensures key !in db ==> LoserReply(Get(db, key)) == Rejected(500)
    ensures key in db ==>
            var record, reply := db[key].value, LoserReply(Get(db, key));
            && (record == "IN_PROGRESS" ==> reply == Rejected(409))
            && (DecodeRecord(record).Completed? ==>
                  reply == Replayed(DecodeRecord(record).code, DecodeRecord(record).body))
            && (record != "IN_PROGRESS" && !DecodeRecord(record).Completed? ==> reply == Rejected(500))
  {
    if key in db { RecordsNeverConfused(db[key].value, 0, []); }
    hide Cut, EncodeCompleted;
  }

  lemma OneBody(bytes: seq<Byte>)
    ensures Bodies([bytes]) == [Body(bytes)] && Bodies([]) == []
  {}

  class HTTPAdapter {
    const idem: ValkeyIdempotencyStore?
    const idemTTL: int
    const commands: Commands

    constructor (idem: ValkeyIdempotencyStore?, idemTTL: int, commands: Commands)
      ensures this.idem == idem && this.idemTTL == idemTTL && this.commands == commands
    {
      this.idem, this.idemTTL, this.commands := idem, idemTTL, commands;
    }

    /**
     * The middleware around a command handler.  The table changes only if the handler was entered;
     * without a store every request enters.
     */
    method Idempotency(claim: Option<int>, rawKey: string, call: Call, now: int, latency: nat, faults: Faults)
      returns (reply: Reply, entered: bool)
      requires call.Possible()
      modifies commands.table, if idem == null then {} else {idem}
      ensures var calls := call.Calls(commands.zone, old(commands.table.rows));
              if idem == null then entered && reply == AnswerTo(calls)
              else Served(idem.db, reply, entered) ==
                   ServeAlone(old(idem.db), now, latency, idemTTL, claim, rawKey, calls, faults)
      ensures commands.table.rows ==
              if entered then RowsAfter(commands.zone, old(commands.table.rows), call.command, call.Decides())
              else old(commands.table.rows)
      // Without a store or a key the handler runs; with a malformed key it does not.
      ensures idem == null || rawKey == "" ==> entered
      ensures idem != null && rawKey != "" && !ValidKey(rawKey) ==>
                !entered && reply == Rejected(400) && idem.db == old(idem.db)
      // A failed Acquire runs nothing; a failed reading of the state tells nothing.
      ensures idem != null && rawKey != "" && ValidKey(rawKey) && faults.acquire != NoFault ==>
                !entered && reply == Rejected(500)
      // A free key is won by this request alone, which runs the handler.
      ensures idem != null && rawKey != "" && ValidKey(rawKey) && faults.acquire == NoFault ==>
                (entered <==> StoreKey(ActorOf(claim), rawKey) !in old(idem.db))
      // A taken key is left as it is, and the client is told what its record says.
      ensures idem != null && rawKey != "" && ValidKey(rawKey) && faults.acquire == NoFault && !entered ==>
                var record := old(idem.db)[StoreKey(ActorOf(claim), rawKey)].value;
                && idem.db == old(idem.db)
                && (faults.state != NoFault ==> reply == Rejected(500))
                && (faults.state == NoFault && record == "IN_PROGRESS" ==> reply == Rejected(409))
                && (faults.state == NoFault && DecodeRecord(record).Completed? ==>
                      reply == Replayed(DecodeRecord(record).code, DecodeRecord(record).body))
                && (faults.state == NoFault && record != "IN_PROGRESS" && !DecodeRecord(record).Completed? ==>
                      reply == Rejected(500))
      // The winner's answer is recorded with a fresh TTL, unless it failed or the Complete did.
      ensures idem != null && rawKey != "" && ValidKey(rawKey) && entered ==>
                var key := StoreKey(ActorOf(claim), rawKey);
                key in idem.db && idem.db[key] ==
                  if reply.Answered? && faults.complete != BeforeEffect
                  then Entry(EncodeCompleted(reply.code, reply.body), now + latency + EffectiveTtl(idemTTL))
                  else Entry("IN_PROGRESS", now + EffectiveTtl(idemTTL))
      // A handler that ran and did not fail has answered 204 exactly for its own, acknowledged row.
      ensures entered ==> (reply.Answered? <==> !call.fails) && (reply.Answered? || reply == Nothing)
      ensures entered && !call.fails ==>
                (reply == Answered(204, []) <==>
                   call.fault == NoFault && commands.table.rows != old(commands.table.rows))
    {
      hide RowsAfter, OutcomeOf, CallsOf, ValidKey, StoreKey, EncodeCompleted, Get, LoserReply;
      if idem == null || rawKey == "" {
        reply := Next(call);
        return reply, true;
      }
      if !ValidKey(rawKey) {
        return Rejected(400), false;
      }
      var storeKey := StoreKey(ActorOf(claim), rawKey);
      var acquired := idem.Acquire(storeKey, idemTTL, now, faults.acquire);
      if acquired.None? {
        return Rejected(500), false;
      }
      if !acquired.value {
        var state := idem.State(storeKey, faults.state);
        if state.None? {
          return Rejected(500), false;
        }
        LoserIsTold(idem.db, storeKey);
        return LoserReply(state.value), false;
      }
      reply := Next(call);
      if reply.Answered? {
        var _ := idem.Complete(storeKey, reply.code, reply.body, idemTTL, now + latency, faults.complete);
      }
      return reply, true;
    }

    /** The wrapped handler, with its writes recorded. */
    method Next(call: Call) returns (reply: Reply)
      requires call.Possible()
      modifies commands.table
      ensures reply == AnswerTo(call.Calls(commands.zone, old(commands.table.rows)))
      ensures commands.table.rows ==
              RowsAfter(commands.zone, old(commands.table.rows), call.command, call.Decides())
      ensures if call.fails then reply == Nothing else reply.Answered?
      ensures !call.fails ==>
                (reply == Answered(204, []) <==>
                   call.fault == NoFault && commands.table.rows != old(commands.table.rows))
    {
      hide RowsAfter, OutcomeOf, StatusCode, BodyBytes, Bodies, InsertAt, StatusOf, CommandErrorOf, Command.WellFormed;
      ghost var rows := commands.table.rows;
      var rec := new RecordingWriter();
      var code := HandleCommand(commands, call, rec);
      if call.fails {
        return Nothing;
      }
      OneBody(call.errorBody);
      assert rec.passed == CallsOf(call.Outcome(commands.zone, rows), if code == 204 then [] else [call.errorBody]);
      DefaultStatus([]);
      HeaderThenChunks(code, if code == 204 then [] else [Body(call.errorBody)]);
      var status, body := rec.Recorded();
      reply := Answered(status, body);
    }
  }

  // ----- One request served alone is a run -----------------------------------------------------

  predicate CanDecide(cfg: Config, c: Command, d: Decision) {
    match d
    case TurnDown(code) => code in {400, 401, 404, 500}
    case RunAt(t, _) => c.WellFormed() && t >= SECOND && Timestamps.Formattable(t, cfg.offset)
  }

  /** A handler whose command succeeds writes no body. */
  predicate CanHandle(cfg: Config, rows: seq<Row>, c: Command, h: Handler) {
    CanDecide(cfg, c, h.decision) && (OutcomeOf(cfg.Zone(), rows, c, h.decision).Appended? ==> h.chunks == [])
  }

  function DecisionTrace(id: nat, d: Decision): seq<Action> {
    match d
    case TurnDown(code) => [Deny(id, code)]
    case RunAt(t, replyLost) => [ReadClock(id, t), Insert(id, replyLost)]
  }

  function AnswerTrace(id: nat, h: Handler, latency: nat, complete: Fault): seq<Action> {
    if h.fails then [Abandon(id)] else [Tick(latency), Respond(id, h.chunks), Complete(id, complete)]
  }

  /** The handler's part of a run, and the end of its request. */
  function HandlerTrace(id: nat, h: Handler, latency: nat, complete: Fault): seq<Action> {
    DecisionTrace(id, h.decision) + AnswerTrace(id, h, latency, complete)
  }

  /** The actions of one request served alone. */
  function AloneTrace(db: Db, id: nat, q: Request, h: Handler, latency: nat, faults: Faults): seq<Action> {
    if q.rawKey == "" then [Arrive(id, q)] + HandlerTrace(id, h, latency, faults.complete)
    else if !ValidKey(q.rawKey) then [Arrive(id, q)]
    else if faults.acquire != NoFault then [Arrive(id, q), AcquireKey(id, faults.acquire)]
    else if StoreKey(ActorOf(q.claim), q.rawKey) in db then
      [Arrive(id, q), AcquireKey(id, NoFault), ReadState(id, faults.state)]
    else [Arrive(id, q), AcquireKey(id, NoFault)] + HandlerTrace(id, h, latency, faults.complete)
  }

  /** The outcome of a run, as far as one request, the store and the table are concerned. */
  ghost predicate EndsIn(r: Option<Sys>, rows: seq<Row>, id: nat, db: Db, reply: Reply) {
    r.Some? && r.value.rows == rows && r.value.db == db && id in r.value.reqs && r.value.reqs[id].phase == Done(reply)
  }

  lemma DecisionRuns(cfg: Config, s: Sys, trace: seq<Action>, id: nat, c: Command, d: Decision)
    requires Exec(cfg, s, trace).Some? && CanDecide(cfg, c, d)
    requires var t := Exec(cfg, s, trace).value;
             id in t.reqs && t.reqs[id].phase == Running && t.reqs[id].request.command == c
    ensures var t, r := Exec(cfg, s, trace).value, Exec(cfg, s, trace + DecisionTrace(id, d));
            && r.Some? && r.value.rows == RowsAfter(cfg.Zone(), t.rows, c, d)
            && r.value.db == t.db && r.value.now == t.now && id in r.value.reqs
            && r.value.reqs[id] ==
                 t.reqs[id].(phase := Decided, outcome := Some(OutcomeOf(cfg.Zone(), t.rows, c, d)))
  {
    hide InsertRow, Timestamps.Format, Timestamps.Written, Timestamps.Formattable;
    hide Command.ToDraft, CommandErrorOf, Exec, Admit, DoAcquire, DoReadState, DoRespond, DoComplete;
    match d
    case TurnDown(code) => ExecAppend(cfg, s, trace, Deny(id, code));
    case RunAt(time, replyLost) =>
      Timestamps.WrittenIsFormat(time, cfg.offset);
      ExecAppend(cfg, s, trace, ReadClock(id, time));
      ExecAppend(cfg, s, trace + [ReadClock(id, time)], Insert(id, replyLost));
      assert trace + DecisionTrace(id, d) == trace + [ReadClock(id, time)] + [Insert(id, replyLost)];
  }

  lemma RespondRuns(cfg: Config, s: Sys, trace: seq<Action>, id: nat, o: Outcome, h: Handler, latency: nat)
    requires Exec(cfg, s, trace).Some? && (o.Appended? ==> h.chunks == [])
    requires var t := Exec(cfg, s, trace).value;
             id in t.reqs && t.reqs[id].phase == Decided && t.reqs[id].outcome == Some(o)
    ensures var t, calls := Exec(cfg, s, trace).value, CallsOf(o, h.chunks);
            Exec(cfg, s, trace + [Tick(latency)] + [Respond(id, h.chunks)]) ==
              Some(t.(now := t.now + latency)
                    .Put(id, t.reqs[id].(phase := Responded(StatusCode(calls), BodyBytes(calls)))))
  {
    hide StatusCode, BodyBytes, Bodies, StatusOf, Exec;
    hide Admit, DoAcquire, DoReadState, DoDeny, DoReadClock, DoInsert, DoComplete;
    ExecAppend(cfg, s, trace, Tick(latency));
    ExecAppend(cfg, s, trace + [Tick(latency)], Respond(id, h.chunks));
  }

  lemma AnswerRuns(cfg: Config, s: Sys, trace: seq<Action>, id: nat, o: Outcome, h: Handler, latency: nat,
                   complete: Fault)
    requires Exec(cfg, s, trace).Some? && (o.Appended? ==> h.chunks == [])
    requires var t := Exec(cfg, s, trace).value;
             id in t.reqs && t.reqs[id].phase == Decided && t.reqs[id].outcome == Some(o)
    ensures var t, calls := Exec(cfg, s, trace).value, CallsOf(o, h.chunks);
            EndsIn(Exec(cfg, s, trace + AnswerTrace(id, h, latency, complete)), t.rows, id,
                   if h.fails || !Writes(t.reqs[id], complete) then t.db
                   else SetEx(t.db, t.reqs[id].key.value, EncodeCompleted(StatusCode(calls), BodyBytes(calls)),
                              t.now + latency, cfg.ttl),
                   if h.fails then Nothing else AnswerTo(Some(calls)))
  {
    hide EncodeCompleted, StatusCode, BodyBytes, CallsOf, Exec;
    hide Admit, DoAcquire, DoReadState, DoDeny, DoReadClock, DoInsert, DoRespond;
    if h.fails {
      ExecAppend(cfg, s, trace, Abandon(id));
    } else {
      var answered := trace + [Tick(latency)] + [Respond(id, h.chunks)];
      RespondRuns(cfg, s, trace, id, o, h, latency);
      ExecAppend(cfg, s, answered, Complete(id, complete));
      assert trace + AnswerTrace(id, h, latency, complete) == answered + [Complete(id, complete)];
    }
  }

  lemma HandlerRuns(cfg: Config, s: Sys, trace: seq<Action>, id: nat, c: Command, h: Handler, latency: nat,
                    complete: Fault)
    requires Exec(cfg, s, trace).Some? && CanHandle(cfg, Exec(cfg, s, trace).value.rows, c, h)
    requires var t := Exec(cfg, s, trace).value;
             id in t.reqs && t.reqs[id].phase == Running && t.reqs[id].request.command == c
    ensures var t := Exec(cfg, s, trace).value;
            var calls := CallsOf(OutcomeOf(cfg.Zone(), t.rows, c, h.decision), h.chunks);
            EndsIn(Exec(cfg, s, trace + HandlerTrace(id, h, latency, complete)),
                   RowsAfter(cfg.Zone(), t.rows, c, h.decision), id,
                   if h.fails || !Writes(t.reqs[id], complete) then t.db
                   else SetEx(t.db, t.reqs[id].key.value, EncodeCompleted(StatusCode(calls), BodyBytes(calls)),
                              t.now + latency, cfg.ttl),
                   if h.fails then Nothing else AnswerTo(Some(calls)))
  {
    hide EncodeCompleted, StatusCode, BodyBytes, CallsOf, OutcomeOf, RowsAfter, DecisionTrace, AnswerTrace, Exec;
    DecisionRuns(cfg, s, trace, id, c, h.decision);
    var o := OutcomeOf(cfg.Zone(), Exec(cfg, s, trace).value.rows, c, h.decision);
    AnswerRuns(cfg, s, trace + DecisionTrace(id, h.decision), id, o, h, latency, complete);
    assert trace + HandlerTrace(id, h, latency, complete) ==
           trace + DecisionTrace(id, h.decision) + AnswerTrace(id, h, latency, complete);
  }

  lemma ArriveRuns(cfg: Config, s: Sys, id: nat, q: Request)
    requires id !in s.reqs
    ensures Exec(cfg, s, [Arrive(id, q)]) == Some(s.Put(id, Admit(q)))
  {}

  lemma AcquireRuns(cfg: Config, s: Sys, id: nat, q: Request, fault: Fault)
    requires id !in s.reqs
    ensures Exec(cfg, s, [Arrive(id, q), AcquireKey(id, fault)]) ==
            DoAcquire(cfg, s.Put(id, Admit(q)), id, Admit(q), fault)
  {
    hide Admit, DoAcquire;
    ArriveRuns(cfg, s, id, q);
    ExecAppend(cfg, s, [Arrive(id, q)], AcquireKey(id, fault));
    assert [Arrive(id, q)] + [AcquireKey(id, fault)] == [Arrive(id, q), AcquireKey(id, fault)];
  }

  lemma LoserRuns(cfg: Config, s: Sys, id: nat, q: Request, key: string, fault: Fault)
    requires id !in s.reqs && key in s.db && Admit(q) == Req(q, Some(key), Arrived, None, None)
    ensures EndsIn(Exec(cfg, s, [Arrive(id, q), AcquireKey(id, NoFault), ReadState(id, fault)]), s.rows, id, s.db,
                   if fault != NoFault then Rejected(500) else LoserReply(Get(s.db, key)))
  {
    hide Admit, LoserReply, Get;
    var t := [Arrive(id, q), AcquireKey(id, NoFault)];
    AcquireRuns(cfg, s, id, q, NoFault);
    ExecAppend(cfg, s, t, ReadState(id, fault));
    assert t + [ReadState(id, fault)] == [Arrive(id, q), AcquireKey(id, NoFault), ReadState(id, fault)];
  }

  lemma WinnerRuns(cfg: Config, s: Sys, id: nat, q: Request, key: string, h: Handler, latency: nat, complete: Fault)
    requires id !in s.reqs && key !in s.db && Admit(q) == Req(q, Some(key), Arrived, None, None)
    requires CanHandle(cfg, s.rows, q.command, h)
    ensures var calls := CallsOf(OutcomeOf(cfg.Zone(), s.rows, q.command, h.decision), h.chunks);
            var acquired := SetNxEx(s.db, key, IN_PROGRESS, s.now, cfg.ttl);
            var trace := [Arrive(id, q), AcquireKey(id, NoFault)] + HandlerTrace(id, h, latency, complete);
            EndsIn(Exec(cfg, s, trace), RowsAfter(cfg.Zone(), s.rows, q.command, h.decision), id,
                   if h.fails || complete == BeforeEffect then acquired
                   else SetEx(acquired, key, EncodeCompleted(StatusCode(calls), BodyBytes(calls)),
                              s.now + latency, cfg.ttl),
                   if h.fails then Nothing else AnswerTo(Some(calls)))
  {
    hide Admit, Exec, HandlerTrace, StatusCode, BodyBytes, EncodeCompleted, CallsOf, OutcomeOf, RowsAfter, AnswerTo;
    AcquireRuns(cfg, s, id, q, NoFault);
    HandlerRuns(cfg, s, [Arrive(id, q), AcquireKey(id, NoFault)], id, q.command, h, latency, complete);
  }

  /**
   * The middleware around a command handler, run from start to end, is one of the runs of the
   * transition system: same store, same table, same reply.  The table changes only if the handler
   * was entered.  The system only adds that other steps may come in between.
   */
  lemma ServedAloneIsARun(cfg: Config, s: Sys, id: nat, q: Request, h: Handler, latency: nat, faults: Faults)
    requires id !in s.reqs && CanHandle(cfg, s.rows, q.command, h)
    ensures var o := OutcomeOf(cfg.Zone(), s.rows, q.command, h.decision);
            var calls := if h.fails then None else Some(CallsOf(o, h.chunks));
            var served := ServeAlone(s.db, s.now, latency, cfg.ttl, q.claim, q.rawKey, calls, faults);
            EndsIn(Exec(cfg, s, AloneTrace(s.db, id, q, h, latency, faults)),
                   if served.entered then RowsAfter(cfg.Zone(), s.rows, q.command, h.decision) else s.rows, id,
                   served.db, served.reply)
  {
    hide ValidKey, StoreKey, EncodeCompleted, StatusCode, BodyBytes, Get, LoserReply, Exec, HandlerTrace;
    hide CallsOf, OutcomeOf, RowsAfter;
    var key := StoreKey(ActorOf(q.claim), q.rawKey);
    if q.rawKey == "" {
      ArriveRuns(cfg, s, id, q);
      HandlerRuns(cfg, s, [Arrive(id, q)], id, q.command, h, latency, faults.complete);
    } else if !ValidKey(q.rawKey) {
      ArriveRuns(cfg, s, id, q);
    } else if faults.acquire != NoFault {
      AcquireRuns(cfg, s, id, q, faults.acquire);
    } else if key in s.db {
      LoserRuns(cfg, s, id, q, key, faults.state);
    } else {
      WinnerRuns(cfg, s, id, q, key, h, latency, faults.complete);
    }
  }

  /** Every call whose clock reading is in the modelled range is one of those handlers. */
  lemma CallCanBeHandled(cfg: Config, rows: seq<Row>, call: Call)
    requires call.Possible() && call.InRange(cfg)
    ensures CanHandle(cfg, rows, call.command, call.AsHandler(cfg.Zone(), rows))
  {
    hide InsertAt;
  }

  /**
   * So the middleware method is a run of the system: what it leaves in the store, in the table and
   * with the client is what the run leaves, for every call, key, latency and fault.
   */
  lemma MiddlewareIsARun(cfg: Config, s: Sys, id: nat, q: Request, call: Call, latency: nat, faults: Faults)
    requires id !in s.reqs && call.command == q.command && call.Possible() && call.InRange(cfg)
    ensures var served := ServeAlone(s.db, s.now, latency, cfg.ttl, q.claim, q.rawKey,
                                     call.Calls(cfg.Zone(), s.rows), faults);
            EndsIn(Exec(cfg, s, AloneTrace(s.db, id, q, call.AsHandler(cfg.Zone(), s.rows), latency, faults)),
                   if served.entered then RowsAfter(cfg.Zone(), s.rows, call.command, call.Decides()) else s.rows, id,
                   served.db, served.reply)
  {
    hide Exec, AloneTrace, ServeAlone, RowsAfter, OutcomeOf, CallsOf, CanHandle;
    CallCanBeHandled(cfg, s.rows, call);
    ServedAloneIsARun(cfg, s, id, q, call.AsHandler(cfg.Zone(), s.rows), latency, faults);
  }

  // ----- The command handlers ------------------------------------------------------------------

  /** The three refusals of the state machine; the fourth guard is about the clock. */
  predicate Conflicts(e: DbError) {
    e == DbError.CannotSaveWhilePaused || e == CannotPauseNotPlaying || e == CannotResumeNotPaused
  }

  /** Which refusal the client is told by which code. */
  lemma RefusalCode(rows: seq<Row>, c: Command, stamp: string)
    requires c.WellFormed()
    ensures var inserted := InsertRow(rows, c.ToDraft(stamp));
            inserted.Failure? ==>
              var code := StatusOf(Refused(CommandErrorOf(c, inserted.error)));
              (code == 409 <==> Conflicts(inserted.error)) && (code == 500 <==> inserted.error == OccurredAtPrecedes)
  {
    hide InsertRow, TriggerError;
    TriggerDecides(rows, c, stamp);
  }

  /**
   * `handleSave`, `handlePause` and `handleResume`: the access check may deny, a save's body may be
   * unreadable, and otherwise the command runs once.  The client is told 204 exactly when a row was
   * appended and the insert's reply was not lost, 409 for a refusal of the state machine, 500 for
   * everything else.
   */
  method HandleCommand(commands: Commands, call: Call, w: RecordingWriter) returns (code: int)
    requires w.Valid() && call.Possible()
    modifies commands.table, w
    ensures w.Valid()
    ensures w.passed == old(w.passed) + [Header(code)] + if code == 204 then [] else [Body(call.errorBody)]
    ensures commands.table.rows == RowsAfter(commands.zone, old(commands.table.rows), call.command, call.Decides())
    ensures code == StatusOf(call.Outcome(commands.zone, old(commands.table.rows)))
    ensures code == 204 <==> call.Outcome(commands.zone, old(commands.table.rows)).Appended?
    ensures code == 204 <==> call.fault == NoFault && commands.table.rows != old(commands.table.rows)
    ensures call.denied.Some? ==> code == call.denied.value && commands.table.rows == old(commands.table.rows)
    ensures call.denied.None? && call.command.Save? && (!call.readable || call.command.duration < 1) ==>
              code == 400 && commands.table.rows == old(commands.table.rows)
    ensures call.denied.None? && (call.command.Save? ==> call.readable && call.command.duration >= 1) ==>
              if !call.command.WellFormed() || call.clock.None? || call.fault == BeforeEffect then
                code == 500 && commands.table.rows == old(commands.table.rows)
              else
                var inserted := InsertAt(commands.zone, old(commands.table.rows), call.command, call.clock.value);
                && (inserted.Success? ==> commands.table.rows == old(commands.table.rows) + [inserted.value])
                && (inserted.Failure? ==> commands.table.rows == old(commands.table.rows))
                && (call.fault == AfterEffect ==> code == 500)
                && (call.fault == NoFault && inserted.Success? ==> code == 204)
                && (call.fault == NoFault && inserted.Failure? ==>
                      && (code == 409 <==> Conflicts(inserted.error))
                      && (code == 500 <==> inserted.error == OccurredAtPrecedes)
                      && code == StatusOf(Refused(CommandErrorOf(call.command, inserted.error))) && code in {409, 500})
  {
    hide InsertRow, Timestamps.Written, Command.ToDraft, StatusCode, BodyBytes, Conflicts;
    var c := call.command;
    ghost var rows := commands.table.rows;
    if c.WellFormed() && call.clock.Some? {
      RefusalCode(rows, c, Timestamps.Written(call.clock.value, commands.zone));
    }
    if call.denied.Some? {
      code := call.denied.value;
    } else if c.Save? && (!call.readable || c.duration < 1) {
      code := 400;
    } else {
      var err := RunCommand(commands, c, call.clock, call.fault);
      if err.None? {
        code := 204;
      } else if err.value == ErrCannotSaveWhilePaused || err.value == ErrCannotPause || err.value == ErrCannotResume {
        code := 409;
      } else {
        code := 500;
      }
    }
    w.WriteHeader(code);
    if code != 204 {
      w.Write(call.errorBody);
    }
  }

  /** The use case behind each route. */
  method RunCommand(commands: Commands, c: Command, clock: Option<int>, fault: Fault)
    returns (r: Option<CommandError>)
    modifies commands.table
    ensures if c.WellFormed() && clock.Some? then commands.Ran(c, clock.value, fault, r)
            else unchanged(commands.table) && r == Some(c.EarlyError())
  {
    match c {
      case Save(g, p, n) => r := commands.SaveGame(g, p, n, clock, fault);
      case Pause(g, p) => r := commands.PauseGame(g, p, clock, fault);
      case Resume(g, p) => r := commands.ResumeGame(g, p, clock, fault);
    }
  }
}
