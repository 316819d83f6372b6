/**
 * The server as a transition system: any number of game commands, the idempotency store, the table.
 *
 * Each action is one atomic step of one request (or of the environment): a store command, a clock
 * reading, a guarded insert, a response.  A run is any sequence of enabled actions, so requests
 * interleave freely, take any time, and may fail or vanish at every step.  The fields `origins`,
 * `winner`, `acquiredAt` and `outcome` only record history; no step looks at `origins` or `winner`.
 */
module System {
  import opened Prelude
  import opened GoTime
  import opened InteractionTable
  import opened IdempotencyRecord
  import opened IdempotencyStore
  import opened GameCommands
  import Timestamps

  datatype Config = Config(ttl: int, offset: int) {
    predicate Valid() {
      ttl >= SECOND && Timestamps.ValidOffset(offset)
    }

    function Ttl(): int {
      EffectiveTtl(ttl)
    }

    /** The zone in seconds, as the clock has it. */
    function Zone(): int {
      offset * 60
    }
  }

  /** A mutation request: the claim in its cookie, its key header ("" if absent), its command. */
  datatype Request = Request(claim: Option<int>, rawKey: string, command: Command)

  /** How the handler decided: a row was appended, the command failed, or it never got that far. */
  datatype Outcome = Appended(index: nat) | Refused(error: CommandError) | Denied(code: int)

  datatype Reply =
    | Nothing
    | Rejected(code: int)
    | Answered(code: int, body: seq<Byte>)
    | Replayed(code: int, body: seq<Byte>)

  datatype Phase =
    | Arrived                                 // about to acquire its key
    | Losing                                  // the key was taken; about to read its state
    | Running                                 // inside the handler
    | Timed(stamp: string)                    // the command has read the clock
    | Decided                                 // the command has returned
    | Responded(code: int, body: seq<Byte>)   // the response is written and recorded
    | Done(reply: Reply)

  datatype Req = Req(
    request: Request,
    key: Option<string>,
    phase: Phase,
    acquiredAt: Option<int>,
    outcome: Option<Outcome>)

  datatype Sys = Sys(
    now: int,
    db: Db,
    winner: map<string, nat>,
    rows: seq<Row>,
    origins: seq<Option<string>>,
    reqs: map<nat, Req>)
  {
    function Put(id: nat, r: Req): Sys {
      this.(reqs := reqs[id := r])
    }
  }

  datatype Action =
    | Tick(duration: nat)
    | Expire(key: string)
    | Arrive(id: nat, request: Request)
    | AcquireKey(id: nat, fault: Fault)
    | ReadState(id: nat, fault: Fault)
    | Deny(id: nat, code: int)
    | ReadClock(id: nat, t: int)
    | Insert(id: nat, replyLost: bool)
    | Respond(id: nat, chunks: seq<seq<Byte>>)
    | Complete(id: nat, fault: Fault)
    | Abandon(id: nat)

  /** The middleware's first decisions: no key passes through, a malformed key is refused. */
  function Admit(q: Request): Req {
    if q.rawKey == "" then Req(q, None, Running, None, None)
    else if !ValidKey(q.rawKey) then Req(q, None, Done(Rejected(400)), None, None)
    else Req(q, Some(StoreKey(ActorOf(q.claim), q.rawKey)), Arrived, None, None)
  }

  predicate Wins(s: Sys, r: Req, fault: Fault) {
    r.key.Some? && fault != BeforeEffect && r.key.value !in s.db
  }

  function DoAcquire(cfg: Config, s: Sys, id: nat, r: Req, fault: Fault): Option<Sys> {
    if r.phase != Arrived || r.key.None? then None else
    var won := Wins(s, r, fault);
    var phase := if fault != NoFault then Done(Rejected(500)) else if won then Running else Losing;
    var after := s.Put(id, r.(phase := phase, acquiredAt := if won then Some(s.now) else None));
    if !won then Some(after)
    else Some(after.(db := SetNxEx(s.db, r.key.value, IN_PROGRESS, s.now, cfg.ttl),
                     winner := s.winner[r.key.value := id]))
  }

  function LoserReply(state: State): Reply {
    match state
    case Absent => Rejected(500)
    case Present(InProgress) => Rejected(409)
    case Present(Malformed) => Rejected(500)
    case Present(Completed(code, body)) => Replayed(code, body)
  }

  function DoReadState(s: Sys, id: nat, r: Req, fault: Fault): Option<Sys> {
    if r.phase != Losing || r.key.None? then None else
    var reply := if fault != NoFault then Rejected(500) else LoserReply(Get(s.db, r.key.value));
    Some(s.Put(id, r.(phase := Done(reply))))
  }

  /** The handler, or the database before any effect, turns the request down. */
  function DoDeny(s: Sys, id: nat, r: Req, code: int): Option<Sys> {
    if !(r.phase == Running || r.phase.Timed?) || code !in {400, 401, 404, 500} then None
    else Some(s.Put(id, r.(phase := Decided, outcome := Some(Denied(code)))))
  }

  function DoReadClock(cfg: Config, s: Sys, id: nat, r: Req, t: int): Option<Sys> {
    if r.phase != Running || !r.request.command.WellFormed() then None
    else if t < SECOND || !Timestamps.Formattable(t, cfg.offset) then None
    else Some(s.Put(id, r.(phase := Timed(Timestamps.Format(t, cfg.offset)))))
  }

  /** The guarded insert; its reply may be lost after the row is in. */
  function DoInsert(s: Sys, id: nat, r: Req, replyLost: bool): Option<Sys> {
    if !r.phase.Timed? then None else
    var inserted := InsertRow(s.rows, r.request.command.ToDraft(r.phase.stamp));
    var outcome :=
      if replyLost then Denied(500)
      else if inserted.Success? then Appended(|s.rows|)
      else Refused(CommandErrorOf(r.request.command, inserted.error));
    var after := s.Put(id, r.(phase := Decided, outcome := Some(outcome)));
    if inserted.Failure? then Some(after)
    else Some(after.(rows := s.rows + [inserted.value], origins := s.origins + [r.key]))
  }

  /** `commandError` and the success response: state-machine refusals are conflicts. */
  function StatusOf(o: Outcome): int {
    match o
    case Appended(_) => 204
    case Denied(code) => code
    case Refused(e) =>
      if e == ErrCannotSaveWhilePaused || e == ErrCannotPause || e == ErrCannotResume then 409 else 500
  }

  function Bodies(chunks: seq<seq<Byte>>): seq<WriterCall> {
    seq(|chunks|, i requires 0 <= i < |chunks| => Body(chunks[i]))
  }

  function DoRespond(s: Sys, id: nat, r: Req, chunks: seq<seq<Byte>>): Option<Sys> {
    if r.phase != Decided || r.outcome.None? || (r.outcome.value.Appended? && chunks != []) then None else
    var calls := [Header(StatusOf(r.outcome.value))] + Bodies(chunks);
    Some(s.Put(id, r.(phase := Responded(StatusCode(calls), BodyBytes(calls)))))
  }

  predicate Writes(r: Req, fault: Fault) {
    r.key.Some? && fault != BeforeEffect
  }

  function DoComplete(cfg: Config, s: Sys, id: nat, r: Req, fault: Fault): Option<Sys> {
    if !r.phase.Responded? then None else
    var code, body := r.phase.code, r.phase.body;
    var after := s.Put(id, r.(phase := Done(Answered(code, body))));
    if !Writes(r, fault) then Some(after)
    else Some(after.(db := SetEx(s.db, r.key.value, EncodeCompleted(code, body), s.now, cfg.ttl)))
  }

  /** A crash, a cancelled request, or a handler error: the request ends without a Complete. */
  function DoAbandon(s: Sys, id: nat, r: Req): Option<Sys> {
    if r.phase.Done? then None else Some(s.Put(id, r.(phase := Done(Nothing))))
  }

  function Handle(cfg: Config, s: Sys, id: nat, a: Action): Option<Sys> {
    if id !in s.reqs then None else
    match a
    case AcquireKey(_, fault) => DoAcquire(cfg, s, id, s.reqs[id], fault)
    case ReadState(_, fault) => DoReadState(s, id, s.reqs[id], fault)
    case Deny(_, code) => DoDeny(s, id, s.reqs[id], code)
    case ReadClock(_, t) => DoReadClock(cfg, s, id, s.reqs[id], t)
    case Insert(_, replyLost) => DoInsert(s, id, s.reqs[id], replyLost)
    case Respond(_, chunks) => DoRespond(s, id, s.reqs[id], chunks)
    case Complete(_, fault) => DoComplete(cfg, s, id, s.reqs[id], fault)
    case Abandon(_) => DoAbandon(s, id, s.reqs[id])
    case _ => None
  }

  /** One step, if the action is enabled. */
  function Apply(cfg: Config, s: Sys, a: Action): Option<Sys> {
    match a
    case Tick(d) => Some(s.(now := s.now + d))
    case Expire(k) => if k in s.db && s.db[k].expireAt <= s.now then Some(s.(db := s.db - {k})) else None
    case Arrive(id, q) => if id in s.reqs then None else Some(s.Put(id, Admit(q)))
    case _ => Handle(cfg, s, a.id, a)
  }

  function Exec(cfg: Config, init: Sys, trace: seq<Action>): Option<Sys> {
    if trace == [] then Some(init) else
    var s := Exec(cfg, init, Front(trace));
    if s.None? then None else Apply(cfg, s.value, Last(trace))
  }

  /** No keys, no requests; the table may already hold rows. */
  predicate Initial(s: Sys) {
    && s.db == map[] && s.winner == map[] && s.reqs == map[]
    && s.origins == seq(|s.rows|, _ => None)
  }

  lemma ExecAppend(cfg: Config, init: Sys, trace: seq<Action>, a: Action)
    requires Exec(cfg, init, trace).Some?
    ensures Exec(cfg, init, trace + [a]) == Apply(cfg, Exec(cfg, init, trace).value, a)
  {}

  lemma {:induction false} ExecPrefix(cfg: Config, init: Sys, trace: seq<Action>, k: nat)
    requires k <= |trace| && Exec(cfg, init, trace).Some?
    ensures Exec(cfg, init, trace[..k]).Some?
    ensures k < |trace| ==>
              Apply(cfg, Exec(cfg, init, trace[..k]).value, trace[k]) == Exec(cfg, init, trace[..k + 1])
    decreases |trace|
  {
    if k < |trace| {
      assert Front(trace)[..k] == trace[..k];
      if k + 1 < |trace| {
        assert Front(trace)[..k + 1] == trace[..k + 1];
        ExecPrefix(cfg, init, Front(trace), k);
      } else {
        assert trace[..k + 1] == trace && trace[..k] == Front(trace);
      }
    } else {
      assert trace[..k] == trace;
    }
  }

  // ----- Events --------------------------------------------------------------------------------

  datatype Event =
    | Won(key: string)        // an Acquire created the key
    | Entered(key: string)    // ... and its request went on into the handler
    | Recreated(key: string)  // a late Complete created the key
    | Expired(key: string)
    | Inserted(key: string)   // a request with this key appended a row

  predicate Happens(e: Event, s: Sys, a: Action) {
    match a
    case AcquireKey(id, fault) =>
      && id in s.reqs && (e.Won? || (e.Entered? && fault == NoFault))
      && s.reqs[id].key == Some(e.key) && Wins(s, s.reqs[id], fault)
    case Complete(id, fault) =>
      && id in s.reqs && e.Recreated?
      && s.reqs[id].key == Some(e.key) && Writes(s.reqs[id], fault) && e.key !in s.db
    case Expire(k) => e == Expired(k)
    case Insert(id, _) =>
      && id in s.reqs && e.Inserted?
      && s.reqs[id].key == Some(e.key)
      && s.reqs[id].phase.Timed?
      && InsertRow(s.rows, s.reqs[id].request.command.ToDraft(s.reqs[id].phase.stamp)).Success?
    case _ => false
  }

  /** How often an event happens in a run. */
  function Count(cfg: Config, init: Sys, trace: seq<Action>, e: Event): nat
    requires Exec(cfg, init, trace).Some?
  {
    if trace == [] then 0 else
    Count(cfg, init, Front(trace), e) +
      if Happens(e, Exec(cfg, init, Front(trace)).value, Last(trace)) then 1 else 0
  }
}
