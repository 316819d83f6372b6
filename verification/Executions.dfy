/** Pieces of runs: what the system has become after one request has taken a few steps undisturbed. */
module Executions {
  import opened Prelude
  import opened GoTime
  import opened InteractionTable
  import opened IdempotencyRecord
  import opened IdempotencyStore
  import opened System
  import Timestamps

  /** A server that has just started, with an empty table. */
  const EMPTY := Sys(0, map[], map[], [], [], map[])

  ghost function After(cfg: Config, trace: seq<Action>): Sys
    requires Exec(cfg, EMPTY, trace).Some?
  {
    Exec(cfg, EMPTY, trace).value
  }

  predicate Runs(cfg: Config, trace: seq<Action>) {
    Exec(cfg, EMPTY, trace).Some?
  }

  lemma StartRuns(cfg: Config)
    ensures Runs(cfg, []) && After(cfg, []) == EMPTY
  {}

  lemma OneStep(cfg: Config, trace: seq<Action>, a: Action)
    requires Runs(cfg, trace) && Apply(cfg, After(cfg, trace), a).Some?
    ensures Runs(cfg, trace + [a]) && After(cfg, trace + [a]) == Apply(cfg, After(cfg, trace), a).value
  {
    ExecAppend(cfg, EMPTY, trace, a);
  }

  /** A request under a free key arrives and wins it. */
  lemma WinRuns(cfg: Config, trace: seq<Action>, id: nat, q: Request, key: string)
    requires Runs(cfg, trace) && Admit(q) == Req(q, Some(key), Arrived, None, None)
    requires id !in After(cfg, trace).reqs && key !in After(cfg, trace).db
    ensures var s, longer := After(cfg, trace), trace + [Arrive(id, q), AcquireKey(id, NoFault)];
            && Runs(cfg, longer)
            && After(cfg, longer) ==
                 s.(db := s.db[key := Entry(IN_PROGRESS, s.now + cfg.Ttl())], winner := s.winner[key := id],
                    reqs := s.reqs[id := Req(q, Some(key), Running, Some(s.now), None)])
  {
    hide Admit, Exec, DoReadState, DoDeny, DoReadClock, DoInsert, DoRespond, DoComplete;
    var s := After(cfg, trace);
    OneStep(cfg, trace, Arrive(id, q));
    OneStep(cfg, trace + [Arrive(id, q)], AcquireKey(id, NoFault));
    Overwrite(s.reqs, id, Admit(q), Req(q, Some(key), Running, Some(s.now), None));
    assert trace + [Arrive(id, q), AcquireKey(id, NoFault)] == trace + [Arrive(id, q)] + [AcquireKey(id, NoFault)];
  }

  /** A running request reads its clock and inserts its row. */
  lemma InsertRuns(cfg: Config, trace: seq<Action>, id: nat, t: int)
    requires Runs(cfg, trace) && id in After(cfg, trace).reqs && After(cfg, trace).reqs[id].phase == Running
    requires After(cfg, trace).reqs[id].request.command.WellFormed()
    requires t >= SECOND && Timestamps.Formattable(t, cfg.offset)
    requires var s := After(cfg, trace);
             InsertRow(s.rows, s.reqs[id].request.command.ToDraft(Timestamps.Format(t, cfg.offset))).Success?
    ensures var s, longer := After(cfg, trace), trace + [ReadClock(id, t), Insert(id, false)];
            var r := s.reqs[id];
            var inserted := InsertRow(s.rows, r.request.command.ToDraft(Timestamps.Format(t, cfg.offset)));
            && Runs(cfg, longer)
            && After(cfg, longer) ==
                 s.(rows := s.rows + [inserted.value],
                    origins := s.origins + [r.key],
                    reqs := s.reqs[id := r.(phase := Decided, outcome := Some(Appended(|s.rows|)))])
  {
    hide Exec, Admit, DoAcquire, DoReadState, DoDeny, DoRespond, DoComplete, InsertRow, Timestamps.Format;
    hide Timestamps.Formattable;
    var s := After(cfg, trace);
    var r := s.reqs[id];
    OneStep(cfg, trace, ReadClock(id, t));
    OneStep(cfg, trace + [ReadClock(id, t)], Insert(id, false));
    Overwrite(s.reqs, id, r.(phase := Timed(Timestamps.Format(t, cfg.offset))),
              r.(phase := Decided, outcome := Some(Appended(|s.rows|))));
    assert trace + [ReadClock(id, t), Insert(id, false)] == trace + [ReadClock(id, t)] + [Insert(id, false)];
  }

  /** A running request is turned down. */
  lemma DenyRuns(cfg: Config, trace: seq<Action>, id: nat, code: int)
    requires Runs(cfg, trace) && id in After(cfg, trace).reqs && After(cfg, trace).reqs[id].phase == Running
    requires code in {400, 401, 404, 500}
    ensures var s, longer := After(cfg, trace), trace + [Deny(id, code)];
            && Runs(cfg, longer)
            && After(cfg, longer) == s.Put(id, s.reqs[id].(phase := Decided, outcome := Some(Denied(code))))
  {
    hide Exec, Admit, DoAcquire, DoReadState, DoReadClock, DoInsert, DoRespond, DoComplete;
    OneStep(cfg, trace, Deny(id, code));
  }

  /** A decided request writes its response. */
  lemma RespondRuns(cfg: Config, trace: seq<Action>, id: nat, chunks: seq<seq<Byte>>)
    requires Runs(cfg, trace) && id in After(cfg, trace).reqs && After(cfg, trace).reqs[id].phase == Decided
    requires var o := After(cfg, trace).reqs[id].outcome;
             o.Some? && StatusOf(o.value) != 0 && (o.value.Appended? ==> chunks == [])
    ensures var s, longer := After(cfg, trace), trace + [Respond(id, chunks)];
            var r := s.reqs[id];
            && Runs(cfg, longer)
            && After(cfg, longer) ==
                 s.Put(id, r.(phase := Responded(StatusOf(r.outcome.value), BodyBytes(Bodies(chunks)))))
  {
    hide Exec, Admit, DoAcquire, DoReadState, DoReadClock, DoInsert, DoDeny, DoComplete, StatusOf;
    OneStep(cfg, trace, Respond(id, chunks));
    HeaderThenChunks(StatusOf(After(cfg, trace).reqs[id].outcome.value), Bodies(chunks));
  }

  /** A request that has responded completes its key, whoever else holds it by now. */
  lemma CompleteRuns(cfg: Config, trace: seq<Action>, id: nat, key: string)
    requires Runs(cfg, trace) && id in After(cfg, trace).reqs && After(cfg, trace).reqs[id].phase.Responded?
    requires After(cfg, trace).reqs[id].key == Some(key)
    ensures var s, longer := After(cfg, trace), trace + [Complete(id, NoFault)];
            var r := s.reqs[id];
            && Runs(cfg, longer)
            && After(cfg, longer) ==
                 s.(db := s.db[key := Entry(EncodeCompleted(r.phase.code, r.phase.body), s.now + cfg.Ttl())],
                    reqs := s.reqs[id := r.(phase := Done(Answered(r.phase.code, r.phase.body)))])
  {
    hide Exec, Admit, DoAcquire, DoReadState, DoReadClock, DoInsert, DoDeny, DoRespond, EncodeCompleted;
    OneStep(cfg, trace, Complete(id, NoFault));
  }

  /** Time passes until a key has expired, and it goes. */
  lemma ExpireRuns(cfg: Config, trace: seq<Action>, delay: nat, key: string)
    requires Runs(cfg, trace) && key in After(cfg, trace).db
    requires After(cfg, trace).db[key].expireAt <= After(cfg, trace).now + delay
    ensures var s, longer := After(cfg, trace), trace + [Tick(delay), Expire(key)];
            && Runs(cfg, longer)
            && After(cfg, longer) == s.(now := s.now + delay, db := s.db - {key})
  {
    hide Exec, Handle, Admit;
    OneStep(cfg, trace, Tick(delay));
    OneStep(cfg, trace + [Tick(delay)], Expire(key));
    assert trace + [Tick(delay), Expire(key)] == trace + [Tick(delay)] + [Expire(key)];
  }

  lemma Overwrite<K, V>(m: map<K, V>, k: K, u: V, v: V)
    ensures m[k := u][k := v] == m[k := v]
  {}
}
