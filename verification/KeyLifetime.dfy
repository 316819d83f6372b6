/**
 * How long a won key is held: TTL separation, and the accounting of executions.
 */
module KeyLifetime {
  import opened Prelude
  import opened GoTime
  import opened IdempotencyRecord
  import opened IdempotencyStore
  import opened InteractionTable
  import opened System
  import Timestamps

  // ----- The invariant -------------------------------------------------------------------------

  /** An entry never outlives one TTL from now, and its key has been won. */
  ghost predicate EntryOk(cfg: Config, s: Sys, k: string)
    requires k in s.db
  {
    s.db[k].expireAt <= s.now + cfg.Ttl() && k in s.winner
  }

  ghost predicate WinnerOk(s: Sys, k: string)
    requires k in s.winner
  {
    var id := s.winner[k];
    id in s.reqs && s.reqs[id].key == Some(k) && s.reqs[id].acquiredAt.Some?
  }

  predicate InHandler(p: Phase) {
    p == Running || p.Timed? || p == Decided || p.Responded?
  }

  /** A request that won its key less than a TTL ago is still the key's last winner, and the key is there. */
  ghost predicate Holds(cfg: Config, s: Sys, id: nat, key: string, acquiredAt: int) {
    && acquiredAt <= s.now
    && key in s.winner
    && (s.now >= acquiredAt + cfg.Ttl()
        || (key in s.db && s.db[key].expireAt >= acquiredAt + cfg.Ttl() && s.winner[key] == id))
  }

  ghost predicate ReqOk(cfg: Config, s: Sys, id: nat)
    requires id in s.reqs
  {
    var r := s.reqs[id];
    && (r.acquiredAt.Some? ==> r.key.Some? && Holds(cfg, s, id, r.key.value, r.acquiredAt.value))
    && (r.key.Some? && InHandler(r.phase) ==> r.acquiredAt.Some?)
    && (r.phase == Arrived || r.phase == Losing ==> r.acquiredAt.None?)
  }

  ghost predicate EntriesOk(cfg: Config, s: Sys) {
    forall k :: k in s.db ==> EntryOk(cfg, s, k)
  }

  ghost predicate WinnersOk(s: Sys) {
    forall k :: k in s.winner ==> WinnerOk(s, k)
  }

  ghost predicate ReqsOk(cfg: Config, s: Sys) {
    forall id :: id in s.reqs ==> ReqOk(cfg, s, id)
  }

  ghost predicate KeysOk(cfg: Config, s: Sys) {
    EntriesOk(cfg, s) && WinnersOk(s) && ReqsOk(cfg, s)
  }

  lemma AcquireKeepsEntries(cfg: Config, s: Sys, id: nat, fault: Fault)
    requires EntriesOk(cfg, s) && id in s.reqs && DoAcquire(cfg, s, id, s.reqs[id], fault).Some?
    ensures EntriesOk(cfg, DoAcquire(cfg, s, id, s.reqs[id], fault).value)
  {
    var t := DoAcquire(cfg, s, id, s.reqs[id], fault).value;
    forall k | k in t.db ensures EntryOk(cfg, t, k) {
      if k in s.db { assert EntryOk(cfg, s, k); }
    }
  }

  lemma AcquireKeepsWinners(cfg: Config, s: Sys, id: nat, fault: Fault)
    requires WinnersOk(s) && id in s.reqs && s.reqs[id].acquiredAt.None?
    requires DoAcquire(cfg, s, id, s.reqs[id], fault).Some?
    ensures WinnersOk(DoAcquire(cfg, s, id, s.reqs[id], fault).value)
  {
    hide SetNxEx;
    var t := DoAcquire(cfg, s, id, s.reqs[id], fault).value;
    forall k | k in t.winner ensures WinnerOk(t, k) {
      if k in s.winner { assert WinnerOk(s, k); }
    }
  }

  /** The winning request holds its key; any other request that held one still does. */
  lemma AcquireKeepsReqs(cfg: Config, s: Sys, id: nat, fault: Fault)
    requires cfg.Valid() && ReqsOk(cfg, s) && id in s.reqs && DoAcquire(cfg, s, id, s.reqs[id], fault).Some?
    ensures ReqsOk(cfg, DoAcquire(cfg, s, id, s.reqs[id], fault).value)
  {
    EffectiveTtlBounds(cfg.ttl);
    var t := DoAcquire(cfg, s, id, s.reqs[id], fault).value;
    assert ReqOk(cfg, s, id);
    forall i | i in t.reqs ensures ReqOk(cfg, t, i) {
      assert ReqOk(cfg, s, i);
    }
  }

  lemma AcquireKeepsKeys(cfg: Config, s: Sys, id: nat, fault: Fault)
    requires cfg.Valid() && KeysOk(cfg, s) && id in s.reqs && DoAcquire(cfg, s, id, s.reqs[id], fault).Some?
    ensures KeysOk(cfg, DoAcquire(cfg, s, id, s.reqs[id], fault).value)
  {
    assert s.reqs[id].acquiredAt.None? by { assert ReqOk(cfg, s, id); }
    hide EntriesOk, WinnersOk, ReqsOk;
    AcquireKeepsEntries(cfg, s, id, fault);
    AcquireKeepsWinners(cfg, s, id, fault);
    AcquireKeepsReqs(cfg, s, id, fault);
  }

  lemma CompleteKeepsEntries(cfg: Config, s: Sys, id: nat, fault: Fault)
    requires cfg.Valid() && EntriesOk(cfg, s) && ReqsOk(cfg, s)
    requires id in s.reqs && DoComplete(cfg, s, id, s.reqs[id], fault).Some?
    ensures var t := DoComplete(cfg, s, id, s.reqs[id], fault).value;
            && EntriesOk(cfg, t)
            && forall k :: k in s.db ==> k in t.db && s.db[k].expireAt <= t.db[k].expireAt
  {
    hide EncodeCompleted;
    var t := DoComplete(cfg, s, id, s.reqs[id], fault).value;
    assert ReqOk(cfg, s, id);
    forall k | k in t.db ensures EntryOk(cfg, t, k) {
      if k in s.db { assert EntryOk(cfg, s, k); }
    }
    forall k | k in s.db ensures k in t.db && s.db[k].expireAt <= t.db[k].expireAt {
      assert EntryOk(cfg, s, k);
    }
  }

  lemma CompleteKeepsWinners(cfg: Config, s: Sys, id: nat, fault: Fault)
    requires WinnersOk(s) && id in s.reqs && DoComplete(cfg, s, id, s.reqs[id], fault).Some?
    ensures WinnersOk(DoComplete(cfg, s, id, s.reqs[id], fault).value)
  {
    hide SetEx, EncodeCompleted;
    var t := DoComplete(cfg, s, id, s.reqs[id], fault).value;
    forall k | k in t.winner ensures WinnerOk(t, k) { assert WinnerOk(s, k); }
  }

  lemma CompleteKeepsReqs(cfg: Config, s: Sys, id: nat, fault: Fault)
    requires EntriesOk(cfg, s) && ReqsOk(cfg, s) && id in s.reqs && DoComplete(cfg, s, id, s.reqs[id], fault).Some?
    ensures ReqsOk(cfg, DoComplete(cfg, s, id, s.reqs[id], fault).value)
  {
    hide EncodeCompleted;
    var t := DoComplete(cfg, s, id, s.reqs[id], fault).value;
    forall i | i in t.reqs ensures ReqOk(cfg, t, i) {
      assert ReqOk(cfg, s, i);
      if i in s.reqs && s.reqs[i].key.Some? && s.reqs[i].key.value in s.db {
        assert EntryOk(cfg, s, s.reqs[i].key.value);
      }
    }
  }

  /** Writing a present key can only move its expiry later. */
  lemma CompleteKeepsKeys(cfg: Config, s: Sys, id: nat, fault: Fault)
    requires cfg.Valid() && KeysOk(cfg, s) && id in s.reqs && DoComplete(cfg, s, id, s.reqs[id], fault).Some?
    ensures var t := DoComplete(cfg, s, id, s.reqs[id], fault).value;
            && KeysOk(cfg, t)
            && forall k :: k in s.db ==> k in t.db && s.db[k].expireAt <= t.db[k].expireAt
  {
    hide EntriesOk, WinnersOk, ReqsOk, DoComplete;
    CompleteKeepsEntries(cfg, s, id, fault);
    CompleteKeepsWinners(cfg, s, id, fault);
    CompleteKeepsReqs(cfg, s, id, fault);
  }

  /** Leaves the store alone and moves at most one request, inside its place in the protocol. */
  ghost predicate Quiet(s: Sys, t: Sys, id: nat) {
    && t.now == s.now && t.db == s.db && t.winner == s.winner
    && id in t.reqs && t.reqs == s.reqs[id := t.reqs[id]]
    && var r := t.reqs[id];
       if id in s.reqs then
         && r.key == s.reqs[id].key && r.acquiredAt == s.reqs[id].acquiredAt
         && (InHandler(r.phase) ==> InHandler(s.reqs[id].phase))
         && r.phase != Arrived && r.phase != Losing
       else r.acquiredAt.None? && (InHandler(r.phase) ==> r.key.None?)
  }

  lemma OtherStepsAreQuiet(cfg: Config, s: Sys, a: Action)
    requires !a.Tick? && !a.Expire? && !a.AcquireKey? && !a.Complete? && Apply(cfg, s, a).Some?
    ensures Quiet(s, Apply(cfg, s, a).value, a.id)
  {
    hide InsertRow, Timestamps.Format, Timestamps.Formattable, ValidKey, StoreKey, Get, StatusCode, BodyBytes, StatusOf;
  }

  lemma QuietStepKeepsKeys(cfg: Config, s: Sys, t: Sys, id: nat)
    requires KeysOk(cfg, s) && Quiet(s, t, id)
    ensures KeysOk(cfg, t)
  {
    forall k | k in t.db ensures EntryOk(cfg, t, k) { assert EntryOk(cfg, s, k); }
    forall k | k in t.winner ensures WinnerOk(t, k) { assert WinnerOk(s, k); }
    forall i | i in t.reqs ensures ReqOk(cfg, t, i) {
      if i in s.reqs { assert ReqOk(cfg, s, i); }
    }
  }

  lemma ExpireKeepsKeys(cfg: Config, s: Sys, t: Sys)
    requires KeysOk(cfg, s) && t.winner == s.winner && t.reqs == s.reqs && s.now <= t.now
    requires forall k :: k in t.db ==> k in s.db && t.db[k] == s.db[k]
    requires forall k :: k in s.db && k !in t.db ==> s.db[k].expireAt <= t.now
    ensures KeysOk(cfg, t)
  {}

  lemma StepKeepsKeys(cfg: Config, s: Sys, a: Action)
    requires cfg.Valid() && KeysOk(cfg, s) && Apply(cfg, s, a).Some?
    ensures KeysOk(cfg, Apply(cfg, s, a).value)
  {
    hide KeysOk, Quiet;
    var t := Apply(cfg, s, a).value;
    match a
    case AcquireKey(id, fault) => AcquireKeepsKeys(cfg, s, id, fault);
    case Complete(id, fault) => CompleteKeepsKeys(cfg, s, id, fault);
    case Tick(_) => ExpireKeepsKeys(cfg, s, t);
    case Expire(_) => ExpireKeepsKeys(cfg, s, t);
    case _ =>
      OtherStepsAreQuiet(cfg, s, a);
      QuietStepKeepsKeys(cfg, s, t, a.id);
  }

  lemma {:induction false} RunKeepsKeys(cfg: Config, init: Sys, trace: seq<Action>)
    requires cfg.Valid() && Initial(init) && Exec(cfg, init, trace).Some?
    ensures KeysOk(cfg, Exec(cfg, init, trace).value)
  {
    if trace != [] {
      RunKeepsKeys(cfg, init, Front(trace));
      StepKeepsKeys(cfg, Exec(cfg, init, Front(trace)).value, Last(trace));
    }
  }

  // ----- TTL separation ------------------------------------------------------------------------

  /** The record of a won key never changes again. */
  lemma HistoryKept(cfg: Config, s: Sys, a: Action, id: nat)
    requires KeysOk(cfg, s) && Apply(cfg, s, a).Some? && id in s.reqs && s.reqs[id].acquiredAt.Some?
    ensures var t := Apply(cfg, s, a).value;
            id in t.reqs && t.reqs[id].key == s.reqs[id].key && t.reqs[id].acquiredAt == s.reqs[id].acquiredAt
  {
    assert ReqOk(cfg, s, id);
    if !a.Tick? && !a.Expire? && !a.AcquireKey? && !a.Complete? {
      hide Apply, KeysOk, ReqOk;
      OtherStepsAreQuiet(cfg, s, a);
    }
  }

  lemma {:induction false} HistoryKeptInRun(cfg: Config, init: Sys, trace: seq<Action>, k: nat, id: nat)
    requires cfg.Valid() && Initial(init) && Exec(cfg, init, trace).Some? && k <= |trace|
    requires Exec(cfg, init, trace[..k]).Some?
    requires var s := Exec(cfg, init, trace[..k]).value; id in s.reqs && s.reqs[id].acquiredAt.Some?
    ensures var s, t := Exec(cfg, init, trace[..k]).value, Exec(cfg, init, trace).value;
            id in t.reqs && t.reqs[id].key == s.reqs[id].key && t.reqs[id].acquiredAt == s.reqs[id].acquiredAt
    decreases |trace|
  {
    if k < |trace| {
      assert Front(trace)[..k] == trace[..k];
      HistoryKeptInRun(cfg, init, Front(trace), k, id);
      RunKeepsKeys(cfg, init, Front(trace));
      HistoryKept(cfg, Exec(cfg, init, Front(trace)).value, Last(trace), id);
    } else {
      assert trace[..k] == trace;
    }
  }

  ghost predicate WonAt(cfg: Config, init: Sys, trace: seq<Action>, i: nat, key: string) {
    && i < |trace|
    && Exec(cfg, init, trace[..i]).Some?
    && Happens(Won(key), Exec(cfg, init, trace[..i]).value, trace[i])
  }

  ghost function TimeAt(cfg: Config, init: Sys, trace: seq<Action>, i: nat): int
    requires i <= |trace| && Exec(cfg, init, trace[..i]).Some?
  {
    Exec(cfg, init, trace[..i]).value.now
  }

  /** After a win, in every longer run, the key is either still held or a TTL has passed. */
  lemma WinHolds(cfg: Config, init: Sys, trace: seq<Action>, i: nat, key: string)
    requires cfg.Valid() && Initial(init) && Exec(cfg, init, trace).Some? && WonAt(cfg, init, trace, i, key)
    ensures var t := Exec(cfg, init, trace).value;
            key in t.db || t.now >= TimeAt(cfg, init, trace, i) + cfg.Ttl()
  {
    ExecPrefix(cfg, init, trace, i);
    ExecPrefix(cfg, init, trace, i + 1);
    var id := trace[i].id;
    HistoryKeptInRun(cfg, init, trace, i + 1, id);
    RunKeepsKeys(cfg, init, trace);
    assert ReqOk(cfg, Exec(cfg, init, trace).value, id);
  }

  /**
   * TTL separation.  In every run, however long handlers take, whatever fails, and however late a
   * Complete comes, two successful Acquires of one key are at least the effective TTL apart.
   */
  lemma TtlSeparation(cfg: Config, init: Sys, trace: seq<Action>, i: nat, j: nat, key: string)
    requires cfg.Valid() && Initial(init) && Exec(cfg, init, trace).Some?
    requires i < j && WonAt(cfg, init, trace, i, key) && WonAt(cfg, init, trace, j, key)
    ensures TimeAt(cfg, init, trace, j) - TimeAt(cfg, init, trace, i) >= cfg.Ttl() >= SECOND
  {
    EffectiveTtlBounds(cfg.ttl);
    var before := trace[..j];
    assert before[..i] == trace[..i];
    WinHolds(cfg, init, before, i, key);
  }

  // ----- Accounting ----------------------------------------------------------------------------

  lemma PresenceChange(cfg: Config, s: Sys, a: Action, key: string)
    requires Apply(cfg, s, a).Some?
    ensures var t := Apply(cfg, s, a).value;
            var created := Happens(Won(key), s, a) || Happens(Recreated(key), s, a);
            && (key in t.db <==> (key in s.db && !Happens(Expired(key), s, a)) || created)
            && (created ==> key !in s.db && !Happens(Expired(key), s, a))
            && (Happens(Expired(key), s, a) ==> key in s.db)
            && !(Happens(Won(key), s, a) && Happens(Recreated(key), s, a))
  {
    if !a.Tick? && !a.Expire? && !a.AcquireKey? && !a.Complete? {
      OtherStepsAreQuiet(cfg, s, a);
      hide Apply;
    }
  }

  /**
   * Execution accounting.  For every key and every run, successful Acquires plus re-creations by
   * late Completes equal expirations, plus one if the key is present; so handlers were entered at
   * most once more than the key expired.
   */
  lemma {:induction false} ExecutionAccounting(cfg: Config, init: Sys, trace: seq<Action>, key: string)
    requires Initial(init) && Exec(cfg, init, trace).Some?
    ensures Count(cfg, init, trace, Won(key)) + Count(cfg, init, trace, Recreated(key)) ==
            Count(cfg, init, trace, Expired(key)) + if key in Exec(cfg, init, trace).value.db then 1 else 0
    ensures Count(cfg, init, trace, Entered(key)) <= Count(cfg, init, trace, Won(key))
                                                  <= 1 + Count(cfg, init, trace, Expired(key))
  {
    if trace != [] {
      ExecutionAccounting(cfg, init, Front(trace), key);
      PresenceChange(cfg, Exec(cfg, init, Front(trace)).value, Last(trace), key);
    }
  }

  lemma {:induction false} CountedMeansHappened(cfg: Config, init: Sys, trace: seq<Action>, key: string)
    returns (i: nat)
    requires Exec(cfg, init, trace).Some? && Count(cfg, init, trace, Won(key)) > 0
    ensures WonAt(cfg, init, trace, i, key)
  {
    if Happens(Won(key), Exec(cfg, init, Front(trace)).value, Last(trace)) {
      i := |trace| - 1;
      assert trace[..i] == Front(trace);
    } else {
      i := CountedMeansHappened(cfg, init, Front(trace), key);
      assert Front(trace)[..i] == trace[..i];
    }
  }

  /** A request with this key tries to acquire it, successfully or not. */
  ghost predicate TriedAt(cfg: Config, init: Sys, trace: seq<Action>, i: nat, key: string) {
    && i < |trace| && trace[i].AcquireKey?
    && Exec(cfg, init, trace[..i]).Some?
    && trace[i].id in Exec(cfg, init, trace[..i]).value.reqs
    && Exec(cfg, init, trace[..i]).value.reqs[trace[i].id].key == Some(key)
  }

  /** All attempts to acquire the key fall within a span of time that starts at `from`. */
  ghost predicate WithinSpan(cfg: Config, init: Sys, trace: seq<Action>, key: string, from: int, span: int) {
    forall i :: 0 <= i < |trace| && TriedAt(cfg, init, trace, i, key) ==>
      from <= TimeAt(cfg, init, trace, i) < from + span
  }

  lemma SpanOfFront(cfg: Config, init: Sys, trace: seq<Action>, key: string, from: int, span: int)
    requires trace != [] && WithinSpan(cfg, init, trace, key, from, span)
    ensures WithinSpan(cfg, init, Front(trace), key, from, span)
  {
    hide Exec;
    var front := Front(trace);
    forall i | 0 <= i < |front| && TriedAt(cfg, init, front, i, key)
      ensures from <= TimeAt(cfg, init, front, i) < from + span
    {
      assert front[..i] == trace[..i];
      assert TriedAt(cfg, init, trace, i, key);
    }
  }

  lemma WinIsAttempt(cfg: Config, init: Sys, trace: seq<Action>, i: nat, key: string)
    requires WonAt(cfg, init, trace, i, key)
    ensures TriedAt(cfg, init, trace, i, key)
  {
    hide Exec;
  }

  /** Within a span of at most one effective TTL a key is won at most once. */
  lemma {:induction false} WonOncePerWindow(cfg: Config, init: Sys, trace: seq<Action>, key: string, from: int,
                                             span: int)
    requires cfg.Valid() && Initial(init) && Exec(cfg, init, trace).Some?
    requires span <= cfg.Ttl() && WithinSpan(cfg, init, trace, key, from, span)
    ensures Count(cfg, init, trace, Won(key)) <= 1
  {
    hide TriedAt, WonAt;
    if trace != [] {
      var front := Front(trace);
      SpanOfFront(cfg, init, trace, key, from, span);
      WonOncePerWindow(cfg, init, front, key, from, span);
      if Happens(Won(key), Exec(cfg, init, front).value, Last(trace)) && Count(cfg, init, front, Won(key)) > 0 {
        var i := CountedMeansHappened(cfg, init, front, key);
        WonInFront(cfg, init, trace, i, key);
        WinIsAttempt(cfg, init, trace, i, key);
        WinIsAttempt(cfg, init, trace, |front|, key);
        TtlSeparation(cfg, init, trace, i, |front|, key);
      }
    }
  }

  lemma WonInFront(cfg: Config, init: Sys, trace: seq<Action>, i: nat, key: string)
    requires trace != [] && Exec(cfg, init, trace).Some? && WonAt(cfg, init, Front(trace), i, key)
    requires Happens(Won(key), Exec(cfg, init, Front(trace)).value, Last(trace))
    ensures i < |trace| - 1 && WonAt(cfg, init, trace, i, key) && WonAt(cfg, init, trace, |trace| - 1, key)
  {
    assert Front(trace)[..i] == trace[..i] && trace[..|trace| - 1] == Front(trace);
  }
}
