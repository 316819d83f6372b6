/**
 * Laws of the deadline clock over whole logs.
 *
 * The measures below look only at the log: how much was saved, how long the game was playing, how
 * long it was paused.  None of them mentions the replay or a deadline.
 */
module ClockLaws {
  import opened Prelude
  import opened GoTime
  import opened DeadlineClock

  // ----- Independent measures of a log ---------------------------------------------------------

  function SavedNanos(ia: Interaction): int {
    if ia.action == SAVED && ia.savedBy.Some? then ia.savedBy.value * SECOND else 0
  }

  function TotalSaved(log: seq<Interaction>): int {
    if log == [] then 0 else TotalSaved(Front(log)) + SavedNanos(Last(log))
  }

  /** The time between the last two interactions, if the game was in the wanted phase meanwhile. */
  function LastInterval(log: seq<Interaction>, paused: bool): int {
    if |log| >= 2 && (Last(Front(log)).action == PAUSED) == paused
    then Last(log).occurredAt - Last(Front(log)).occurredAt
    else 0
  }

  /** Total length of the intervals between interactions during which the game was playing. */
  function PlayTime(log: seq<Interaction>): int {
    if log == [] then 0 else PlayTime(Front(log)) + LastInterval(log, false)
  }

  /** Total length of the completed pauses. */
  function PausedTime(log: seq<Interaction>): int {
    if log == [] then 0 else PausedTime(Front(log)) + LastInterval(log, true)
  }

  /** Play time accumulated up to an instant `now` after the log. */
  function PlayTimeUntil(log: seq<Interaction>, now: int): int
    requires log != []
  {
    PlayTime(log) + if Last(log).action == PAUSED then 0 else now - Last(log).occurredAt
  }

  /** The saves of a log, in order. */
  function Saves(log: seq<Interaction>): seq<Interaction> {
    if log == [] then []
    else if Last(log).action != SAVED then Saves(Front(log))
    else Saves(Front(log)) + [Last(log)]
  }

  // ----- Replay invariants ---------------------------------------------------------------------

  ghost predicate Replays(gameId: int, log: seq<Interaction>) {
    Replay(Unbounded, gameId, log).Success?
  }

  ghost function ClockOf(gameId: int, log: seq<Interaction>): Clock
    requires Replays(gameId, log)
  {
    Replay(Unbounded, gameId, log).value
  }

  ghost predicate AfterZeroTime(log: seq<Interaction>) {
    forall i :: 0 <= i < |log| ==> log[i].occurredAt > 0
  }

  lemma ReplaysFront(gameId: int, log: seq<Interaction>)
    requires Replays(gameId, log) && log != []
    ensures Replays(gameId, Front(log))
    ensures Step(Unbounded, gameId, ClockOf(gameId, Front(log)), Last(log)) == Success(ClockOf(gameId, log))
  {}

  /** What the last interaction of an accepted log says about the replayed state. */
  lemma LastActionDecidesStatus(m: Arithmetic, gameId: int, log: seq<Interaction>)
    requires Replay(m, gameId, log).Success?
    ensures var c := Replay(m, gameId, log).value;
            if log == [] then c == START
            else
              && Last(log).gameId == gameId
              && Last(log).action in {SAVED, PAUSED, RESUMED}
              && c.prevOccurredAt == Last(log).occurredAt
              && c.status == (if Last(log).action == PAUSED then Paused else Playing)
              && (Last(log).action == PAUSED ==> c.lastPausedAt == Some(Last(log).occurredAt))
  {}

  /** The state an accepted log means, read off its last row and its last save; all but the deadline. */
  ghost predicate ClockMeans(log: seq<Interaction>, c: Clock) {
    if log == [] then c == START
    else
      && Saves(log) != []
      && c.status == (if Last(log).action == PAUSED then Paused else Playing)
      && c.deadlineAt.Some?
      && c.lastSavedAt == Some(Last(Saves(log)).occurredAt)
      && c.lastPausedAt == (if Last(log).action == PAUSED then Some(Last(log).occurredAt) else None)
      && c.prevOccurredAt == Last(log).occurredAt
  }

  /** In particular the last save is the last saved row's, whatever was paused or resumed since. */
  lemma {:induction false} ReplayMeans(m: Arithmetic, gameId: int, log: seq<Interaction>)
    requires Replay(m, gameId, log).Success?
    ensures ClockMeans(log, Replay(m, gameId, log).value)
  {
    if log != [] {
      ReplayMeans(m, gameId, Front(log));
      LastActionDecidesStatus(m, gameId, Front(log));
      LastActionDecidesStatus(m, gameId, log);
      hide Extension, Shift, Gap;
    }
  }

  // ----- Which logs are accepted, without a state machine ---------------------------------------

  /** A row in its place: of the game, and not before its predecessor unless that is at the zero time. */
  ghost predicate InPlace(gameId: int, log: seq<Interaction>, k: nat)
    requires k < |log|
  {
    && log[k].gameId == gameId
    && (k > 0 && log[k - 1].occurredAt != 0 ==> log[k - 1].occurredAt <= log[k].occurredAt)
  }

  /** A row that may follow its predecessor: saves when not paused, pauses when playing, resumes when paused. */
  ghost predicate Follows(log: seq<Interaction>, k: nat)
    requires k < |log|
  {
    match log[k].action
    case "saved" => (k > 0 ==> log[k - 1].action != "paused") && log[k].savedBy.Some? && log[k].savedBy.value >= 1
    case "paused" => k > 0 && log[k - 1].action != "paused"
    case "resumed" => k > 0 && log[k - 1].action == "paused"
    case _ => false
  }

  ghost predicate WellFormedLog(gameId: int, log: seq<Interaction>) {
    forall k :: 0 <= k < |log| ==> InPlace(gameId, log, k) && Follows(log, k)
  }

  /** The error names row k, and says what is wrong with it. */
  ghost predicate Blames(gameId: int, log: seq<Interaction>, k: nat, e: ReplayError)
    requires k < |log|
  {
    var ia := log[k];
    && e.id == ia.id
    && match e
       case WrongGame(_) => ia.gameId != gameId
       case OutOfOrder(_) => ia.gameId == gameId && !InPlace(gameId, log, k)
       case SaveWhilePaused(_) =>
         InPlace(gameId, log, k) && ia.action == "saved" && k > 0 && log[k - 1].action == "paused"
       case InvalidSavedBy(_) =>
         && InPlace(gameId, log, k) && ia.action == "saved" && (k > 0 ==> log[k - 1].action != "paused")
         && (ia.savedBy.Some? ==> ia.savedBy.value < 1)
       case CannotPause(_, from) =>
         && InPlace(gameId, log, k) && ia.action == "paused"
         && (if k == 0 then from == NotStarted else from == Paused && log[k - 1].action == "paused")
       case CannotResume(_, from) =>
         && InPlace(gameId, log, k) && ia.action == "resumed"
         && (if k == 0 then from == NotStarted else from == Playing && log[k - 1].action != "paused")
       case UnknownAction(_, action) =>
         InPlace(gameId, log, k) && action == ia.action && action !in {"saved", "paused", "resumed"}
  }

  lemma WellFormedGrows(gameId: int, log: seq<Interaction>)
    requires log != []
    ensures WellFormedLog(gameId, log) <==>
            WellFormedLog(gameId, Front(log)) && InPlace(gameId, log, |log| - 1) && Follows(log, |log| - 1)
  {
    var front := Front(log);
    forall k | 0 <= k < |front|
      ensures InPlace(gameId, log, k) <==> InPlace(gameId, front, k)
      ensures Follows(log, k) <==> Follows(front, k)
    {}
    if WellFormedLog(gameId, log) {
      forall k | 0 <= k < |front| ensures InPlace(gameId, front, k) && Follows(front, k) {
        assert InPlace(gameId, log, k) && Follows(log, k);
      }
    }
  }

  /** The action of the row before, as the replayed state remembers it. */
  ghost predicate Remembers(c: Clock, log: seq<Interaction>, k: nat)
    requires k < |log|
  {
    && c.Consistent()
    && (if k == 0 then c == START
        else c.prevOccurredAt == log[k - 1].occurredAt
             && c.status == if log[k - 1].action == "paused" then Paused else Playing)
  }

  lemma StepAcceptsRow(m: Arithmetic, gameId: int, c: Clock, log: seq<Interaction>, k: nat)
    requires k < |log| && Remembers(c, log, k)
    ensures Step(m, gameId, c, log[k]).Success? <==> InPlace(gameId, log, k) && Follows(log, k)
  {
    hide Extension, Shift, Gap;
  }

  lemma StepBlamesRow(m: Arithmetic, gameId: int, c: Clock, log: seq<Interaction>, k: nat)
    requires k < |log| && Remembers(c, log, k) && Step(m, gameId, c, log[k]).Failure?
    ensures Blames(gameId, log, k, Step(m, gameId, c, log[k]).error)
  {
    hide Extension, Shift, Gap;
  }

  /** One round, judged by the row before: it is accepted, or the error blames it. */
  lemma StepJudgesRow(m: Arithmetic, gameId: int, log: seq<Interaction>)
    requires log != [] && Replay(m, gameId, Front(log)).Success?
    ensures var r := Replay(m, gameId, log);
            && (r.Success? <==> InPlace(gameId, log, |log| - 1) && Follows(log, |log| - 1))
            && (r.Failure? ==> Blames(gameId, log, |log| - 1, r.error))
  {
    var front := Front(log);
    var c := Replay(m, gameId, front).value;
    LastActionDecidesStatus(m, gameId, front);
    assert |log| > 1 ==> log[|log| - 2] == Last(front);
    assert log[..|front|] == front && log[..|front| + 1] == log;
    NextRound(m, gameId, log, |front|, c);
    hide Step, Replay, InPlace, Follows, Blames;
    StepAcceptsRow(m, gameId, c, log, |front|);
    if Replay(m, gameId, log).Failure? { StepBlamesRow(m, gameId, c, log, |front|); }
  }

  /**
   * Acceptance needs no memory: a log is accepted exactly if every row is in its place and may
   * follow its predecessor.  Otherwise the error is about the first row that is not or may not.
   */
  lemma {:induction false} AcceptedIffWellFormed(m: Arithmetic, gameId: int, log: seq<Interaction>) returns (k: nat)
    ensures Replay(m, gameId, log).Success? <==> WellFormedLog(gameId, log)
    ensures var r := Replay(m, gameId, log);
            r.Failure? ==> k < |log| && WellFormedLog(gameId, log[..k]) && Blames(gameId, log, k, r.error)
  {
    k := 0;
    if log != [] {
      var front := Front(log);
      k := AcceptedIffWellFormed(m, gameId, front);
      WellFormedGrows(gameId, log);
      hide Step, InPlace, Follows;
      if Replay(m, gameId, front).Success? {
        StepJudgesRow(m, gameId, log);
        k := |front|;
        assert log[..k] == front;
      } else {
        assert log[..k] == front[..k];
        BlameKept(gameId, log, k, Replay(m, gameId, front).error);
      }
    }
  }

  lemma BlameKept(gameId: int, log: seq<Interaction>, k: nat, e: ReplayError)
    requires log != [] && k < |log| - 1 && Blames(gameId, Front(log), k, e)
    ensures Blames(gameId, log, k, e)
  {}

  /**
   * In every state reached from any list of interactions, accepted so far, the instants are in
   * order: last save <= last pause <= latest interaction.
   */
  lemma {:induction false} InstantsInOrder(m: Arithmetic, gameId: int, log: seq<Interaction>, k: nat)
    requires AfterZeroTime(log) && k <= |log|
    requires Replay(m, gameId, log[..k]).Success?
    ensures var c := Replay(m, gameId, log[..k]).value;
            && c.Consistent()
            && (k == 0 ==> c == START)
            && (k > 0 ==> c.status != NotStarted && c.prevOccurredAt == log[k - 1].occurredAt)
            && (c.lastSavedAt.Some? ==> 0 < c.lastSavedAt.value <= c.prevOccurredAt)
            && (c.lastPausedAt.Some? ==> c.lastSavedAt.value <= c.lastPausedAt.value <= c.prevOccurredAt)
  {
    if k > 0 {
      assert Front(log[..k]) == log[..k - 1];
      InstantsInOrder(m, gameId, log, k - 1);
      LastActionDecidesStatus(m, gameId, log[..k]);
    }
  }

  ghost predicate SortedInstants(log: seq<Interaction>) {
    forall i, j :: 0 <= i <= j < |log| ==> log[i].occurredAt <= log[j].occurredAt
  }

  /** Somewhere a row at the zero time is directly followed by a row before it. */
  ghost predicate DropsFromZero(log: seq<Interaction>) {
    exists i :: 0 < i < |log| && log[i - 1].occurredAt == 0 && log[i].occurredAt < 0
  }

  lemma SortedGrows(log: seq<Interaction>)
    requires |log| > 1
    ensures SortedInstants(log) <==>
            SortedInstants(Front(log)) && Last(Front(log)).occurredAt <= Last(log).occurredAt
  {
    if SortedInstants(log) {
      assert log[|log| - 2].occurredAt <= log[|log| - 1].occurredAt;
      forall i, j | 0 <= i <= j < |Front(log)| ensures Front(log)[i].occurredAt <= Front(log)[j].occurredAt {
        assert log[i].occurredAt <= log[j].occurredAt;
      }
    }
  }

  lemma DropsGrow(log: seq<Interaction>)
    requires |log| > 1
    ensures DropsFromZero(log) <==>
            DropsFromZero(Front(log)) || (Last(Front(log)).occurredAt == 0 && Last(log).occurredAt < 0)
  {
    var front := Front(log);
    if DropsFromZero(front) {
      var i :| 0 < i < |front| && front[i - 1].occurredAt == 0 && front[i].occurredAt < 0;
      assert log[i - 1].occurredAt == 0 && log[i].occurredAt < 0;
    }
    if DropsFromZero(log) {
      var i :| 0 < i < |log| && log[i - 1].occurredAt == 0 && log[i].occurredAt < 0;
      assert i < |front| ==> front[i - 1].occurredAt == 0 && front[i].occurredAt < 0;
    }
  }

  /**
   * An accepted log has nondecreasing instants exactly if no row at the zero time is directly
   * followed by an earlier one; so always when its rows are after the zero time.
   */
  lemma {:induction false} AcceptedLogIsSorted(m: Arithmetic, gameId: int, log: seq<Interaction>)
    requires Replay(m, gameId, log).Success?
    ensures SortedInstants(log) <==> !DropsFromZero(log)
    ensures AfterZeroTime(log) ==> SortedInstants(log)
  {
    if |log| > 1 {
      var front := Front(log);
      AcceptedLogIsSorted(m, gameId, front);
      LastActionDecidesStatus(m, gameId, front);
      SortedGrows(log);
      DropsGrow(log);
      assert AfterZeroTime(log) ==> AfterZeroTime(front) && Last(front).occurredAt > 0;
      hide SortedInstants, DropsFromZero, AfterZeroTime, Extension, Shift, Gap;
    }
  }

  /**
   * The order test is skipped after an interaction at the zero time: handed such a log directly, the
   * replay accepts a pause before the save it follows.
   */
  lemma ZeroTimeDefeatsOrderCheck(m: Arithmetic)
    ensures var save := Interaction(1, 1, None, SAVED, 0, Some(60));
            var pause := Interaction(2, 1, None, PAUSED, -5 * SECOND, None);
            var r := Replay(m, 1, [save, pause]);
            && r.Success? && DropsFromZero([save, pause])
            && r.value.lastPausedAt.value < r.value.lastSavedAt.value
  {
    var save := Interaction(1, 1, None, SAVED, 0, Some(60));
    var pause := Interaction(2, 1, None, PAUSED, -5 * SECOND, None);
    ReplayAppend(m, 1, [], save);
    ReplayAppend(m, 1, [save], pause);
    assert [] + [save] == [save] && [save] + [pause] == [save, pause];
  }

  // ----- Conservation of time ------------------------------------------------------------------

  /** Every nanosecond is accounted for: the log's span is play time plus completed pauses. */
  lemma {:induction false} SpanIsPlayPlusPause(log: seq<Interaction>)
    requires log != []
    ensures Last(log).occurredAt - log[0].occurredAt == PlayTime(log) + PausedTime(log)
  {
    if |log| > 1 {
      SpanIsPlayPlusPause(Front(log));
    } else {
      assert Front(log) == [];
    }
  }

  /**
   * Conservation: the time left equals the time saved minus the time played.  While playing this
   * holds at every instant `now`; while paused it holds at the pause instant.
   */
  lemma {:induction false} Conservation(gameId: int, log: seq<Interaction>, now: int)
    requires Replays(gameId, log) && log != []
    requires Last(log).action == PAUSED ==> now == Last(log).occurredAt
    ensures ClockOf(gameId, log).deadlineAt.value - now == TotalSaved(log) - PlayTimeUntil(log, now)
  {
    ReplaysFront(gameId, log);
    LastActionDecidesStatus(Unbounded, gameId, log);
    var front := Front(log);
    if front == [] {
      assert TotalSaved(front) == PlayTime(front) == 0;
    } else {
      Conservation(gameId, front, Last(front).occurredAt);
      LastActionDecidesStatus(Unbounded, gameId, front);
    }
  }

  /**
   * Hence the deadline depends only on the first save's instant, the total saved and the completed
   * pauses; two logs that agree on these have the same deadline however the saves are distributed.
   */
  lemma {:induction false} DeadlineFormula(gameId: int, log: seq<Interaction>)
    requires Replays(gameId, log) && log != []
    ensures ClockOf(gameId, log).deadlineAt == Some(log[0].occurredAt + TotalSaved(log) + PausedTime(log))
  {
    Conservation(gameId, log, Last(log).occurredAt);
    SpanIsPlayPlusPause(log);
  }

  // ----- Verdicts ------------------------------------------------------------------------------

  /**
   * A playing game is valid exactly while its accumulated play time is below the total saved; so
   * with no new interactions the verdict can only go from true to false, and only once.
   */
  lemma PlayingVerdictDecaysOnce(gameId: int, log: seq<Interaction>, now: int, later: int)
    requires Replays(gameId, log) && ClockOf(gameId, log).status == Playing && now <= later
    ensures log != []
    ensures Verdict(ClockOf(gameId, log), now) == Some(PlayTimeUntil(log, now) < TotalSaved(log))
    ensures Verdict(ClockOf(gameId, log), later) == Some(true) ==> Verdict(ClockOf(gameId, log), now) == Some(true)
  {
    LastActionDecidesStatus(Unbounded, gameId, log);
    Conservation(gameId, log, now);
  }

  /** The verdict a resume at `t` would leave, judged at that same instant. */
  ghost predicate ResumeVerdict(gameId: int, log: seq<Interaction>, resume: Interaction, valid: bool) {
    var r := Replay(Unbounded, gameId, log + [resume]);
    r.Success? && Verdict(r.value, resume.occurredAt) == Some(valid)
  }

  /**
   * Exactly when a pause freezes the verdict.  With the pause strictly after the last save the
   * verdict is the same at every later instant: it is the verdict of the pause instant, it says
   * whether play time was left, and a resume at any later instant starts from it.  A pause that
   * ties the last save is judged by the plain deadline test, and is frozen only if already lapsed.
   */
  lemma PauseFreezesVerdict(gameId: int, log: seq<Interaction>, now: int)
    requires AfterZeroTime(log) && Replays(gameId, log) && ClockOf(gameId, log).status == Paused
    requires now >= ClockOf(gameId, log).lastPausedAt.value
    ensures var c := ClockOf(gameId, log);
            var p, d := c.lastPausedAt.value, c.deadlineAt.value;
            && p >= c.lastSavedAt.value
            && log != [] && (p < d <==> PlayTime(log) < TotalSaved(log))
            && (p > c.lastSavedAt.value ==> Verdict(c, now) == Some(p < d))
            && (p == c.lastSavedAt.value ==> Verdict(c, now) == Some(now < d))
            && ((forall t :: t >= p ==> Verdict(c, t) == Verdict(c, p)) <==> p > c.lastSavedAt.value || d <= p)
  {
    assert log[..|log|] == log;
    InstantsInOrder(Unbounded, gameId, log, |log|);
    LastActionDecidesStatus(Unbounded, gameId, log);
    var c := ClockOf(gameId, log);
    Conservation(gameId, log, c.lastPausedAt.value);
    if c.lastPausedAt.value == c.lastSavedAt.value && c.deadlineAt.value > c.lastPausedAt.value {
      assert Verdict(c, c.deadlineAt.value) != Verdict(c, c.lastPausedAt.value);
    }
  }

  /** Resuming, however late, starts from the verdict of the pause instant. */
  lemma ResumeKeepsVerdict(gameId: int, log: seq<Interaction>, resume: Interaction)
    requires AfterZeroTime(log) && Replays(gameId, log) && ClockOf(gameId, log).status == Paused
    requires resume.gameId == gameId && resume.action == RESUMED
    requires resume.occurredAt >= ClockOf(gameId, log).lastPausedAt.value
    ensures log != [] && ResumeVerdict(gameId, log, resume, PlayTime(log) < TotalSaved(log))
    ensures var c := ClockOf(gameId, log);
            c.lastPausedAt.value > c.lastSavedAt.value ==>
              Verdict(c, resume.occurredAt) == Some(PlayTime(log) < TotalSaved(log))
  {
    PauseFreezesVerdict(gameId, log, resume.occurredAt);
    ReplayAppend(Unbounded, gameId, log, resume);
    LastActionDecidesStatus(Unbounded, gameId, log);
  }

  /** A pause in the same second as the save: valid at first, not valid later, although paused. */
  lemma PauseTieDoesNotFreeze()
    ensures var save := Interaction(1, 1, None, SAVED, 100 * SECOND, Some(60));
            var pause := Interaction(2, 1, None, PAUSED, 100 * SECOND, None);
            var log := [save, pause];
            && Replays(1, log)
            && Verdict(ClockOf(1, log), 120 * SECOND) == Some(true)
            && Verdict(ClockOf(1, log), 200 * SECOND) == Some(false)
  {
    var save := Interaction(1, 1, None, SAVED, 100 * SECOND, Some(60));
    var pause := Interaction(2, 1, None, PAUSED, 100 * SECOND, None);
    ReplayAppend(Unbounded, 1, [], save);
    ReplayAppend(Unbounded, 1, [save], pause);
    assert [] + [save] == [save] && [save] + [pause] == [save, pause];
  }

  // ----- Pause erasure -------------------------------------------------------------------------

  /** Drops every pause and resume, and pulls each save earlier by the pauses completed before it. */
  function Erase(log: seq<Interaction>): seq<Interaction> {
    if log == [] then []
    else if Last(log).action != SAVED then Erase(Front(log))
    else Erase(Front(log)) + [Last(log).(occurredAt := Last(log).occurredAt - PausedTime(log))]
  }

  /** The erased replay runs in step with the original one, behind by the completed pauses. */
  ghost predicate InStep(c: Clock, e: Clock, paused: int)
    requires c.Consistent()
  {
    if c.status == NotStarted then e == START
    else
      && e.status == Playing
      && e.deadlineAt == Some(c.deadlineAt.value - paused)
      && e.lastPausedAt == None
      && e.lastSavedAt == Some(e.prevOccurredAt)
      && 0 < e.prevOccurredAt <= (if c.status == Paused then c.lastPausedAt.value else c.prevOccurredAt) - paused
  }

  /** The pauses grow only at a resume, by the time since the pause. */
  lemma PausedTimeGrows(gameId: int, log: seq<Interaction>)
    requires Replays(gameId, log) && log != []
    ensures var c := ClockOf(gameId, Front(log));
            PausedTime(log) == PausedTime(Front(log)) +
              if Last(log).action == RESUMED then Last(log).occurredAt - c.lastPausedAt.value else 0
    ensures Front(log) == [] ==> PausedTime(log) == 0
  {
    ReplaysFront(gameId, log);
    LastActionDecidesStatus(Unbounded, gameId, Front(log));
    hide Replay, Extension, Shift, Gap;
  }

  ghost predicate ErasureInStep(gameId: int, log: seq<Interaction>)
    requires Replays(gameId, log)
  {
    && Replays(gameId, Erase(log))
    && InStep(ClockOf(gameId, log), ClockOf(gameId, Erase(log)), PausedTime(log))
  }

  /** A pause or a resume moves the original replay only, and a resume ends a pause. */
  lemma PauseKeepsStep(gameId: int, c: Clock, e: Clock, paused: int, ia: Interaction)
    requires c.Consistent() && InStep(c, e, paused) && ia.action != SAVED && ia.occurredAt > 0
    requires Step(Unbounded, gameId, c, ia).Success? && c.prevOccurredAt > 0
    ensures var gap := if ia.action == RESUMED then ia.occurredAt - c.lastPausedAt.value else 0;
            InStep(Step(Unbounded, gameId, c, ia).value, e, paused + gap)
  {}

  lemma ErasePause(gameId: int, log: seq<Interaction>)
    requires AfterZeroTime(log) && Replays(gameId, log) && log != [] && Last(log).action != SAVED
    requires Replays(gameId, Front(log)) && ErasureInStep(gameId, Front(log))
    ensures ErasureInStep(gameId, log)
  {
    assert Erase(log) == Erase(Front(log));
    ReplaysFront(gameId, log);
    PausedTimeGrows(gameId, log);
    LastActionDecidesStatus(Unbounded, gameId, Front(log));
    PauseNeedsStart(gameId, log);
    hide Replay, Erase, PausedTime, Step, InStep;
    PauseKeepsStep(gameId, ClockOf(gameId, Front(log)), ClockOf(gameId, Erase(log)), PausedTime(Front(log)), Last(log));
  }

  lemma PauseNeedsStart(gameId: int, log: seq<Interaction>)
    requires Replays(gameId, log) && log != [] && Last(log).action != SAVED
    ensures Front(log) != []
  {
    ReplaysFront(gameId, log);
    LastActionDecidesStatus(Unbounded, gameId, Front(log));
    hide Replay, Extension, Shift, Gap;
  }

  /** A save moves both replays by its duration. */
  lemma SaveKeepsStep(gameId: int, c: Clock, e: Clock, paused: int, ia: Interaction)
    requires c.Consistent() && e.Consistent() && InStep(c, e, paused) && ia.action == SAVED
    requires c.status == NotStarted ==> c.prevOccurredAt == 0 && paused == 0 && ia.occurredAt > 0
    requires c.status != NotStarted ==> c.prevOccurredAt > 0
    requires Step(Unbounded, gameId, c, ia).Success?
    ensures var moved := ia.(occurredAt := ia.occurredAt - paused);
            && Step(Unbounded, gameId, e, moved).Success?
            && InStep(Step(Unbounded, gameId, c, ia).value, Step(Unbounded, gameId, e, moved).value, paused)
  {}

  lemma EraseSave(gameId: int, log: seq<Interaction>)
    requires AfterZeroTime(log) && Replays(gameId, log) && log != [] && Last(log).action == SAVED
    requires Replays(gameId, Front(log)) && ErasureInStep(gameId, Front(log))
    ensures ErasureInStep(gameId, log)
  {
    var front, erased := Front(log), Erase(Front(log));
    var moved := Last(log).(occurredAt := Last(log).occurredAt - PausedTime(log));
    assert Erase(log) == erased + [moved];
    ReplaysFront(gameId, log);
    PausedTimeGrows(gameId, log);
    LastActionDecidesStatus(Unbounded, gameId, front);
    ReplayAppend(Unbounded, gameId, erased, moved);
    hide Replay, Erase, PausedTime, Step, InStep;
    SaveKeepsStep(gameId, ClockOf(gameId, front), ClockOf(gameId, erased), PausedTime(log), Last(log));
  }

  lemma {:induction false} EraseInStep(gameId: int, log: seq<Interaction>)
    requires AfterZeroTime(log) && Replays(gameId, log)
    ensures ErasureInStep(gameId, log)
  {
    if log != [] {
      ReplaysFront(gameId, log);
      EraseInStep(gameId, Front(log));
      if Last(log).action == SAVED { EraseSave(gameId, log); } else { ErasePause(gameId, log); }
    }
  }

  /** The same interactions, at possibly different instants. */
  ghost predicate SameButInstants(a: seq<Interaction>, b: seq<Interaction>) {
    |a| == |b| && forall i :: 0 <= i < |a| ==> a[i].(occurredAt := b[i].occurredAt) == b[i]
  }

  /** Erasing keeps the saves, all of them, in order and with their durations, and nothing else. */
  lemma {:induction false} ErasedLogIsTheSaves(log: seq<Interaction>)
    ensures SameButInstants(Erase(log), Saves(log))
    ensures forall i :: 0 <= i < |Erase(log)| ==> Erase(log)[i].action == SAVED
    ensures TotalSaved(Erase(log)) == TotalSaved(log)
    ensures PausedTime(Erase(log)) == 0
  {
    if log != [] {
      ErasedLogIsTheSaves(Front(log));
      if Last(log).action == SAVED {
        assert Front(Erase(log)) == Erase(Front(log));
      }
    }
  }

  /** Replays in step, both playing, give the same verdict at instants apart by the pauses. */
  lemma InStepVerdict(c: Clock, e: Clock, paused: int, now: int)
    requires c.Consistent() && c.status == Playing && InStep(c, e, paused)
    ensures e.status == Playing && e.deadlineAt == Some(c.deadlineAt.value - paused)
    ensures Verdict(e, now - paused) == Verdict(c, now)
  {}

  /**
   * Pause erasure preserves meaning.  For a log that ends in playing, the save-only log obtained by
   * erasing the pauses replays to the same status, with the deadline earlier by exactly the total
   * paused time, and gives the same verdict once `now` is pulled back by the same amount.
   */
  lemma PauseErasure(gameId: int, log: seq<Interaction>, now: int)
    requires AfterZeroTime(log) && Replays(gameId, log) && ClockOf(gameId, log).status == Playing
    ensures Replays(gameId, Erase(log))
    ensures SameButInstants(Erase(log), Saves(log))
    ensures forall i :: 0 <= i < |Erase(log)| ==> Erase(log)[i].action == SAVED
    ensures TotalSaved(Erase(log)) == TotalSaved(log)
    ensures var c, e := ClockOf(gameId, log), ClockOf(gameId, Erase(log));
            && e.status == Playing
            && e.deadlineAt == Some(c.deadlineAt.value - PausedTime(log))
            && Verdict(e, now - PausedTime(log)) == Verdict(c, now)
  {
    hide Replay, InStep, Verdict, Erase, Saves, SameButInstants, TotalSaved, PausedTime;
    EraseInStep(gameId, log);
    ErasedLogIsTheSaves(log);
    InStepVerdict(ClockOf(gameId, log), ClockOf(gameId, Erase(log)), PausedTime(log), now);
  }
}
