/** Reads against a running server: what a client that pages through the history can rely on. */
module History {
  import opened Prelude
  import opened InteractionTable
  import opened GuardEquivalence
  import opened Mapping
  import opened DataFetching
  import opened System
  import opened AtMostOnce

  lemma StepExtendsRows(cfg: Config, s: Sys, a: Action)
    requires Apply(cfg, s, a).Some?
    ensures s.rows <= Apply(cfg, s, a).value.rows
  {}

  /** The table only grows, at its end. */
  lemma {:induction false} RunExtendsRows(cfg: Config, init: Sys, trace: seq<Action>, k: nat)
    requires k <= |trace| && Exec(cfg, init, trace).Some?
    ensures Exec(cfg, init, trace[..k]).Some?
    ensures Exec(cfg, init, trace[..k]).value.rows <= Exec(cfg, init, trace).value.rows
    decreases |trace|
  {
    if k < |trace| {
      assert Front(trace)[..k] == trace[..k];
      RunExtendsRows(cfg, init, Front(trace), k);
      StepExtendsRows(cfg, Exec(cfg, init, Front(trace)).value, Last(trace));
    } else {
      assert trace[..k] == trace;
    }
  }

  lemma RunKeepsOrder(cfg: Config, init: Sys, trace: seq<Action>)
    requires Initial(init) && TableOk(init.rows, cfg.offset) && Exec(cfg, init, trace).Some?
    ensures InsertionOrdered(Exec(cfg, init, trace).value.rows)
  {
    hide InsertionOrdered, AllStamped, GameLog;
    RunKeepsTableInv(cfg, init, trace);
  }

  lemma PagesSurviveGrowth(early: seq<Row>, late: seq<Row>, w: Where, limit: nat, offset: nat)
    requires early <= late && InsertionOrdered(late)
    ensures var gained := |Select(late, w)| - |Select(early, w)|;
            && gained >= 0
            && Page(OrderDesc(Select(late, w)), limit, offset + gained) ==
               Page(OrderDesc(Select(early, w)), limit, offset)
  {
    hide *;
    var more := late[|early|..];
    assert early + more == late;
    SelectConcat(early, more, w);
    PagesShiftWithInserts(early, more, w, limit, offset);
  }

  /**
   * A page of a game's history, or of a player's, read early in a run is found again later, further
   * down by exactly the number of rows that history has gained in between.
   */
  lemma PagesSurviveTheRun(cfg: Config, init: Sys, trace: seq<Action>, k: nat, w: Where, limit: nat, offset: nat)
    requires Initial(init) && TableOk(init.rows, cfg.offset)
    requires k <= |trace| && Exec(cfg, init, trace).Some?
    ensures Exec(cfg, init, trace[..k]).Some?
    ensures var early, late := Exec(cfg, init, trace[..k]).value.rows, Exec(cfg, init, trace).value.rows;
            var gained := |Select(late, w)| - |Select(early, w)|;
            && gained >= 0
            && Page(OrderDesc(Select(late, w)), limit, offset + gained) ==
               Page(OrderDesc(Select(early, w)), limit, offset)
  {
    hide *;
    RunExtendsRows(cfg, init, trace, k);
    RunKeepsOrder(cfg, init, trace);
    var early, late := Exec(cfg, init, trace[..k]).value.rows, Exec(cfg, init, trace).value.rows;
    PagesSurviveGrowth(early, late, w, limit, offset);
  }
}
