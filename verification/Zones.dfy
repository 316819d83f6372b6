/**
 * What the assumption of one zone is worth: two rows written in different zones.
 *
 * The trigger compares local clock times, the replay compares instants.  When the zone of the
 * server changes between two readings the two can disagree, and then the game stays unreadable.
 */
module Zones {
  import opened Prelude
  import opened GoTime
  import opened DeadlineClock
  import opened InteractionTable
  import opened Mapping
  import opened GuardEquivalence
  import opened GameCommands
  import Text
  import Timestamps

  /** The row of a save read at `t` in a zone. */
  function SavedAt(id: int, c: Command, t: int, zone: int): Row
    requires Timestamps.Formattable(t, zone)
  {
    WithId(id, c.ToDraft(Timestamps.Format(t, zone)))
  }

  function SavedInstant(id: int, c: Command, t: int): Interaction {
    Interaction(id, c.gameId, Some(c.playerId), SAVED, t - t % SECOND, if c.Save? then Some(c.duration) else None)
  }

  /** Two saves of one game, by anyone, each with a reading in its own zone. */
  predicate TwoSaves(c: Command, t: int, zone: int, c': Command, t': int, zone': int) {
    && c.Save? && c.WellFormed() && c'.Save? && c'.WellFormed() && c.gameId == c'.gameId
    && t >= SECOND && Timestamps.Formattable(t, zone) && t' >= SECOND && Timestamps.Formattable(t', zone')
  }

  /** The second text is before the first: an earlier local clock time, or the same and a smaller zone text. */
  predicate LocallyBefore(t': int, zone': int, t: int, zone: int) {
    var local', local := Timestamps.LocalSeconds(t', zone'), Timestamps.LocalSeconds(t, zone);
    local' < local || (local' == local && Text.TextLess(Timestamps.ZoneText(zone'), Timestamps.ZoneText(zone)))
  }

  /** The trigger admits the second save exactly if its local clock time is not before the first. */
  lemma TriggerComparesLocalTime(c: Command, t: int, zone: int, c': Command, t': int, zone': int)
    requires TwoSaves(c, t, zone, c', t', zone')
    ensures var first, d := SavedAt(1, c, t, zone), c'.ToDraft(Timestamps.Format(t', zone'));
            && InsertRow([], c.ToDraft(Timestamps.Format(t, zone))) == Success(first)
            && (InsertRow([first], d).Success? <==> !LocallyBefore(t', zone', t, zone))
            && (InsertRow([first], d).Success? ==> InsertRow([first], d).value == SavedAt(2, c', t', zone'))
            && (InsertRow([first], d).Failure? ==> InsertRow([first], d).error == OccurredAtPrecedes)
  {
    hide Timestamps.Format, Timestamps.Formattable, Text.TextLess, LocallyBefore, InsertRow, Command.ToDraft;
    FirstSave(c, Timestamps.Format(t, zone));
    SecondSave(c, Timestamps.Format(t, zone), c', Timestamps.Format(t', zone'));
    TextsCompareLocally(t, zone, t', zone');
  }

  lemma TextsCompareLocally(t: int, zone: int, t': int, zone': int)
    requires Timestamps.Formattable(t, zone) && Timestamps.Formattable(t', zone')
    ensures Text.TextLess(Timestamps.Format(t', zone'), Timestamps.Format(t, zone)) <==>
            LocallyBefore(t', zone', t, zone)
  {
    Timestamps.FormatOrderIsLocal(t', zone', t, zone);
  }

  /** The replay accepts both saves exactly if the second instant is not before the first. */
  lemma ReplayComparesInstants(m: Arithmetic, c: Command, t: int, zone: int, c': Command, t': int, zone': int)
    requires TwoSaves(c, t, zone, c', t', zone')
    ensures var rows := [SavedAt(1, c, t, zone), SavedAt(2, c', t', zone')];
            var log := [SavedInstant(1, c, t), SavedInstant(2, c', t')];
            && MapsTo(rows, Success(log))
            && (Replay(m, c.gameId, log).Success? <==> t / SECOND <= t' / SECOND)
            && (Replay(m, c.gameId, log).Failure? ==> Replay(m, c.gameId, log) == Failure(OutOfOrder(2)))
  {
    hide Timestamps.Format, Timestamps.Formattable, Timestamps.Parse;
    Timestamps.ParseFormat(t, zone);
    Timestamps.ParseFormat(t', zone');
    Timestamps.WholeSeconds(t', t);
    Timestamps.WholeSeconds(t, t);
    var first, second := SavedInstant(1, c, t), SavedInstant(2, c', t');
    ReplayAppend(m, c.gameId, [], first);
    ReplayAppend(m, c.gameId, [first], second);
    assert [] + [first] == [first] && [first] + [second] == [first, second];
  }

  /**
   * Whatever is inserted later, a table that starts with two such rows is read in insertion order,
   * so its replay fails for good.
   */
  lemma UnreadableForGood(m: Arithmetic, c: Command, t: int, zone: int, c': Command, t': int, zone': int,
                          more: seq<Row>, log: seq<Interaction>)
    requires TwoSaves(c, t, zone, c', t', zone') && t' / SECOND < t / SECOND
    requires var rows := [SavedAt(1, c, t, zone), SavedAt(2, c', t', zone')] + more;
             InsertionOrdered(rows) && MapsTo(ReplayRows(rows, c.gameId), Success(log))
    ensures Replay(m, c.gameId, log) == Failure(OutOfOrder(2))
  {
    hide Timestamps.Format, Timestamps.Formattable, Timestamps.Parse, Replay, InsertionOrdered, OrderAsc;
    var pair := [SavedAt(1, c, t, zone), SavedAt(2, c', t', zone')];
    ReplayOrderIsInsertionOrder(pair + more, c.gameId);
    SelectConcat(pair, more, OfGame(c.gameId));
    SelectAppend([pair[0]], pair[1], OfGame(c.gameId));
    SelectAppend([], pair[0], OfGame(c.gameId));
    assert [pair[0]] + [pair[1]] == pair && [] + [pair[0]] == [pair[0]];
    var rows := ReplayRows(pair + more, c.gameId);
    assert rows[..2] == pair;
    ReplayComparesInstants(m, c, t, zone, c', t', zone');
    assert ToDomainInteraction(rows[0]) == Success(log[0]) && ToDomainInteraction(rows[1]) == Success(log[1]);
    MapsToPrefix(rows, log, 2);
    MapsToUnique(pair, Success(log[..2]), Success([SavedInstant(1, c, t), SavedInstant(2, c', t')]));
    ReplayKeepsFailure(m, c.gameId, log, 2);
  }

  lemma MapsToPrefix(rows: seq<Row>, log: seq<Interaction>, k: nat)
    requires MapsTo(rows, Success(log)) && k <= |rows|
    ensures |log| == |rows| && MapsTo(rows[..k], Success(log[..k]))
  {
    hide ToDomainInteraction;
  }

  /** Two admitted saves are an insertion-ordered table. */
  lemma AdmittedInOrder(c: Command, t: int, zone: int, c': Command, t': int, zone': int)
    requires TwoSaves(c, t, zone, c', t', zone') && !LocallyBefore(t', zone', t, zone)
    ensures InsertionOrdered([SavedAt(1, c, t, zone), SavedAt(2, c', t', zone')])
  {
    hide Timestamps.Format, Timestamps.Formattable, Text.TextLess, LocallyBefore;
    TextsCompareLocally(t, zone, t', zone');
  }

  lemma FallBackOrder(t: int)
    requires t % SECOND == 0
    ensures !LocallyBefore(t - SECOND, 120, t, 60) && (t - SECOND) / SECOND < t / SECOND
  {}

  /**
   * A clock going back from +02:00 to +01:00 while two players race: the reading after the change is
   * inserted first, the one taken a second before it second.  The trigger admits both, and from then
   * on the program's replay of the game fails, whatever is inserted later.
   */
  lemma FallBackMakesUnreadable(c: Command, c': Command, t: int, more: seq<Row>, log: seq<Interaction>)
    requires t % SECOND == 0 && TwoSaves(c, t, 60, c', t - SECOND, 120)
    ensures var first, second := SavedAt(1, c, t, 60), SavedAt(2, c', t - SECOND, 120);
            && InsertRow([], c.ToDraft(Timestamps.Format(t, 60))) == Success(first)
            && InsertRow([first], c'.ToDraft(Timestamps.Format(t - SECOND, 120))) == Success(second)
            && InsertionOrdered([first, second])
            && (InsertionOrdered([first, second] + more) &&
                MapsTo(ReplayRows([first, second] + more, c.gameId), Success(log)) ==>
                  Replay(Int64, c.gameId, log) == Failure(OutOfOrder(2)))
  {
    hide Timestamps.Format, Timestamps.Formattable, MapsTo, Replay, ReplayRows, InsertRow, InsertionOrdered;
    hide LocallyBefore, SavedAt, Command.ToDraft, Command.WellFormed;
    FallBackOrder(t);
    TriggerComparesLocalTime(c, t, 60, c', t - SECOND, 120);
    AdmittedInOrder(c, t, 60, c', t - SECOND, 120);
    var rows := [SavedAt(1, c, t, 60), SavedAt(2, c', t - SECOND, 120)] + more;
    if InsertionOrdered(rows) && MapsTo(ReplayRows(rows, c.gameId), Success(log)) {
      UnreadableForGood(Int64, c, t, 60, c', t - SECOND, 120, more, log);
    }
  }
}
