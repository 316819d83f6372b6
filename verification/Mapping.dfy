/** From stored rows to domain interactions: parse the timestamp, fail on the first bad one. */
module Mapping {
  import opened Prelude
  import opened DeadlineClock
  import opened InteractionTable
  import opened GoTime
  import Text
  import Timestamps

  datatype MappingError = BadTimestamp(id: int)

  function ToDomainInteraction(r: Row): Result<Interaction, MappingError> {
    var t := Timestamps.Parse(r.occurredAt);
    if t.None? then Failure(BadTimestamp(r.id))
    else Success(Interaction(r.id, r.gameId, r.playerId, r.action, t.value, r.savedBy))
  }

  /** The result of mapping a whole list, stated without the loop. */
  ghost predicate MapsTo(rows: seq<Row>, r: Result<seq<Interaction>, MappingError>) {
    if r.Success? then
      && |r.value| == |rows|
      && forall i :: 0 <= i < |rows| ==> ToDomainInteraction(rows[i]) == Success(r.value[i])
    else
      exists k :: 0 <= k < |rows|
        && ToDomainInteraction(rows[k]) == Failure(r.error)
        && forall i :: 0 <= i < k ==> ToDomainInteraction(rows[i]).Success?
  }

  lemma MapsToUnique(rows: seq<Row>, a: Result<seq<Interaction>, MappingError>,
                     b: Result<seq<Interaction>, MappingError>)
    requires MapsTo(rows, a) && MapsTo(rows, b)
    ensures a == b
  {
    if a.Success? && b.Success? {
      forall i | 0 <= i < |rows| ensures a.value[i] == b.value[i] {
        assert ToDomainInteraction(rows[i]) == Success(a.value[i]);
      }
      assert a.value == b.value;
    }
  }

  /** Every column but the timestamp is carried over as it is; the timestamp is parsed. */
  ghost predicate SameColumns(r: Row, ia: Interaction) {
    && ia.id == r.id && ia.gameId == r.gameId && ia.playerId == r.playerId
    && ia.action == r.action && ia.savedBy == r.savedBy
    && Timestamps.Parse(r.occurredAt) == Some(ia.occurredAt)
  }

  ghost predicate FirstUnreadable(rows: seq<Row>, k: nat)
    requires k < |rows|
  {
    && Timestamps.Parse(rows[k].occurredAt).None?
    && forall i :: 0 <= i < k ==> Timestamps.Parse(rows[i].occurredAt).Some?
  }

  /** Success carries every row over, in order; failure names the first row whose timestamp is unreadable. */
  method ToDomainInteractions(rows: seq<Row>) returns (r: Result<seq<Interaction>, MappingError>)
    ensures MapsTo(rows, r)
    ensures r.Success? ==> |r.value| == |rows| && forall i :: 0 <= i < |rows| ==> SameColumns(rows[i], r.value[i])
    ensures r.Failure? ==>
              exists k :: 0 <= k < |rows| && FirstUnreadable(rows, k) && r.error == BadTimestamp(rows[k].id)
  {
    hide Timestamps.Parse;
    var out := [];
    for k := 0 to |rows|
      invariant |out| == k
      invariant forall i :: 0 <= i < k ==> ToDomainInteraction(rows[i]) == Success(out[i])
      invariant forall i :: 0 <= i < k ==> SameColumns(rows[i], out[i])
    {
      var d := ToDomainInteraction(rows[k]);
      if d.Failure? {
        assert FirstUnreadable(rows, k);
        return Failure(d.error);
      }
      out := out + [d.value];
    }
    r := Success(out);
  }

  // ----- Timestamps sharing one zone offset ----------------------------------------------------

  /** A timestamp some command could have written: after the zero time, in the given zone. */
  ghost predicate Stamped(s: string, offset: int) {
    exists t :: Timestamps.Formattable(t, offset) && t >= SECOND && s == Timestamps.Format(t, offset)
  }

  ghost predicate AllStamped(rows: seq<Row>, offset: int) {
    forall r :: r in rows ==> Stamped(r.occurredAt, offset)
  }

  /** The instant a stamp denotes: the written time, truncated to the second. */
  ghost function InstantOf(s: string, offset: int): (t: int)
    requires Stamped(s, offset)
    ensures t > 0
  {
    var t :| Timestamps.Formattable(t, offset) && t >= SECOND && s == Timestamps.Format(t, offset);
    Timestamps.WholeSeconds(t, t);
    t - t % SECOND
  }

  lemma StampedParses(s: string, offset: int)
    requires Stamped(s, offset)
    ensures Timestamps.Parse(s) == Some(InstantOf(s, offset))
  {
    var t :| Timestamps.Formattable(t, offset) && t >= SECOND && s == Timestamps.Format(t, offset)
             && InstantOf(s, offset) == t - t % SECOND;
    Timestamps.ParseFormat(t, offset);
  }

  /** Stamps compare as text exactly as they compare as instants. */
  lemma StampOrder(s: string, s': string, offset: int)
    requires Stamped(s, offset) && Stamped(s', offset)
    ensures Text.TextLess(s, s') <==> InstantOf(s, offset) < InstantOf(s', offset)
  {
    var t :| Timestamps.Formattable(t, offset) && t >= SECOND && s == Timestamps.Format(t, offset)
             && InstantOf(s, offset) == t - t % SECOND;
    var t' :| Timestamps.Formattable(t', offset) && t' >= SECOND && s' == Timestamps.Format(t', offset)
             && InstantOf(s', offset) == t' - t' % SECOND;
    Timestamps.FormatOrderIff(t, t', offset);
    Timestamps.WholeSeconds(t, t');
  }

  ghost function DomainOf(r: Row, offset: int): Interaction
    requires Stamped(r.occurredAt, offset)
  {
    Interaction(r.id, r.gameId, r.playerId, r.action, InstantOf(r.occurredAt, offset), r.savedBy)
  }

  /** The domain interactions of rows whose timestamps share one zone. */
  ghost function DomainLog(rows: seq<Row>, offset: int): (log: seq<Interaction>)
    requires AllStamped(rows, offset)
    ensures |log| == |rows|
    ensures forall i :: 0 <= i < |log| ==> log[i] == DomainOf(rows[i], offset)
  {
    seq(|rows|, i requires 0 <= i < |rows| => assert rows[i] in rows; DomainOf(rows[i], offset))
  }

  lemma DomainLogAppend(rows: seq<Row>, r: Row, offset: int)
    requires AllStamped(rows, offset) && Stamped(r.occurredAt, offset)
    ensures AllStamped(rows + [r], offset)
    ensures DomainLog(rows + [r], offset) == DomainLog(rows, offset) + [DomainOf(r, offset)]
  {
    hide Stamped, InstantOf;
    var l, m := DomainLog(rows + [r], offset), DomainLog(rows, offset) + [DomainOf(r, offset)];
    forall i | 0 <= i < |l| ensures l[i] == m[i] {}
  }

  /** Stamped rows always map, to their domain log. */
  lemma StampedRowsMap(rows: seq<Row>, offset: int)
    requires AllStamped(rows, offset)
    ensures MapsTo(rows, Success(DomainLog(rows, offset)))
  {
    forall i | 0 <= i < |rows| ensures ToDomainInteraction(rows[i]) == Success(DomainLog(rows, offset)[i]) {
      assert rows[i] in rows;
      StampedParses(rows[i].occurredAt, offset);
    }
  }
}
