/**
 * The `interactions` table: its guarded INSERT and the orderings its SELECTs ask for.
 *
 * Rows are kept in insertion order.  Timestamps are text and are compared as text.
 */
module InteractionTable {
  import opened Prelude
  import opened Text
  import opened DeadlineClock

  datatype Row = Row(
    id: int,
    gameId: int,
    playerId: Option<int>,
    action: string,
    occurredAt: string,
    savedBy: Option<int>)

  /** The columns an INSERT provides; the id is the table's choice. */
  datatype Draft = Draft(
    gameId: int,
    playerId: Option<int>,
    action: string,
    occurredAt: string,
    savedBy: Option<int>)

  datatype DbError =
    | OccurredAtPrecedes
    | CannotSaveWhilePaused
    | CannotPauseNotPlaying
    | CannotResumeNotPaused
    | CheckViolated

  // ----- SELECT --------------------------------------------------------------------------------

  datatype Where = OfGame(gameId: int) | OfPlayer(gameId: int, playerId: int) {
    predicate Matches(r: Row) {
      r.gameId == gameId && (OfPlayer? ==> r.playerId == Some(playerId))
    }
  }

  function Select(rows: seq<Row>, w: Where): (s: seq<Row>)
    ensures |s| <= |rows|
    ensures forall r :: r in s <==> r in rows && w.Matches(r)
  {
    if rows == [] then []
    else if w.Matches(Last(rows)) then Select(Front(rows), w) + [Last(rows)]
    else Select(Front(rows), w)
  }

  lemma SelectAppend(rows: seq<Row>, r: Row, w: Where)
    ensures Select(rows + [r], w) == Select(rows, w) + if w.Matches(r) then [r] else []
  {}

  lemma {:induction false} SelectConcat(a: seq<Row>, b: seq<Row>, w: Where)
    ensures Select(a + b, w) == Select(a, w) + Select(b, w)
  {
    if b == [] {
      assert a + b == a;
    } else {
      assert Front(a + b) == a + Front(b) && Last(a + b) == Last(b);
      SelectConcat(a, Front(b), w);
    }
  }

  /** The columns a selection goes by: the game alone, or the game and the player. */
  lemma SelectedRows(rows: seq<Row>, gameId: int, playerId: int)
    ensures forall r :: r in Select(rows, OfGame(gameId)) <==> r in rows && r.gameId == gameId
    ensures forall r :: r in Select(rows, OfPlayer(gameId, playerId)) <==>
              r in rows && r.gameId == gameId && r.playerId == Some(playerId)
  {}

  /** A row is selected in its place, once, exactly if it matches. */
  lemma SelectInPlace(before: seq<Row>, r: Row, after: seq<Row>, w: Where)
    ensures Select([], w) == []
    ensures Select(before + [r] + after, w) ==
            Select(before, w) + (if w.Matches(r) then [r] else []) + Select(after, w)
  {
    SelectConcat(before + [r], after, w);
    SelectAppend(before, r, w);
  }

  /** `occurred_at ASC, id ASC`, strictly. */
  predicate RowLess(a: Row, b: Row) {
    TextLess(a.occurredAt, b.occurredAt) || (a.occurredAt == b.occurredAt && a.id < b.id)
  }

  function InsertAsc(s: seq<Row>, r: Row): seq<Row> {
    if s == [] then [r]
    else if RowLess(r, Last(s)) then InsertAsc(Front(s), r) + [Last(s)]
    else s + [r]
  }

  /** `ORDER BY occurred_at ASC, id ASC`. */
  function OrderAsc(rows: seq<Row>): seq<Row> {
    if rows == [] then [] else InsertAsc(OrderAsc(Front(rows)), Last(rows))
  }

  function InsertDesc(s: seq<Row>, r: Row): seq<Row> {
    if s == [] then [r]
    else if RowLess(s[0], r) then [r] + s
    else [s[0]] + InsertDesc(s[1..], r)
  }

  /** `ORDER BY occurred_at DESC, id DESC`. */
  function OrderDesc(rows: seq<Row>): seq<Row> {
    if rows == [] then [] else InsertDesc(OrderDesc(Front(rows)), Last(rows))
  }

  function Min(a: nat, b: nat): nat {
    if a < b then a else b
  }

  /** `LIMIT limit OFFSET offset`. */
  function Page<T>(s: seq<T>, limit: nat, offset: nat): (r: seq<T>)
    ensures offset >= |s| ==> r == []
    ensures offset < |s| ==> |r| == if |s| - offset < limit then |s| - offset else limit
    ensures forall i :: 0 <= i < |r| ==> r[i] == s[offset + i]
  {
    s[Min(offset, |s|)..Min(offset + limit, |s|)]
  }

  // ----- INSERT --------------------------------------------------------------------------------

  /** The rowid an INTEGER PRIMARY KEY gets when none is given: one above the largest. */
  function MaxId(rows: seq<Row>): (m: int)
    ensures m >= 0
    ensures forall r :: r in rows ==> r.id <= m
  {
    if rows == [] then 0 else
    var m := MaxId(Front(rows));
    if Last(rows).id > m then Last(rows).id else m
  }

  lemma {:induction false} MaxIdIsTaken(rows: seq<Row>)
    ensures MaxId(rows) == 0 || exists r :: r in rows && r.id == MaxId(rows)
  {
    if rows != [] {
      MaxIdIsTaken(Front(rows));
      assert Last(rows) in rows;
    }
  }

  function WithId(id: int, d: Draft): Row {
    Row(id, d.gameId, d.playerId, d.action, d.occurredAt, d.savedBy)
  }

  /** The subquery of the trigger: the action of the game's newest row. */
  function LatestAction(rows: seq<Row>, gameId: int): Option<string> {
    var newest := Page(OrderDesc(Select(rows, OfGame(gameId))), 1, 0);
    if newest == [] then None else Some(newest[0].action)
  }

  predicate HasLaterRow(rows: seq<Row>, d: Draft) {
    exists r :: r in rows && r.gameId == d.gameId && TextLess(d.occurredAt, r.occurredAt)
  }

  /** The four guards, in the order they are evaluated. */
  function Guard(hasLater: bool, latest: Option<string>, action: string): Option<DbError> {
    if hasLater then
      Some(OccurredAtPrecedes)
    else if action == SAVED && latest == Some(PAUSED) then
      Some(CannotSaveWhilePaused)
    else if action == PAUSED && latest != Some(SAVED) && latest != Some(RESUMED) then
      Some(CannotPauseNotPlaying)
    else if action == RESUMED && latest != Some(PAUSED) then
      Some(CannotResumeNotPaused)
    else None
  }

  /** `trg_interactions_state_machine`. */
  function TriggerError(rows: seq<Row>, d: Draft): Option<DbError> {
    Guard(HasLaterRow(rows, d), LatestAction(rows, d.gameId), d.action)
  }

  /** The CHECK constraints on the action and the saved duration. */
  predicate ChecksHold(d: Draft) {
    && d.action in {SAVED, PAUSED, RESUMED}
    && (d.action == SAVED <==> d.savedBy.Some?)
    && (d.savedBy.Some? ==> d.savedBy.value > 0)
  }

  /** The BEFORE INSERT trigger runs first, then the constraints are checked. */
  function InsertRow(rows: seq<Row>, d: Draft): Result<Row, DbError> {
    var refused := TriggerError(rows, d);
    if refused.Some? then Failure(refused.value)
    else if !ChecksHold(d) then Failure(CheckViolated)
    else Success(WithId(MaxId(rows) + 1, d))
  }

  class Interactions {
    var rows: seq<Row>

    constructor ()
      ensures rows == []
    {
      rows := [];
    }

    /**
     * A refused insert changes nothing.  An accepted one appends the draft under an id above all
     * others; it is then the newest row of its game, and no other game's rows have changed.
     */
    method Insert(d: Draft) returns (r: Result<Row, DbError>)
      modifies this
      ensures r == InsertRow(old(rows), d)
      ensures r.Failure? ==> rows == old(rows)
      ensures r.Success? ==> rows == old(rows) + [r.value] && r.value == WithId(r.value.id, d)
      ensures r.Success? ==> forall x :: x in old(rows) ==> x.id < r.value.id
      ensures r.Success? ==> r.value.id == 1 || exists x :: x in old(rows) && x.id == r.value.id - 1
      ensures r.Success? ==> LatestAction(rows, d.gameId) == Some(d.action)
      ensures r.Success? ==> forall g :: g != d.gameId ==> Select(rows, OfGame(g)) == Select(old(rows), OfGame(g))
      ensures r.Success? ==> Select(rows, OfGame(d.gameId)) == Select(old(rows), OfGame(d.gameId)) + [r.value]
      ensures r.Success? && d.playerId.Some? ==>
                var w := OfPlayer(d.gameId, d.playerId.value);
                Select(rows, w) == Select(old(rows), w) + [r.value]
    {
      hide TriggerError, ChecksHold, LatestAction, MaxId, Select;
      var refused := TriggerError(rows, d);
      if refused.Some? {
        return Failure(refused.value);
      }
      if !ChecksHold(d) {
        return Failure(CheckViolated);
      }
      AcceptedInsertIsNewest(rows, d);
      AcceptedInsertIsSelected(rows, d);
      MaxIdIsTaken(rows);
      var row := WithId(MaxId(rows) + 1, d);
      rows := rows + [row];
      r := Success(row);
    }
  }

  lemma {:induction false} OrderDescHead(rows: seq<Row>)
    ensures rows != [] ==> OrderDesc(rows) != [] && OrderDesc(rows)[0] in rows
  {
    if rows != [] {
      OrderDescHead(Front(rows));
    }
  }

  /** An accepted row becomes the newest of its game, and changes no other game's rows. */
  lemma AcceptedInsertIsNewest(rows: seq<Row>, d: Draft)
    requires InsertRow(rows, d).Success?
    ensures var r := InsertRow(rows, d).value;
            && (forall x :: x in rows ==> x.id < r.id)
            && LatestAction(rows + [r], d.gameId) == Some(d.action)
            && forall g :: g != d.gameId ==> Select(rows + [r], OfGame(g)) == Select(rows, OfGame(g))
  {
    var r := InsertRow(rows, d).value;
    var game := Select(rows, OfGame(d.gameId));
    SelectAppend(rows, r, OfGame(d.gameId));
    OrderDescHead(game);
    if game != [] {
      var newest := OrderDesc(game)[0];
      TextLessTrichotomy(newest.occurredAt, d.occurredAt);
    }
    forall g | g != d.gameId ensures Select(rows + [r], OfGame(g)) == Select(rows, OfGame(g)) {
      SelectAppend(rows, r, OfGame(g));
    }
  }

  /** An accepted row joins the selection of its game, and of its player, at the end. */
  lemma AcceptedInsertIsSelected(rows: seq<Row>, d: Draft)
    requires InsertRow(rows, d).Success?
    ensures var r := InsertRow(rows, d).value;
            && Select(rows + [r], OfGame(d.gameId)) == Select(rows, OfGame(d.gameId)) + [r]
            && (d.playerId.Some? ==>
                  Select(rows + [r], OfPlayer(d.gameId, d.playerId.value)) ==
                  Select(rows, OfPlayer(d.gameId, d.playerId.value)) + [r])
  {
    var r := InsertRow(rows, d).value;
    hide TriggerError, ChecksHold, MaxId;
    SelectAppend(rows, r, OfGame(d.gameId));
    if d.playerId.Some? { SelectAppend(rows, r, OfPlayer(d.gameId, d.playerId.value)); }
  }

  /** The constraints, column by column; they are consulted only for a row the trigger lets pass. */
  lemma ChecksDecide(rows: seq<Row>, d: Draft)
    ensures InsertRow(rows, d).Success? <==> TriggerError(rows, d).None? && WellTyped(d)
    ensures InsertRow(rows, d) == Failure(CheckViolated) <==> TriggerError(rows, d).None? && !WellTyped(d)
    ensures TriggerError(rows, d).Some? ==> InsertRow(rows, d) == Failure(TriggerError(rows, d).value)
  {
    assert |"saved"| == 5 && |"paused"| == 6 && |"resumed"| == 7;
    hide HasLaterRow, LatestAction, MaxId;
  }

  /** A save carries a positive duration; a pause or a resume carries none; there is nothing else. */
  predicate WellTyped(d: Draft) {
    match d.action
    case "saved" => d.savedBy.Some? && d.savedBy.value >= 1
    case "paused" => d.savedBy.None?
    case "resumed" => d.savedBy.None?
    case _ => false
  }

  // ----- The orderings -------------------------------------------------------------------------

  ghost predicate DistinctIds(rows: seq<Row>) {
    forall i, j :: 0 <= i < j < |rows| ==> rows[i].id != rows[j].id
  }

  ghost predicate SortedAsc(s: seq<Row>) {
    forall i, j :: 0 <= i < j < |s| ==> !RowLess(s[j], s[i])
  }

  lemma RowLessOrder(a: Row, b: Row, c: Row)
    ensures !(RowLess(a, b) && RowLess(b, a))
    ensures !RowLess(b, a) && !RowLess(c, b) ==> !RowLess(c, a)
    ensures a.id != b.id ==> RowLess(a, b) || RowLess(b, a)
  {
    TextLessTrichotomy(a.occurredAt, b.occurredAt);
    TextLessTrichotomy(b.occurredAt, c.occurredAt);
    TextLessTrichotomy(a.occurredAt, c.occurredAt);
    if RowLess(c, a) && TextLess(c.occurredAt, a.occurredAt) && TextLess(a.occurredAt, b.occurredAt) {
      TextLessTransitive(c.occurredAt, a.occurredAt, b.occurredAt);
    }
    if RowLess(c, a) && TextLess(b.occurredAt, c.occurredAt) && TextLess(c.occurredAt, a.occurredAt) {
      TextLessTransitive(b.occurredAt, c.occurredAt, a.occurredAt);
    }
  }

  lemma {:induction false} InsertAscAdds(s: seq<Row>, r: Row)
    ensures multiset(InsertAsc(s, r)) == multiset(s) + multiset{r}
    ensures |InsertAsc(s, r)| == |s| + 1
    ensures forall x :: x in InsertAsc(s, r) ==> x == r || x in s
  {
    if s != [] && RowLess(r, Last(s)) {
      InsertAscAdds(Front(s), r);
      assert s == Front(s) + [Last(s)];
    }
  }

  lemma LastIsGreatest(s: seq<Row>, x: Row)
    requires SortedAsc(s) && s != [] && x in s
    ensures !RowLess(Last(s), x)
  {
    var k :| 0 <= k < |s| && s[k] == x;
    RowLessOrder(x, x, x);
  }

  lemma SortedSnoc(s: seq<Row>, r: Row)
    requires SortedAsc(s) && forall x :: x in s ==> !RowLess(r, x)
    ensures SortedAsc(s + [r])
  {}

  lemma {:induction false} InsertAscSorts(s: seq<Row>, r: Row)
    requires SortedAsc(s)
    ensures SortedAsc(InsertAsc(s, r))
  {
    if s == [] {
    } else if RowLess(r, Last(s)) {
      InsertAscSorts(Front(s), r);
      InsertAscAdds(Front(s), r);
      forall x | x in InsertAsc(Front(s), r) ensures !RowLess(Last(s), x) {
        RowLessOrder(r, Last(s), r);
        if x in Front(s) { LastIsGreatest(s, x); }
      }
      SortedSnoc(InsertAsc(Front(s), r), Last(s));
    } else {
      forall x | x in s ensures !RowLess(r, x) {
        LastIsGreatest(s, x);
        RowLessOrder(x, Last(s), r);
      }
      SortedSnoc(s, r);
    }
  }

  /** `OrderAsc` is the ascending permutation of the rows. */
  lemma {:induction false} OrderAscSorts(rows: seq<Row>)
    ensures SortedAsc(OrderAsc(rows))
    ensures multiset(OrderAsc(rows)) == multiset(rows)
  {
    if rows != [] {
      OrderAscSorts(Front(rows));
      InsertAscSorts(OrderAsc(Front(rows)), Last(rows));
      InsertAscAdds(OrderAsc(Front(rows)), Last(rows));
      assert rows == Front(rows) + [Last(rows)];
    }
  }

  lemma OrderAscMembers(rows: seq<Row>)
    ensures forall r :: r in OrderAsc(rows) <==> r in rows
    ensures |OrderAsc(rows)| == |rows|
  {
    OrderAscSorts(rows);
    assert forall r :: r in OrderAsc(rows) <==> r in multiset(OrderAsc(rows));
    assert forall r :: r in rows <==> r in multiset(rows);
    assert |multiset(OrderAsc(rows))| == |multiset(rows)|;
  }

  lemma {:induction false} InsertDescAdds(s: seq<Row>, r: Row)
    ensures forall x :: x in InsertDesc(s, r) ==> x == r || x in s
  {
    if s != [] && !RowLess(s[0], r) {
      InsertDescAdds(s[1..], r);
    }
  }

  lemma {:induction false} OrderDescMembers(rows: seq<Row>)
    ensures forall r :: r in OrderDesc(rows) ==> r in rows
  {
    if rows != [] {
      OrderDescMembers(Front(rows));
      InsertDescAdds(OrderDesc(Front(rows)), Last(rows));
    }
  }

  lemma {:induction false} InsertionMirrors(s: seq<Row>, r: Row)
    requires forall x :: x in s ==> x.id != r.id
    ensures InsertDesc(Reverse(s), r) == Reverse(InsertAsc(s, r))
  {
    if s == [] {
      assert Reverse([r]) == [r];
    } else {
      RowLessOrder(r, Last(s), r);
      assert Reverse(s) == [Last(s)] + Reverse(Front(s));
      if RowLess(r, Last(s)) {
        InsertionMirrors(Front(s), r);
        ReverseAppend(InsertAsc(Front(s), r), [Last(s)]);
        assert Reverse([Last(s)]) == [Last(s)];
      } else {
        ReverseAppend(s, [r]);
        assert Reverse([r]) == [r];
      }
    }
  }

  /** Newest first is oldest first read backwards; the two orderings never disagree on ties. */
  lemma {:induction false} DescIsReversedAsc(rows: seq<Row>)
    requires DistinctIds(rows)
    ensures OrderDesc(rows) == Reverse(OrderAsc(rows))
  {
    if rows != [] {
      DescIsReversedAsc(Front(rows));
      OrderAscMembers(Front(rows));
      InsertionMirrors(OrderAsc(Front(rows)), Last(rows));
    }
  }

  lemma {:induction false} SelectInsertAsc(s: seq<Row>, r: Row, w: Where)
    requires SortedAsc(s)
    ensures Select(InsertAsc(s, r), w) ==
            if w.Matches(r) then InsertAsc(Select(s, w), r) else Select(s, w)
  {
    if s != [] && RowLess(r, Last(s)) {
      SelectInsertAsc(Front(s), r, w);
      SelectAppend(InsertAsc(Front(s), r), Last(s), w);
      if w.Matches(r) && w.Matches(Last(s)) {
        assert Front(Select(s, w)) == Select(Front(s), w);
      } else if w.Matches(r) {
        assert Select(s, w) == Select(Front(s), w);
      }
    } else {
      SelectAppend(s, r, w);
      if s != [] && w.Matches(r) && Select(s, w) != [] {
        var last := Last(Select(s, w));
        LastIsGreatest(s, last);
        RowLessOrder(last, Last(s), r);
      }
    }
  }

  /** Filtering before ordering or after it gives the same rows in the same order. */
  lemma {:induction false} OrderCommutesWithSelect(rows: seq<Row>, w: Where)
    ensures OrderAsc(Select(rows, w)) == Select(OrderAsc(rows), w)
  {
    if rows != [] {
      OrderCommutesWithSelect(Front(rows), w);
      OrderAscSorts(Front(rows));
      SelectInsertAsc(OrderAsc(Front(rows)), Last(rows), w);
      if w.Matches(Last(rows)) {
        assert Front(Select(rows, w)) == Select(Front(rows), w);
      }
    }
  }

  lemma {:induction false} SelectKeepsDistinctIds(rows: seq<Row>, w: Where)
    requires DistinctIds(rows)
    ensures DistinctIds(Select(rows, w))
  {
    if rows != [] {
      var front, sel := Front(rows), Select(Front(rows), w);
      SelectKeepsDistinctIds(front, w);
      if w.Matches(Last(rows)) {
        forall i | 0 <= i < |sel| ensures sel[i].id != Last(rows).id {
          assert sel[i] in front;
        }
      }
    }
  }
}
