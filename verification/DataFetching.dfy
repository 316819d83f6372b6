/** The reads: the replayed shared data, and pages of the history. */
module DataFetching {
  import opened Prelude
  import opened DeadlineClock
  import opened ClockLaws
  import opened InteractionTable
  import opened Mapping
  import opened GuardEquivalence
  import MachineBound
  import Text
  import Timestamps

  datatype FetchError =
    | InvalidGameId
    | InvalidPlayerId
    | InvalidLimit
    | InvalidOffset
    | ReadFailed
    | ClockFailed
    | MappingFailed(mapping: MappingError)
    | ReplayFailed(replay: ReplayError)

  /**
   * Reads the log, then the clock, then maps and replays; the first failure is the result.  On a
   * table that only the guarded inserts have built, neither the mapping nor the replay can fail, and
   * if no duration in the log overflows the verdict is about time saved and time played.
   */
  method GetSharedData(table: Interactions, gameId: int, readFails: bool, clock: Option<int>, ghost offset: int)
    returns (r: Result<SharedData, FetchError>)
    ensures gameId < 1 ==> r == Failure(InvalidGameId)
    ensures gameId >= 1 && readFails ==> r == Failure(ReadFailed)
    ensures gameId >= 1 && !readFails && clock.None? ==> r == Failure(ClockFailed)
    ensures gameId >= 1 && !readFails && clock.Some? ==>
              forall mapped :: MapsTo(ReplayRows(table.rows, gameId), mapped) ==>
                if mapped.Failure? then r == Failure(MappingFailed(mapped.error))
                else
                  var spec := Replay(Int64, gameId, mapped.value);
                  if spec.Failure? then r == Failure(ReplayFailed(spec.error))
                  else
                    && r.Success? && fresh(r.value)
                    && r.value.gameId == gameId
                    && r.value.AsClock(spec.value.prevOccurredAt) == spec.value
                    && r.value.valid == Verdict(spec.value, clock.value)
    ensures gameId >= 1 && !readFails && clock.Some? && TableOk(table.rows, offset) ==>
              var log := GameLog(table.rows, gameId, offset);
              var spec := Replay(Int64, gameId, log);
              && spec.Success? && r.Success? && fresh(r.value)
              && r.value.gameId == gameId
              && r.value.AsClock(spec.value.prevOccurredAt) == spec.value
              && r.value.valid == Verdict(spec.value, clock.value)
              && ClockMeans(log, spec.value)
              && (log == [] ==> r.value.valid == None)
              && (MachineBound.FitsInt64(log) && 0 < |log| <= MachineBound.MAX_ROWS ==>
                    && r.value.deadlineAt == Some(log[0].occurredAt + TotalSaved(log) + PausedTime(log))
                    && MachineBound.VerdictMeans(log, clock.value, r.value.valid))
  {
    hide Stamped, InstantOf, Timestamps.Parse, MachineBound.VerdictMeans, MachineBound.FitsInt64, Replay, Verdict;
    hide TableOk, GameLog, ClockMeans, TotalSaved, PausedTime;
    if gameId < 1 {
      return Failure(InvalidGameId);
    }
    if readFails {
      return Failure(ReadFailed);
    }
    var rows := ReplayRows(table.rows, gameId);
    if clock.None? {
      return Failure(ClockFailed);
    }
    var mapped := ToDomainInteractions(rows);
    forall other | MapsTo(rows, other) ensures other == mapped {
      MapsToUnique(rows, other, mapped);
    }
    ghost var ok := TableOk(table.rows, offset);
    if ok {
      StoredLogReplays(table.rows, gameId, offset, clock.value);
    }
    if mapped.Failure? {
      return Failure(MappingFailed(mapped.error));
    }
    var built := BuildSharedData(gameId, mapped.value, clock.value);
    if built.Failure? {
      return Failure(ReplayFailed(built.error));
    }
    r := Success(built.value);
  }

  lemma TableGames(rows: seq<Row>, gameId: int, offset: int)
    requires TableOk(rows, offset)
    ensures AllStamped(rows, offset) && Replays(gameId, GameLog(rows, gameId, offset))
  {
    hide Stamped, GameLog, Replays;
  }

  lemma StoredLogReplays(rows: seq<Row>, gameId: int, offset: int, now: int)
    requires TableOk(rows, offset)
    ensures var log := GameLog(rows, gameId, offset);
            var spec := Replay(Int64, gameId, log);
            && MapsTo(ReplayRows(rows, gameId), Success(log))
            && spec.Success?
            && ClockMeans(log, spec.value)
            && (log == [] ==> Verdict(spec.value, now) == None)
            && (MachineBound.FitsInt64(log) && 0 < |log| <= MachineBound.MAX_ROWS ==>
                  && spec.value.deadlineAt == Some(log[0].occurredAt + TotalSaved(log) + PausedTime(log))
                  && MachineBound.VerdictMeans(log, now, Verdict(spec.value, now)))
  {
    hide Stamped, InstantOf, MachineBound.VerdictMeans, MachineBound.FitsInt64, Replay, Verdict, ClockMeans;
    hide TotalSaved, PausedTime, TableOk, MapsTo;
    TableGames(rows, gameId, offset);
    ReplayRowsMembers(rows, gameId);
    StampedRowsMap(ReplayRows(rows, gameId), offset);
    var log := GameLog(rows, gameId, offset);
    MachineBound.AcceptanceIgnoresArithmetic(gameId, log);
    ReplayMeans(Int64, gameId, log);
    EmptyReplay(Int64, gameId, now);
    if MachineBound.FitsInt64(log) && 0 < |log| <= MachineBound.MAX_ROWS {
      MachineBound.StampedLogExact(rows, gameId, offset, now);
    }
  }

  lemma PageIsSelected(rows: seq<Row>, w: Where, limit: nat, offset: nat)
    ensures var page := Page(OrderDesc(Select(rows, w)), limit, offset);
            forall i :: 0 <= i < |page| ==>
              page[i] in rows && page[i].gameId == w.gameId && (w.OfPlayer? ==> page[i].playerId == Some(w.playerId))
  {
    OrderDescMembers(Select(rows, w));
    SelectedRows(rows, w.gameId, if w.OfPlayer? then w.playerId else 0);
    hide OrderDesc, Select;
  }

  /** One page of rows, newest first, mapped to the domain. */
  method ListPage(table: Interactions, w: Where, limit: int, offset: int, readFails: bool)
    returns (r: Result<seq<Interaction>, FetchError>)
    ensures w.gameId < 1 ==> r == Failure(InvalidGameId)
    ensures w.gameId >= 1 && w.OfPlayer? && w.playerId < 1 ==> r == Failure(InvalidPlayerId)
    ensures w.gameId >= 1 && (w.OfPlayer? ==> w.playerId >= 1) ==>
              if limit < 0 then r == Failure(InvalidLimit)
              else if offset < 0 then r == Failure(InvalidOffset)
              else if readFails then r == Failure(ReadFailed)
              else
                && (r.Failure? ==> r.error.MappingFailed?)
                && MapsTo(Page(OrderDesc(Select(table.rows, w)), limit, offset),
                          if r.Success? then Success(r.value) else Failure(r.error.mapping))
    ensures r.Success? ==>
              && |r.value| <= limit
              && forall i :: 0 <= i < |r.value| ==>
                   r.value[i].gameId == w.gameId && (w.OfPlayer? ==> r.value[i].playerId == Some(w.playerId))
  {
    hide OrderDesc, Select, Timestamps.Parse;
    if w.gameId < 1 {
      return Failure(InvalidGameId);
    }
    if w.OfPlayer? && w.playerId < 1 {
      return Failure(InvalidPlayerId);
    }
    if limit < 0 {
      return Failure(InvalidLimit);
    }
    if offset < 0 {
      return Failure(InvalidOffset);
    }
    if readFails {
      return Failure(ReadFailed);
    }
    var rows := Page(OrderDesc(Select(table.rows, w)), limit, offset);
    PageIsSelected(table.rows, w, limit, offset);
    var mapped := ToDomainInteractions(rows);
    if mapped.Failure? {
      return Failure(MappingFailed(mapped.error));
    }
    r := Success(mapped.value);
  }

  // ----- Pagination against replay -------------------------------------------------------------

  /** The pages read one after the other, from an offset on, until they run out. */
  function PagesFrom<T>(s: seq<T>, limit: nat, offset: nat): seq<T>
    requires limit > 0
    decreases |s| - offset
  {
    if offset >= |s| then [] else Page(s, limit, offset) + PagesFrom(s, limit, offset + limit)
  }

  lemma MinIsSmaller(a: nat, b: nat)
    ensures Min(a, b) == if a <= b then a else b
  {}

  lemma PageIsSlice<T>(s: seq<T>, limit: nat, offset: nat)
    requires offset < |s|
    ensures Page(s, limit, offset) == s[offset..if offset + limit <= |s| then offset + limit else |s|]
  {}

  lemma {:induction false} PagesCoverOnce<T>(s: seq<T>, limit: nat, offset: nat)
    requires limit > 0
    ensures PagesFrom(s, limit, offset) == s[Min(offset, |s|)..]
    decreases |s| - offset
  {
    hide Page, Min;
    MinIsSmaller(offset, |s|);
    MinIsSmaller(offset + limit, |s|);
    if offset < |s| {
      PagesCoverOnce(s, limit, offset + limit);
      PageIsSlice(s, limit, offset);
    }
  }

  function Picked(r: Row, w: Where): seq<Row> {
    if w.Matches(r) then [r] else []
  }

  lemma SelectEnds(r: Row, s: seq<Row>, w: Where)
    ensures Select([r] + s, w) == Picked(r, w) + Select(s, w)
    ensures Select(s + [r], w) == Select(s, w) + Picked(r, w)
  {
    SelectInPlace([], r, s, w);
    SelectInPlace(s, r, [], w);
    assert [] + [r] + s == [r] + s && s + [r] + [] == s + [r];
  }

  lemma ReverseLast(s: seq<Row>)
    requires s != []
    ensures Reverse(s) == [Last(s)] + Reverse(Front(s))
  {}

  lemma ReversePicked(s: seq<Row>, r: Row, w: Where)
    ensures Reverse(s + Picked(r, w)) == Picked(r, w) + Reverse(s)
  {
    ReverseAppend(s, Picked(r, w));
    assert Reverse([r]) == [r];
  }

  lemma SelectReverseStep(front: seq<Row>, last: Row, w: Where)
    requires Select(Reverse(front), w) == Reverse(Select(front, w))
    ensures Select([last] + Reverse(front), w) == Reverse(Select(front + [last], w))
  {
    hide Select, Reverse, Picked;
    SelectEnds(last, front, w);
    SelectEnds(last, Reverse(front), w);
    ReversePicked(Select(front, w), last, w);
  }

  lemma SplitLast<T>(s: seq<T>)
    requires s != []
    ensures Front(s) + [Last(s)] == s
  {}

  lemma {:induction false} SelectReverse(s: seq<Row>, w: Where)
    ensures Select(Reverse(s), w) == Reverse(Select(s, w))
  {
    if s != [] {
      hide *;
      SelectReverse(Front(s), w);
      SelectReverseStep(Front(s), Last(s), w);
      ReverseLast(s);
      SplitLast(s);
    }
  }

  lemma {:induction false} SelectTwice(rows: seq<Row>, gameId: int, playerId: int)
    ensures Select(Select(rows, OfGame(gameId)), OfPlayer(gameId, playerId)) == Select(rows, OfPlayer(gameId, playerId))
  {
    if rows != [] {
      SelectTwice(Front(rows), gameId, playerId);
      if OfGame(gameId).Matches(Last(rows)) {
        SelectAppend(Select(Front(rows), OfGame(gameId)), Last(rows), OfPlayer(gameId, playerId));
      }
    }
  }

  lemma HistoryEnds(rows: seq<Row>, gameId: int)
    requires DistinctIds(rows)
    ensures var history, log := OrderDesc(Select(rows, OfGame(gameId))), ReplayRows(rows, gameId);
            && history == Reverse(log)
            && (history != [] ==>
                  log != [] && Page(history, 1, 0) == [Last(log)] && Page(log, 1, 0) == [Last(history)])
  {
    hide OrderAsc, OrderDesc, Select;
    SelectKeepsDistinctIds(rows, OfGame(gameId));
    DescIsReversedAsc(Select(rows, OfGame(gameId)));
  }

  lemma PlayerHistoryIsFiltered(rows: seq<Row>, gameId: int, playerId: int)
    requires DistinctIds(rows)
    ensures OrderDesc(Select(rows, OfPlayer(gameId, playerId))) ==
            Select(OrderDesc(Select(rows, OfGame(gameId))), OfPlayer(gameId, playerId))
  {
    hide OrderAsc, OrderDesc, Select, DistinctIds;
    var game, player := OfGame(gameId), OfPlayer(gameId, playerId);
    SelectKeepsDistinctIds(rows, game);
    SelectKeepsDistinctIds(rows, player);
    DescIsReversedAsc(Select(rows, game));
    DescIsReversedAsc(Select(rows, player));
    SelectTwice(rows, gameId, playerId);
    OrderCommutesWithSelect(Select(rows, game), player);
    SelectReverse(ReplayRows(rows, gameId), player);
  }

  /**
   * The history read page by page, newest first, is the replay order backwards with nothing lost
   * or repeated; the first and last interactions are its two ends; and a player's pages are the
   * pages of that same history filtered to the player.
   */
  lemma HistoryIsReversedReplay(rows: seq<Row>, gameId: int, playerId: int, limit: nat)
    requires DistinctIds(rows) && limit > 0
    ensures var history := OrderDesc(Select(rows, OfGame(gameId)));
            && PagesFrom(history, limit, 0) == Reverse(ReplayRows(rows, gameId))
            && (history != [] ==>
                  && ReplayRows(rows, gameId) != []
                  && Page(history, 1, 0) == [Last(ReplayRows(rows, gameId))]
                  && Page(ReplayRows(rows, gameId), 1, 0) == [Last(history)])
            && OrderDesc(Select(rows, OfPlayer(gameId, playerId))) == Select(history, OfPlayer(gameId, playerId))
  {
    hide OrderAsc, OrderDesc, Select, DistinctIds, ReplayRows, PagesFrom, Reverse;
    HistoryEnds(rows, gameId);
    PlayerHistoryIsFiltered(rows, gameId, playerId);
    PagesCoverOnce(OrderDesc(Select(rows, OfGame(gameId))), limit, 0);
  }

  lemma PageAfter<T>(a: seq<T>, b: seq<T>, limit: nat, offset: nat)
    ensures Page(a + b, limit, offset + |a|) == Page(b, limit, offset)
  {}

  lemma PrefixIsOrdered(rows: seq<Row>, more: seq<Row>)
    requires InsertionOrdered(rows + more)
    ensures InsertionOrdered(rows)
  {
    forall i, j | 0 <= i < j < |rows|
      ensures rows[i].id < rows[j].id
      ensures rows[i].gameId == rows[j].gameId ==> !Text.TextLess(rows[j].occurredAt, rows[i].occurredAt)
    {
      assert rows[i] == (rows + more)[i] && rows[j] == (rows + more)[j];
    }
  }

  /**
   * Inserts only push a history down: after a table has grown by `more`, k of them in this game, or
   * by this player in this game, the page at offset + k is the page that was at offset.
   */
  lemma PagesShiftWithInserts(rows: seq<Row>, more: seq<Row>, w: Where, limit: nat, offset: nat)
    requires InsertionOrdered(rows + more)
    ensures var k := |Select(more, w)|;
            Page(OrderDesc(Select(rows + more, w)), limit, offset + k) ==
            Page(OrderDesc(Select(rows, w)), limit, offset)
  {
    var before, added := Select(rows, w), Select(more, w);
    hide *;
    PrefixIsOrdered(rows, more);
    OrderIsInsertionOrder(rows, w);
    OrderIsInsertionOrder(rows + more, w);
    SelectConcat(rows, more, w);
    ReverseAppend(before, added);
    PageAfter(Reverse(added), Reverse(before), limit, offset);
  }
}
