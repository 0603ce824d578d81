/**
 * The deduction-sheet session: the roster, the mark store and the cell the
 * selector is open on, each updated in place by the page's handlers.
 * Confirmation dialogs are the `confirmed` arguments; the alert shown when
 * the last player would be removed is the `refused` result.
 */
module Session {
  import opened Wrappers
  import opened Catalog
  import opened Marks
  import opened Roster
  import opened Report

  /** The cell the selector was opened on. */
  datatype Cell = Cell(card: string, player: nat)

  class Session {
    var players: seq<Player>
    var gameData: Board
    var activeCell: Option<Cell>

    /** What the handlers keep: at least one player, and no id held twice. */
    ghost predicate Valid()
      reads this
    {
      |players| >= 1 && DistinctIds(players)
    }

    /** The state before anything is loaded: the starting roster, an empty store, no open cell. */
    constructor ()
      ensures Valid()
      ensures players == InitialPlayers && gameData == map[] && activeCell == None
    {
      players := InitialPlayers;
      gameData := map[];
      activeCell := None;
    }

    /** Opens the selector on one cell; only the open cell changes. */
    method SelectCell(card: string, player: nat)
      modifies this
      ensures activeCell == Some(Cell(card, player))
      ensures players == old(players) && gameData == old(gameData)
    {
      activeCell := Some(Cell(card, player));
    }

    /**
     * Writes `status` into the open cell (the "Var", "Yok", "Belki" and
     * "Temizle" buttons); with no open cell nothing changes.
     */
    method HandleStatusChange(status: Status)
      modifies this
      ensures players == old(players) && activeCell == old(activeCell)
      ensures activeCell.None? ==> gameData == old(gameData)
      ensures activeCell.Some? ==>
        gameData == SetMark(old(gameData), activeCell.value.card, activeCell.value.player, status)
    {
      if activeCell.None? {
        return;
      }
      var cell := activeCell.value;
      gameData := SetMark(gameData, cell.card, cell.player, status);
    }

    /** When confirmed, starts a new game: every catalog card gets an empty row; the roster stays. */
    method ResetGame(confirmed: bool)
      modifies this
      ensures gameData == if confirmed then FreshBoard() else old(gameData)
      ensures players == old(players) && activeCell == old(activeCell)
    {
      if confirmed {
        gameData := NewBoard();
      }
    }

    /**
     * Appends one player whose id is one more than the largest live id (or
     * 1), named after the new roster size; the marks are untouched.
     */
    method AddPlayer()
      modifies this
      ensures players == old(players) + [Player(MaxId(old(players)) + 1, NewPlayerName(|old(players)|))]
      ensures gameData == old(gameData) && activeCell == old(activeCell)
      ensures old(Valid()) ==> Valid()
    {
      var newId := MaxId(players) + 1;
      players := players + [Player(newId, NewPlayerName(|players|))];
    }

    /**
     * Removes every player with this id, unless only one player is left
     * (then `refused` is set and nothing changes) or the removal is not
     * confirmed. The removed player's marks stay in the store.
     */
    method RemovePlayer(id: nat, confirmed: bool) returns (refused: bool)
      modifies this
      ensures refused <==> |old(players)| <= 1
      ensures players == if !refused && confirmed then Without(old(players), id) else old(players)
      ensures gameData == old(gameData) && activeCell == old(activeCell)
      ensures old(Valid()) ==> Valid()
    {
      if |players| <= 1 {
        return true;
      }
      refused := false;
      if confirmed {
        if !IsLive(players, id) {
          WithoutAbsent(players, id);
        } else if Valid() {
          var k :| 0 <= k < |players| && players[k].id == id;
          WithoutAt(players, k);
        }
        players := Without(players, id);
      }
    }

    /** Renames the player(s) with this id; order, ids and the marks are untouched. */
    method UpdatePlayerName(id: nat, newName: string)
      modifies this
      ensures players == Renamed(old(players), id, newName)
      ensures gameData == old(gameData) && activeCell == old(activeCell)
      ensures old(Valid()) ==> Valid()
    {
      players := Renamed(players, id, newName);
    }

    /**
     * Builds the report by walking the catalog in order and pushing each
     * card's entries onto the three lists.
     */
    method GetReportData() returns (r: ReportData)
      ensures r == ReportOf(players, gameData)
    {
      var ps, board := players, gameData;
      var yes, maybe, no := [], [], [];
      var i := 0;
      while i < |Cards|
        invariant i <= |Cards|
        invariant yes == Entries(ps, Hits(board, ps, Yes, i))
        invariant maybe == Entries(ps, Hits(board, ps, Maybe, i))
        invariant no == Entries(ps, Hits(board, ps, No, i))
      {
        HitsStep(board, ps, Yes, i);
        HitsStep(board, ps, Maybe, i);
        HitsStep(board, ps, No, i);
        var rowYes, rowMaybe, rowNo := CardEntries(ps, board, i);
        yes, maybe, no := yes + rowYes, maybe + rowMaybe, no + rowNo;
        i := i + 1;
      }
      r := ReportData(yes, maybe, no);
    }
  }

  /**
   * The entries one catalog card contributes to each list: none when the
   * card has no row; otherwise its row's keys in ascending order, skipping
   * 'unknown' marks and ids of no live player.
   */
  method CardEntries(players: seq<Player>, board: Board, ci: nat) returns (yes: seq<Entry>, maybe: seq<Entry>, no: seq<Entry>)
    requires ci < |Cards|
    ensures yes == Entries(players, RowHits(board, players, Yes, ci))
    ensures maybe == Entries(players, RowHits(board, players, Maybe, ci))
    ensures no == Entries(players, RowHits(board, players, No, ci))
  {
    yes, maybe, no := [], [], [];
    var card := Cards[ci];
    if card !in board {
      return;
    }
    var row := board[card];
    var keys := SortedKeys(row.Keys);
    var j := 0;
    while j < |keys|
      invariant j <= |keys|
      invariant yes == Entries(players, CardHits(ci, keys[..j], row, players, Yes))
      invariant maybe == Entries(players, CardHits(ci, keys[..j], row, players, Maybe))
      invariant no == Entries(players, CardHits(ci, keys[..j], row, players, No))
    {
      CardStep(players, ci, keys, row, Yes, j);
      CardStep(players, ci, keys, row, Maybe, j);
      CardStep(players, ci, keys, row, No, j);
      var id := keys[j];
      var status := row[id];
      if status != Unknown {
        var found := FindPlayer(players, id);
        if found.Some? {
          var entry := Entry(card, found.value.name);
          if status == Yes {
            yes := yes + [entry];
          } else if status == Maybe {
            maybe := maybe + [entry];
          } else {
            no := no + [entry];
          }
        }
      }
      j := j + 1;
    }
    assert keys[..j] == keys;
  }
}
