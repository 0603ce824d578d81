/**
 * The mark store: for each card name, a row mapping a player id to the
 * status that player's column shows. Entries are sparse; a missing card
 * row or a missing player key reads as `Unknown`.
 */
module Marks {
  import opened Catalog

  /** The four values the selector buttons store: 'yes', 'no', 'maybe' and 'unknown' ("Temizle"). */
  datatype Status = Yes | No | Maybe | Unknown

  type Row = map<nat, Status>
  type Board = map<string, Row>

  /** The status a cell shows: the stored value, or `Unknown` when the card row or the player key is absent. */
  function StatusAt(board: Board, card: string, player: nat): (st: Status)
    ensures card !in board || player !in board[card] ==> st == Unknown
  {
    if card in board && player in board[card] then board[card][player] else Unknown
  }

  /**
   * The store after one cell is written: the cell holds `status` (even
   * `Unknown` is stored as a key, never deleted), a missing card row is
   * created, and every other row and every other key of the row is kept.
   */
  function SetMark(board: Board, card: string, player: nat, status: Status): (r: Board)
    ensures card in r && player in r[card] && r[card][player] == status
    ensures r.Keys == board.Keys + {card}
    ensures forall c :: c in board && c != card ==> r[c] == board[c]
    ensures card in board ==> r[card].Keys == board[card].Keys + {player}
    ensures card !in board ==> r[card].Keys == {player}
    ensures card in board ==> forall p :: p in board[card] && p != player ==> r[card][p] == board[card][p]
  {
    var row := if card in board then board[card] else map[];
    board[card := row[player := status]]
  }

  /** Reading after writing one cell: that cell reads the new status, every other cell reads as before. */
  lemma ReadAfterSetMark(board: Board, card: string, player: nat, status: Status, c: string, p: nat)
    ensures StatusAt(SetMark(board, card, player, status), c, p)
         == if c == card && p == player then status else StatusAt(board, c, p)
  {
  }

  /** The store a new game starts from: one empty row for each catalog card. */
  function FreshBoard(): Board {
    map c | c in Cards :: map[]
  }

  /** A new game's store has exactly the 21 catalog cards as keys, and every cell reads `Unknown`. */
  lemma FreshBoardShape()
    ensures |FreshBoard().Keys| == 21
    ensures forall c :: c in FreshBoard() <==> c in Cards
    ensures forall c, p :: StatusAt(FreshBoard(), c, p) == Unknown
  {
    CatalogShape();
    DistinctCount(Cards);
    assert FreshBoard().Keys == set x | x in Cards;
  }

  /** Builds the new-game store card by card, as the reset handler's loop does. */
  method NewBoard() returns (board: Board)
    ensures board == FreshBoard()
  {
    board := map[];
    var i := 0;
    while i < |Cards|
      invariant 0 <= i <= |Cards|
      invariant board == map c | c in Cards[..i] :: map[]
    {
      assert Cards[..i + 1] == Cards[..i] + [Cards[i]];
      board := board[Cards[i] := map[]];
      i := i + 1;
    }
    assert Cards[..i] == Cards;
  }
}
