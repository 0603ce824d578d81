/**
 * The evidence report. It walks the catalog in order and, for each card,
 * walks the card's row in ascending player-id order (the order in which
 * `Object.entries` lists integer-like keys). Every stored mark other than
 * `Unknown` whose id belongs to a live player becomes one entry (card,
 * player name) in the list for its status. A card is not confined to one
 * list: each mark is reported on its own.
 */
module Report {
  import opened Wrappers
  import opened Catalog
  import opened Marks
  import opened Roster

  datatype Entry = Entry(card: string, player: string)

  /** The three lists of the report: confirmed ('yes'), suspected ('maybe') and excluded ('no'). */
  datatype ReportData = ReportData(yes: seq<Entry>, maybe: seq<Entry>, no: seq<Entry>)

  /** A reported mark before rendering: the card's catalog position and the player id. */
  datatype Hit = Hit(cardIndex: nat, playerId: nat)

  // ---------------------------------------------------------------------
  // Row key order

  lemma LeastWitness(s: set<nat>) returns (m: nat)
    requires s != {}
    ensures m in s && forall k :: k in s ==> m <= k
    decreases s
  {
    var x :| x in s;
    if s == {x} {
      m := x;
    } else {
      var rest := LeastWitness(s - {x});
      m := if x < rest then x else rest;
      forall k | k in s ensures m <= k {
        if k != x {
          assert k in s - {x};
        }
      }
    }
  }

  lemma LeastExists(s: set<nat>)
    requires s != {}
    ensures exists m :: m in s && forall k :: k in s ==> m <= k
  {
    var m := LeastWitness(s);
  }

  /** The smallest element of a non-empty set of ids. */
  function Least(s: set<nat>): (m: nat)
    requires s != {}
    ensures m in s && forall k :: k in s ==> m <= k
  {
    LeastExists(s);
    var m :| m in s && forall k :: k in s ==> m <= k;
    m
  }

  /** The keys of a row in ascending order: each key exactly once. */
  function SortedKeys(s: set<nat>): (r: seq<nat>)
    ensures forall k :: k in r <==> k in s
    ensures forall i, j :: 0 <= i < j < |r| ==> r[i] < r[j]
    decreases s
  {
    if s == {} then []
    else
      var m := Least(s);
      [m] + SortedKeys(s - {m})
  }

  // ---------------------------------------------------------------------
  // Specification of the report

  /**
   * The hits of one card, in the order of `keys`: every key whose stored
   * status is the bucket's status `s` (never `Unknown`) and whose id is live.
   */
  function CardHits(ci: nat, keys: seq<nat>, row: Row, players: seq<Player>, s: Status): (r: seq<Hit>)
    requires forall k :: k in keys ==> k in row
    ensures forall h :: h in r ==> h.cardIndex == ci && h.playerId in keys && IsLive(players, h.playerId)
    decreases |keys|
  {
    if |keys| == 0 then []
    else
      var rest := CardHits(ci, keys[..|keys| - 1], row, players, s);
      var id := keys[|keys| - 1];
      if row[id] != Unknown && row[id] == s && IsLive(players, id) then rest + [Hit(ci, id)] else rest
  }

  /** The hits of catalog card `n`; a card without a row in the store has none. */
  function RowHits(board: Board, players: seq<Player>, s: Status, n: nat): (r: seq<Hit>)
    requires n < |Cards|
    ensures forall h :: h in r ==> h.cardIndex == n && IsLive(players, h.playerId)
  {
    var card := Cards[n];
    if card in board then CardHits(n, SortedKeys(board[card].Keys), board[card], players, s) else []
  }

  /** The hits for status `s` of the first `n` catalog cards, card after card. */
  function Hits(board: Board, players: seq<Player>, s: Status, n: nat): (r: seq<Hit>)
    requires n <= |Cards|
    ensures forall h :: h in r ==> h.cardIndex < n && IsLive(players, h.playerId)
  {
    if n == 0 then [] else Hits(board, players, s, n - 1) + RowHits(board, players, s, n - 1)
  }

  predicate Renderable(players: seq<Player>, h: Hit) {
    h.cardIndex < |Cards| && IsLive(players, h.playerId)
  }

  /** The report entry of a hit: the card name and the name of the first player with that id. */
  function EntryOf(players: seq<Player>, h: Hit): Entry
    requires Renderable(players, h)
  {
    Entry(Cards[h.cardIndex], FindPlayer(players, h.playerId).value.name)
  }

  /** Hits rendered one entry each, in the same order. */
  function Entries(players: seq<Player>, hs: seq<Hit>): (r: seq<Entry>)
    requires forall h :: h in hs ==> Renderable(players, h)
    ensures |r| == |hs|
    ensures forall k :: 0 <= k < |hs| ==> r[k] == EntryOf(players, hs[k])
  {
    if |hs| == 0 then []
    else Entries(players, hs[..|hs| - 1]) + [EntryOf(players, hs[|hs| - 1])]
  }

  /** One list of the report. */
  function Bucket(board: Board, players: seq<Player>, s: Status): seq<Entry> {
    Entries(players, Hits(board, players, s, |Cards|))
  }

  /** The whole report for a roster and a mark store. */
  function ReportOf(players: seq<Player>, board: Board): ReportData {
    ReportData(Bucket(board, players, Yes), Bucket(board, players, Maybe), Bucket(board, players, No))
  }

  /** Rendering a concatenation renders each part. */
  lemma {:induction false} EntriesConcat(players: seq<Player>, a: seq<Hit>, b: seq<Hit>)
    requires forall h :: h in a ==> Renderable(players, h)
    requires forall h :: h in b ==> Renderable(players, h)
    ensures Entries(players, a + b) == Entries(players, a) + Entries(players, b)
    decreases |b|
  {
    if |b| > 0 {
      var init := b[..|b| - 1];
      assert (a + b)[..|a + b| - 1] == a + init;
      EntriesConcat(players, a, init);
    } else {
      assert a + b == a;
    }
  }

  /**
   * One step of the walk over a card's row: taking key `keys[j]` into
   * account appends that cell's entry to the list of status `s` when it
   * reads `s` and its player is live, and appends nothing otherwise.
   */
  lemma CardStep(players: seq<Player>, ci: nat, keys: seq<nat>, row: Row, s: Status, j: nat)
    requires ci < |Cards| && j < |keys|
    requires forall k :: k in keys ==> k in row
    ensures var before := Entries(players, CardHits(ci, keys[..j], row, players, s));
      var id := keys[j];
      Entries(players, CardHits(ci, keys[..j + 1], row, players, s))
      == if row[id] != Unknown && row[id] == s && IsLive(players, id)
         then before + [Entry(Cards[ci], FindPlayer(players, id).value.name)]
         else before
  {
    assert keys[..j + 1][..j] == keys[..j];
  }

  /** Taking catalog card `n` into account appends the entries of its row. */
  lemma HitsStep(board: Board, players: seq<Player>, s: Status, n: nat)
    requires n < |Cards|
    ensures Entries(players, Hits(board, players, s, n + 1))
      == Entries(players, Hits(board, players, s, n)) + Entries(players, RowHits(board, players, s, n))
  {
    EntriesConcat(players, Hits(board, players, s, n), RowHits(board, players, s, n));
  }

  // ---------------------------------------------------------------------
  // What the report contains

  /** The mark at (card `h.cardIndex`, player `h.playerId`) reads `s`, which is not `Unknown`, and the player is live. */
  predicate Marked(board: Board, players: seq<Player>, s: Status, h: Hit) {
    && h.cardIndex < |Cards|
    && s != Unknown
    && StatusAt(board, Cards[h.cardIndex], h.playerId) == s
    && IsLive(players, h.playerId)
  }

  lemma {:induction false} CardHitsMembership(ci: nat, keys: seq<nat>, row: Row, players: seq<Player>, s: Status, h: Hit)
    requires forall k :: k in keys ==> k in row
    ensures h in CardHits(ci, keys, row, players, s) <==>
      h.cardIndex == ci && h.playerId in keys && s != Unknown && row[h.playerId] == s && IsLive(players, h.playerId)
    decreases |keys|
  {
    if |keys| > 0 {
      var init := keys[..|keys| - 1];
      assert forall k :: k in keys <==> k in init || k == keys[|keys| - 1];
      CardHitsMembership(ci, init, row, players, s, h);
    }
  }

  /** A hit is among the first `n` cards' hits exactly when it is a marked, live cell of one of those cards. */
  lemma {:induction false} HitsMembership(board: Board, players: seq<Player>, s: Status, n: nat, h: Hit)
    requires n <= |Cards|
    ensures h in Hits(board, players, s, n) <==> h.cardIndex < n && Marked(board, players, s, h)
  {
    if n > 0 {
      var front := Hits(board, players, s, n - 1);
      var row := RowHits(board, players, s, n - 1);
      assert Hits(board, players, s, n) == front + row;
      HitsMembership(board, players, s, n - 1, h);
      var card := Cards[n - 1];
      if card in board {
        CardHitsMembership(n - 1, SortedKeys(board[card].Keys), board[card], players, s, h);
        assert h in row <==> h.cardIndex == n - 1 && Marked(board, players, s, h);
      } else {
        assert row == [];
        assert h.cardIndex == n - 1 ==> !Marked(board, players, s, h);
      }
    }
  }

  /** `a` comes before `b` in report order: earlier card, or the same card and a smaller player id. */
  predicate Precedes(a: Hit, b: Hit) {
    a.cardIndex < b.cardIndex || (a.cardIndex == b.cardIndex && a.playerId < b.playerId)
  }

  predicate Ascending(hs: seq<Hit>) {
    forall i, j :: 0 <= i < j < |hs| ==> Precedes(hs[i], hs[j])
  }

  lemma AscendingConcat(a: seq<Hit>, b: seq<Hit>)
    requires Ascending(a) && Ascending(b)
    requires forall x, y :: x in a && y in b ==> Precedes(x, y)
    ensures Ascending(a + b)
  {
    forall i, j | 0 <= i < j < |a + b| ensures Precedes((a + b)[i], (a + b)[j]) {
      if j < |a| {
        assert (a + b)[i] == a[i] && (a + b)[j] == a[j];
      } else if i >= |a| {
        assert (a + b)[i] == b[i - |a|] && (a + b)[j] == b[j - |a|];
      } else {
        assert (a + b)[i] == a[i] && (a + b)[j] == b[j - |a|];
        assert a[i] in a && b[j - |a|] in b;
      }
    }
  }

  lemma {:induction false} CardHitsAscending(ci: nat, keys: seq<nat>, row: Row, players: seq<Player>, s: Status)
    requires forall k :: k in keys ==> k in row
    requires forall i, j :: 0 <= i < j < |keys| ==> keys[i] < keys[j]
    ensures Ascending(CardHits(ci, keys, row, players, s))
    decreases |keys|
  {
    if |keys| > 0 {
      var init := keys[..|keys| - 1];
      var last := keys[|keys| - 1];
      CardHitsAscending(ci, init, row, players, s);
      var rest := CardHits(ci, init, row, players, s);
      forall x | x in rest ensures Precedes(x, Hit(ci, last)) {
        var m :| 0 <= m < |init| && init[m] == x.playerId;
        assert keys[m] < last;
      }
      AscendingConcat(rest, [Hit(ci, last)]);
    }
  }

  /** The hits come in catalog order, and within a card in ascending player id; no hit is listed twice. */
  lemma {:induction false} HitsAscending(board: Board, players: seq<Player>, s: Status, n: nat)
    requires n <= |Cards|
    ensures Ascending(Hits(board, players, s, n))
  {
    if n > 0 {
      HitsAscending(board, players, s, n - 1);
      var card := Cards[n - 1];
      var front := Hits(board, players, s, n - 1);
      var row := RowHits(board, players, s, n - 1);
      if card in board {
        CardHitsAscending(n - 1, SortedKeys(board[card].Keys), board[card], players, s);
      }
      forall x, y | x in front && y in row ensures Precedes(x, y) {
        assert x.cardIndex < n - 1 && y.cardIndex == n - 1;
      }
      AscendingConcat(front, row);
    }
  }

  /**
   * One list of the report, exactly: it renders, in order, the hits of
   * status `s`; those hits are precisely the marked cells of live players
   * that read `s`; and they ascend by catalog position, then by player id,
   * so each such cell yields exactly one entry.
   */
  lemma BucketExact(board: Board, players: seq<Player>, s: Status)
    ensures var hs := Hits(board, players, s, |Cards|);
      && Ascending(hs)
      && (forall h :: h in hs <==> Marked(board, players, s, h))
      && |Bucket(board, players, s)| == |hs|
      && forall k :: 0 <= k < |hs| ==> Bucket(board, players, s)[k] == EntryOf(players, hs[k])
  {
    HitsAscending(board, players, s, |Cards|);
    forall h ensures h in Hits(board, players, s, |Cards|) <==> Marked(board, players, s, h) {
      HitsMembership(board, players, s, |Cards|, h);
    }
  }

  /** Every entry of a list names a catalog card and a live player. */
  lemma EntriesAreLive(board: Board, players: seq<Player>, s: Status, e: Entry)
    requires e in Bucket(board, players, s)
    ensures e.card in Cards
    ensures exists k :: 0 <= k < |players| && players[k].name == e.player
  {
    var hs := Hits(board, players, s, |Cards|);
    var b := Bucket(board, players, s);
    var i :| 0 <= i < |b| && b[i] == e;
    assert hs[i] in hs;
    var f := FindPlayer(players, hs[i].playerId);
    var k :| 0 <= k < |players| && players[k] == f.value && players[k].id == hs[i].playerId &&
             forall j :: 0 <= j < k ==> players[j].id != hs[i].playerId;
    assert players[k].name == e.player;
  }

  /** A store in which every cell reads `Unknown` gives a report with three empty lists. */
  lemma UnmarkedStoreReportEmpty(players: seq<Player>, board: Board)
    requires forall c, p :: StatusAt(board, c, p) == Unknown
    ensures ReportOf(players, board) == ReportData([], [], [])
  {
    forall s | s in {Yes, Maybe, No} ensures Hits(board, players, s, |Cards|) == [] {
      var hs := Hits(board, players, s, |Cards|);
      if hs != [] {
        HitsMembership(board, players, s, |Cards|, hs[0]);
        assert false;
      }
    }
  }

  /** A new game's store gives a report with three empty lists, whoever is on the roster. */
  lemma FreshBoardReportEmpty(players: seq<Player>)
    ensures ReportOf(players, FreshBoard()) == ReportData([], [], [])
  {
    FreshBoardShape();
    UnmarkedStoreReportEmpty(players, FreshBoard());
  }

  /** The store a session holds before anything is loaded, `{}`, also gives three empty lists. */
  lemma EmptyStoreReportEmpty(players: seq<Player>)
    ensures ReportOf(players, map[]) == ReportData([], [], [])
  {
    UnmarkedStoreReportEmpty(players, map[]);
  }

  /** A marked cell of a live player is rendered in the list of its status. */
  lemma MarkedIsReported(board: Board, players: seq<Player>, s: Status, h: Hit)
    requires Marked(board, players, s, h)
    ensures EntryOf(players, h) in Bucket(board, players, s)
  {
    HitsMembership(board, players, s, |Cards|, h);
    var hs := Hits(board, players, s, |Cards|);
    var i :| 0 <= i < |hs| && hs[i] == h;
    assert Bucket(board, players, s)[i] == EntryOf(players, h);
  }

  /**
   * Marking a catalog card for a live player (ids distinct) with a status
   * other than `Unknown` puts that cell's entry into the list of that
   * status and keeps the cell out of every other list.
   */
  lemma MarkShowsInReport(board: Board, players: seq<Player>, ci: nat, k: nat, s: Status)
    requires ci < |Cards| && k < |players| && DistinctIds(players) && s != Unknown
    ensures var after := SetMark(board, Cards[ci], players[k].id, s);
      && Entry(Cards[ci], players[k].name) in Bucket(after, players, s)
      && forall t :: t != s ==> Hit(ci, players[k].id) !in Hits(after, players, t, |Cards|)
  {
    var after := SetMark(board, Cards[ci], players[k].id, s);
    var h := Hit(ci, players[k].id);
    assert StatusAt(after, Cards[ci], players[k].id) == s;
    FindDistinct(players, k);
    MarkedIsReported(after, players, s, h);
    forall t | t != s ensures h !in Hits(after, players, t, |Cards|) {
      HitsMembership(after, players, t, |Cards|, h);
    }
  }

  /**
   * No priority between lists: a card one live player marked 'yes' and
   * another marked 'no' is listed under both.
   */
  lemma MixedMarksInBothLists(board: Board, players: seq<Player>, ci: nat, a: nat, b: nat)
    requires ci < |Cards| && a < |players| && b < |players| && DistinctIds(players)
    requires StatusAt(board, Cards[ci], players[a].id) == Yes
    requires StatusAt(board, Cards[ci], players[b].id) == No
    ensures Entry(Cards[ci], players[a].name) in ReportOf(players, board).yes
    ensures Entry(Cards[ci], players[b].name) in ReportOf(players, board).no
  {
    FindDistinct(players, a);
    FindDistinct(players, b);
    MarkedIsReported(board, players, Yes, Hit(ci, players[a].id));
    MarkedIsReported(board, players, No, Hit(ci, players[b].id));
  }

  /**
   * Ids are only fresh among live players. On the starting roster, removing
   * player 3 and adding a player gives the new player id 3 again, under the
   * name "Oyuncu 3", and a 'yes' mark left behind by the removed player is
   * reported again, for the new player.
   */
  lemma OrphanMarksResurface(board: Board, ci: nat)
    requires ci < |Cards| && StatusAt(board, Cards[ci], 3) == Yes
    ensures var remaining := Without(InitialPlayers, 3);
      var added := remaining + [Player(MaxId(remaining) + 1, NewPlayerName(|remaining|))];
      && MaxId(remaining) + 1 == 3
      && Entry(Cards[ci], "Oyuncu 3") !in Bucket(board, remaining, Yes)
      && Entry(Cards[ci], "Oyuncu 3") in Bucket(board, added, Yes)
  {
    RemoveThenAddReusesId();
    var remaining := Without(InitialPlayers, 3);
    var added := remaining + [Player(3, "Oyuncu 3")];
    if Entry(Cards[ci], "Oyuncu 3") in Bucket(board, remaining, Yes) {
      EntriesAreLive(board, remaining, Yes, Entry(Cards[ci], "Oyuncu 3"));
      assert false;
    }
    assert FindPlayer(added, 3) == Some(Player(3, "Oyuncu 3"));
    MarkedIsReported(board, added, Yes, Hit(ci, 3));
  }
}
