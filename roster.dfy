/**
 * The roster: the ordered list of players whose columns the sheet shows.
 * A player is an id and an editable name; the id is the key of the
 * player's marks in the mark store.
 */
module Roster {
  import opened Wrappers

  datatype Player = Player(id: nat, name: string)

  /** The roster a session starts with. */
  const InitialPlayers: seq<Player> := [Player(1, "Siz"), Player(2, "Oyuncu 2"), Player(3, "Oyuncu 3")]

  predicate DistinctIds(ps: seq<Player>) {
    forall i, j :: 0 <= i < j < |ps| ==> ps[i].id != ps[j].id
  }

  /** Some player on the roster has this id. */
  predicate IsLive(ps: seq<Player>, id: nat) {
    exists k :: 0 <= k < |ps| && ps[k].id == id
  }

  /**
   * The first player with this id (the array `find`), or `None` when no
   * live player has it.
   */
  function FindPlayer(ps: seq<Player>, id: nat): (r: Option<Player>)
    ensures r.None? <==> !IsLive(ps, id)
    ensures r.Some? ==> exists k :: 0 <= k < |ps| && ps[k] == r.value && ps[k].id == id &&
                                    forall j :: 0 <= j < k ==> ps[j].id != id
  {
    if |ps| == 0 then None
    else if ps[0].id == id then Some(ps[0])
    else
      var r := FindPlayer(ps[1..], id);
      assert IsLive(ps, id) ==> IsLive(ps[1..], id) by {
        if IsLive(ps, id) {
          var k :| 0 <= k < |ps| && ps[k].id == id;
          assert ps[1..][k - 1].id == id;
        }
      }
      r
  }

  /** With distinct ids, the player found for `ps[k].id` is `ps[k]` itself. */
  lemma FindDistinct(ps: seq<Player>, k: nat)
    requires DistinctIds(ps) && k < |ps|
    ensures FindPlayer(ps, ps[k].id) == Some(ps[k])
  {
  }

  /** The larger of all ids and 0 (`Math.max(...ids, 0)`). */
  function MaxId(ps: seq<Player>): (m: nat)
    ensures forall k :: 0 <= k < |ps| ==> ps[k].id <= m
    ensures m == 0 || IsLive(ps, m)
  {
    if |ps| == 0 then 0
    else
      var rest := MaxId(ps[1..]);
      assert forall k :: 1 <= k < |ps| ==> ps[k].id == ps[1..][k - 1].id;
      assert IsLive(ps[1..], rest) ==> IsLive(ps, rest) by {
        if IsLive(ps[1..], rest) {
          var k :| 0 <= k < |ps[1..]| && ps[1..][k].id == rest;
          assert ps[k + 1].id == rest;
        }
      }
      if ps[0].id > rest then ps[0].id else rest
  }

  /** `v` is above every live id. */
  predicate AboveAll(ps: seq<Player>, v: nat) {
    forall k :: 0 <= k < |ps| ==> ps[k].id < v
  }

  /**
   * The id an added player gets, one more than the largest live id: it is
   * at least 1, above every live id, and the least such value.
   */
  lemma NextIdIsFresh(ps: seq<Player>)
    ensures MaxId(ps) + 1 >= 1
    ensures !IsLive(ps, MaxId(ps) + 1)
    ensures AboveAll(ps, MaxId(ps) + 1)
    ensures forall v: nat :: v >= 1 && AboveAll(ps, v) ==> MaxId(ps) + 1 <= v
  {
    var m := MaxId(ps);
    forall v: nat | v >= 1 && AboveAll(ps, v) ensures m + 1 <= v {
      if m != 0 {
        var k :| 0 <= k < |ps| && ps[k].id == m;
      }
    }
  }

  /** The decimal digit character of `d`. */
  function Digit(d: nat): char
    requires d < 10
  {
    ('0' as int + d) as char
  }

  predicate AllDigits(s: string) {
    forall k :: 0 <= k < |s| ==> '0' <= s[k] <= '9'
  }

  /** The decimal text of a number, as a template literal renders an integer. */
  function DecimalString(n: nat): (s: string)
    ensures |s| >= 1 && AllDigits(s)
    ensures s[0] == '0' ==> n == 0
  {
    if n < 10 then [Digit(n)] else DecimalString(n / 10) + [Digit(n % 10)]
  }

  /** The number a string of decimal digits denotes. */
  function DecimalValue(s: string): nat
    requires AllDigits(s)
  {
    if |s| == 0 then 0 else 10 * DecimalValue(s[..|s| - 1]) + (s[|s| - 1] as int - '0' as int)
  }

  /** Reading back the decimal text of a number gives the number, so distinct numbers get distinct texts. */
  lemma {:induction false} DecimalRoundTrip(n: nat)
    ensures DecimalValue(DecimalString(n)) == n
  {
    var s := DecimalString(n);
    if n >= 10 {
      DecimalRoundTrip(n / 10);
      assert s[..|s| - 1] == DecimalString(n / 10);
    }
  }

  /** The default name of the player added to a roster of `count` players. */
  function NewPlayerName(count: nat): string {
    "Oyuncu " + DecimalString(count + 1)
  }

  /** The roster with every player of that id filtered out, the others in their order. */
  function Without(ps: seq<Player>, id: nat): (r: seq<Player>)
    ensures |r| <= |ps|
  {
    if |ps| == 0 then []
    else if ps[0].id == id then Without(ps[1..], id)
    else [ps[0]] + Without(ps[1..], id)
  }

  /** The filtered roster holds exactly the players whose id differs. */
  lemma {:induction false} WithoutMembers(ps: seq<Player>, id: nat, p: Player)
    ensures p in Without(ps, id) <==> p in ps && p.id != id
  {
    if |ps| > 0 {
      WithoutMembers(ps[1..], id, p);
      assert ps == [ps[0]] + ps[1..];
    }
  }

  /** Filtering distributes over concatenation: the kept players stay in their relative order. */
  lemma {:induction false} WithoutConcat(a: seq<Player>, b: seq<Player>, id: nat)
    ensures Without(a + b, id) == Without(a, id) + Without(b, id)
  {
    if |a| > 0 {
      assert (a + b)[1..] == a[1..] + b;
      WithoutConcat(a[1..], b, id);
    } else {
      assert a + b == b;
    }
  }

  /** Removing an id no player has leaves the roster as it was. */
  lemma {:induction false} WithoutAbsent(ps: seq<Player>, id: nat)
    requires !IsLive(ps, id)
    ensures Without(ps, id) == ps
  {
    if |ps| > 0 {
      assert !IsLive(ps[1..], id) by {
        forall k | 0 <= k < |ps[1..]| ensures ps[1..][k].id != id {
          assert ps[1..][k] == ps[k + 1];
        }
      }
      WithoutAbsent(ps[1..], id);
      assert ps == [ps[0]] + ps[1..];
    }
  }

  /** No player of `ps[lo..hi]` has this id when none of those positions has it. */
  lemma NotLiveSlice(ps: seq<Player>, lo: nat, hi: nat, id: nat)
    requires lo <= hi <= |ps|
    requires forall j :: lo <= j < hi ==> ps[j].id != id
    ensures !IsLive(ps[lo..hi], id)
  {
    forall j | 0 <= j < hi - lo ensures ps[lo..hi][j].id != id {
      assert ps[lo..hi][j] == ps[lo + j];
    }
  }

  /** `ps[k]` is the only player holding its id. */
  predicate OnlyHolder(ps: seq<Player>, k: nat)
    requires k < |ps|
  {
    forall j :: 0 <= j < |ps| && j != k ==> ps[j].id != ps[k].id
  }

  /**
   * When `ps[k]` is the only player with its id (as with distinct ids),
   * removing that id removes exactly that player and keeps everyone else in order.
   */
  lemma {:induction false} WithoutAt(ps: seq<Player>, k: nat)
    requires k < |ps| && OnlyHolder(ps, k)
    ensures Without(ps, ps[k].id) == ps[..k] + ps[k + 1..]
  {
    var id := ps[k].id;
    var tail := ps[1..];
    if k == 0 {
      NotLiveSlice(ps, 1, |ps|, id);
      assert ps[1..|ps|] == tail;
      WithoutAbsent(tail, id);
    } else {
      assert tail[k - 1] == ps[k];
      assert OnlyHolder(tail, k - 1) by {
        forall j | 0 <= j < |tail| && j != k - 1 ensures tail[j].id != id {
          assert tail[j] == ps[j + 1];
        }
      }
      WithoutAt(tail, k - 1);
      assert tail[..k - 1] == ps[1..k] && tail[k..] == ps[k + 1..];
      assert ps[..k] == [ps[0]] + ps[1..k];
    }
  }

  /**
   * Ids are fresh only among live players: on the starting roster,
   * removing player 3 and then adding a player hands out id 3 again, under
   * the name "Oyuncu 3".
   */
  lemma RemoveThenAddReusesId()
    ensures Without(InitialPlayers, 3) == [Player(1, "Siz"), Player(2, "Oyuncu 2")]
    ensures MaxId(Without(InitialPlayers, 3)) + 1 == 3
    ensures NewPlayerName(|Without(InitialPlayers, 3)|) == "Oyuncu 3"
  {
    WithoutAt(InitialPlayers, 2);
    assert InitialPlayers[..2] + InitialPlayers[3..] == [Player(1, "Siz"), Player(2, "Oyuncu 2")];
  }

  /** The roster with the player(s) of that id renamed; ids, order and every other name are kept. */
  function Renamed(ps: seq<Player>, id: nat, newName: string): (r: seq<Player>)
    ensures |r| == |ps|
    ensures forall k :: 0 <= k < |ps| ==> r[k].id == ps[k].id
    ensures forall k :: 0 <= k < |ps| ==> r[k].name == if ps[k].id == id then newName else ps[k].name
  {
    if |ps| == 0 then []
    else
      var rest := Renamed(ps[1..], id, newName);
      [if ps[0].id == id then Player(ps[0].id, newName) else ps[0]] + rest
  }

  /** After a rename of a live id, looking that id up finds the player under the new name. */
  lemma {:induction false} RenamedFindSelf(ps: seq<Player>, id: nat, newName: string)
    requires IsLive(ps, id)
    ensures FindPlayer(Renamed(ps, id, newName), id) == Some(Player(id, newName))
  {
    var r := Renamed(ps, id, newName);
    if ps[0].id != id {
      var k :| 0 <= k < |ps| && ps[k].id == id;
      assert ps[1..][k - 1].id == id;
      RenamedFindSelf(ps[1..], id, newName);
      assert r[1..] == Renamed(ps[1..], id, newName);
    }
  }

  /** A rename does not change what any other id looks up to. */
  lemma {:induction false} RenamedFindOther(ps: seq<Player>, id: nat, newName: string, other: nat)
    requires other != id
    ensures FindPlayer(Renamed(ps, id, newName), other) == FindPlayer(ps, other)
  {
    var r := Renamed(ps, id, newName);
    if |ps| > 0 && ps[0].id != other {
      RenamedFindOther(ps[1..], id, newName, other);
      assert r[1..] == Renamed(ps[1..], id, newName);
    }
  }

  /** Renaming an id no player has leaves the roster as it was. */
  lemma RenamedAbsent(ps: seq<Player>, id: nat, newName: string)
    requires !IsLive(ps, id)
    ensures Renamed(ps, id, newName) == ps
  {
    var r := Renamed(ps, id, newName);
    assert forall k :: 0 <= k < |ps| ==> r[k] == ps[k];
  }
}
