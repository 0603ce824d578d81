/**
 * The fixed card catalog of the deduction sheet: six suspects, six weapons
 * and nine rooms. A card is identified by its name, which is also the key
 * of its row in the mark store.
 */
module Catalog {

  const Suspects: seq<string> :=
    ["Başkan Green", "Albay Mustard", "Şef White", "Avukat Peacock", "Profesör Plum", "Bayan Scarlett"]

  const Weapons: seq<string> :=
    ["Şamdan", "Hançer", "Tabanca", "Kurşun Boru", "İp", "İngiliz Anahtarı"]

  const Rooms: seq<string> :=
    ["Balo Salonu", "Bilardo Odası", "Kış Bahçesi", "Yemek Odası", "Hol", "Mutfak", "Kütüphane", "Salon", "Çalışma Odası"]

  /** Every card in the order the reset and the report walk them: suspects, then weapons, then rooms. */
  const Cards: seq<string> := Suspects + Weapons + Rooms

  predicate Distinct(s: seq<string>) {
    forall i, j :: 0 <= i < j < |s| ==> s[i] != s[j]
  }

  /** The catalog holds 21 cards, no name twice, so a card name is a usable key. */
  lemma CatalogShape()
    ensures |Suspects| == 6 && |Weapons| == 6 && |Rooms| == 9
    ensures |Cards| == 21
    ensures Distinct(Cards)
  {
  }

  /** A list without repeats has as many distinct elements as it has positions. */
  lemma {:induction false} DistinctCount(s: seq<string>)
    requires Distinct(s)
    ensures |set x | x in s| == |s|
  {
    if |s| > 0 {
      DistinctCount(s[1..]);
      assert (set x | x in s) == {s[0]} + (set x | x in s[1..]);
      assert s[0] !in (set x | x in s[1..]);
    }
  }
}
