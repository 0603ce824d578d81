# Cluedo evidence sheet — a Dafny model of its session logic

This project models the logic of a one-page "Cluedo" evidence notebook (`app/page.js`).
The rest of the page is layout. The model covers the session state that the page keeps and updates through its handlers:

- **Catalog** (module `Catalog`): the fixed, ordered list of 21 card names.
  It holds 6 suspects, 6 weapons and 9 rooms.
  A card's name is its key in the mark store.
- **Roster** (module `Roster`): the ordered list of players, each an id and a name.
  The module also holds the pure values the roster handlers compute:
  - the next id, `max(ids, 0) + 1`;
  - the default name `"Oyuncu <n>"`;
  - the filtered roster used for removal;
  - the mapped roster used for renaming;
  - the first-match lookup that the report uses.
- **Mark store** (module `Marks`): a map from card name to a row, which maps player id to one of `Yes`, `No`, `Maybe` and `Unknown`.
  A missing card row or player key reads as `Unknown`.
  Writing a cell keeps every other cell.
  "Temizle" stores `Unknown` and does not delete the key.
  A new game gives every catalog card an empty row.
- **Report** (module `Report`): the three lists of the evidence summary ('yes', 'maybe', 'no').
  The specification is a pure function built from *hits*: a hit is a pair of a catalog position and a player id.
  The lemmas prove the following:
  - a list holds exactly the cells of live players whose mark reads that status;
  - the list is in catalog order, and within one card in ascending player id;
  - each such cell gives exactly one entry;
  - a card can appear in several lists;
  - a store in which every cell reads `Unknown`, such as a new game's store or the initial `{}`, gives an empty report.
- **Session** (module `Session`): a class with the fields `players`, `gameData` and `activeCell`.
  It has one method per handler.
  A window's confirmation answer is a `confirmed` argument.
  The alert for removing the last player is the `refused` result.
  `GetReportData` builds the report with loops and is proved equal to the specification `ReportOf`.

The model follows the code as written:
- There is no cycling function. A mark is only ever set directly.
- The report has no priority between lists. A card marked 'yes' by one player and 'no' by another is in both lists.
- Renaming or removing an absent id is a silent no-op. No `NotFound` error exists.
- Player ids are fresh only among *live* players. A removed id can be handed out again, and the removed player's stored marks then show up again under the new player (`Report.OrphanMarksResurface`).

## Model

| member | source | states |
|---|---|---|
| `Catalog.CatalogShape` | app/page.js:7-9 | The catalog has 6 suspects, 6 weapons and 9 rooms, 21 cards in all, with no name repeated. |
| `Marks.StatusAt` | app/page.js:237 | A cell whose card row or player key is absent reads as `Unknown`. |
| `Marks.SetMark` | app/page.js:76-84 | After a write, the written cell holds the status; `Unknown` is stored as a key, not deleted. A missing row is created. All other rows, and all other keys of the row, are unchanged. |
| `Marks.ReadAfterSetMark` | app/page.js:76-84 | Reading after a write: the written cell reads the new status, and every other cell reads what it read before. |
| `Marks.NewBoard` | app/page.js:107-110 | The reset's card-by-card loop builds exactly the new-game store (`FreshBoard`). |
| `Marks.FreshBoardShape` | app/page.js:105-113 | The new-game store's keys are exactly the 21 catalog cards, and every cell reads `Unknown`. |
| `Roster.FindPlayer` | app/page.js:201 | The lookup finds nothing exactly when no live player has the id. Otherwise it returns the first player with that id. |
| `Roster.FindDistinct` | app/page.js:201 | With distinct ids, looking up a player's id returns that same player. |
| `Roster.MaxId` | app/page.js:116 | The result is at least every live id, and it is 0 or a live id. So it is `max(ids, 0)`. |
| `Roster.NextIdIsFresh` | app/page.js:116 | An added player's id, one above the maximum, is at least 1, above every live id, held by nobody live, and the least value above every live id. |
| `Roster.DecimalString` | app/page.js:117 | The number's text is non-empty and all decimal digits, with no leading zero unless the number is 0. |
| `Roster.DecimalRoundTrip` | app/page.js:117 | Reading the digits of a player number back gives the number. So different roster sizes give different default names. |
| `Roster.WithoutMembers` | app/page.js:123 | The filtered roster holds exactly the players whose id differs from the removed one. |
| `Roster.WithoutConcat` | app/page.js:123 | Filtering distributes over concatenation, so the kept players stay in their relative order. |
| `Roster.WithoutAbsent` | app/page.js:123 | Removing an id that no live player holds leaves the roster unchanged. |
| `Roster.WithoutAt` | app/page.js:123 | When `ps[k]` alone holds its id, removing that id removes exactly `ps[k]` and keeps the rest in order. |
| `Roster.Renamed` | app/page.js:128 | A rename keeps the roster's length, order and every id. Only the players with the matching id get the new name. |
| `Roster.RenamedFindSelf` | app/page.js:128 | After a rename of a live id, looking up that id returns the player under the new name. |
| `Roster.RenamedFindOther` | app/page.js:128 | A rename does not change what any other id looks up to. |
| `Roster.RenamedAbsent` | app/page.js:128 | Renaming an absent id leaves the roster unchanged. |
| `Roster.RemoveThenAddReusesId` | app/page.js:115-125 | On the starting roster, removing player 3 and then adding a player gives id 3 again, named "Oyuncu 3". |
| `Report.SortedKeys` | app/page.js:198 | A row's keys are listed once each, in strictly ascending order, as `Object.entries` lists integer keys. |
| `Report.CardHits` | app/page.js:198-208 | Every hit of one card is for that card, for one of the walked keys, and for a live player. |
| `Report.RowHits` | app/page.js:195-208 | A card without a row gives no hits. Every hit of a card is for that card and a live player. |
| `Report.Hits` | app/page.js:194-209 | Every hit of the first `n` cards is for one of those cards and a live player. |
| `Report.Entries` | app/page.js:203-206 | Rendering gives one entry per hit, in the same order. Each entry is the card name and the name of the first player with that id. |
| `Report.CardHitsMembership` | app/page.js:198-208 | A hit is in a card's hits exactly when its key was walked, its stored status is the list's status (never `Unknown`), and its player is live. |
| `Report.HitsMembership` | app/page.js:194-209 | A hit is among the first `n` cards' hits exactly when it is one of those cards, its cell reads the list's status (not `Unknown`), and its player is live. |
| `Report.CardHitsAscending` | app/page.js:198 | A card's hits are in strictly ascending player-id order. |
| `Report.HitsAscending` | app/page.js:194-209 | Hits are in catalog order, and within a card in ascending player id. So no hit occurs twice. |
| `Report.BucketExact` | app/page.js:187-212 | Each list renders, in order, exactly the live players' cells that read its status. These are ordered by card, then player id, and each cell gives exactly one entry. |
| `Report.EntriesAreLive` | app/page.js:201-206 | Every report entry names a catalog card and a live player. Marks stored under an id that no live player holds never appear. |
| `Report.MarkedIsReported` | app/page.js:198-208 | A cell of a live player that reads `yes`, `maybe` or `no` shows up in that list. |
| `Report.UnmarkedStoreReportEmpty` | app/page.js:194-208 | A store in which every cell reads `Unknown` gives three empty lists, whoever is on the roster. |
| `Report.FreshBoardReportEmpty` | app/page.js:105-113 | After a new game, the report has three empty lists, whoever is on the roster. |
| `Report.EmptyStoreReportEmpty` | app/page.js:40 | The initial empty store `{}` gives three empty lists, whoever is on the roster. |
| `Report.MarkShowsInReport` | app/page.js:76-84 | After a live player's cell is marked with a status other than `Unknown`, the cell's entry is in that status's list. The cell is in no other list. |
| `Report.MixedMarksInBothLists` | app/page.js:198-208 | A card that one player marked 'yes' and another marked 'no' is listed under both: the lists have no priority. |
| `Report.OrphanMarksResurface` | app/page.js:115-125 | A removed player's 'yes' mark is not reported after removal. It is reported again once a newly added player receives the same id. |
| `Session.Session.constructor` | app/page.js:34-41 | A session starts with players 1 "Siz", 2 "Oyuncu 2" and 3 "Oyuncu 3", an empty store, and no open cell. |
| `Session.Session.SelectCell` | app/page.js:89-93 | Opening the selector records the open cell and changes nothing else. |
| `Session.Session.HandleStatusChange` | app/page.js:76-87 | With an open cell, the store becomes `SetMark` of that cell. With none, nothing changes. The roster and the open cell are kept. |
| `Session.Session.ResetGame` | app/page.js:105-113 | When confirmed, the store becomes the new-game store. When not confirmed, it is unchanged. The roster is never touched. |
| `Session.Session.AddPlayer` | app/page.js:115-118 | Appends exactly one player with id `max(ids, 0) + 1` and the name "Oyuncu n+1". The marks are unchanged, and distinct ids are kept. |
| `Session.Session.RemovePlayer` | app/page.js:120-125 | With one player or fewer, the removal is refused and nothing changes. Otherwise, when confirmed, every player with that id is filtered out. The marks are kept, and from a roster with distinct ids at least one player remains. |
| `Session.Session.UpdatePlayerName` | app/page.js:127-129 | The roster becomes `Renamed`, and the marks are unchanged. |
| `Session.Session.GetReportData` | app/page.js:187-212 | The nested walk over the catalog and the rows returns exactly `ReportOf(players, gameData)`. |
| `Session.CardEntries` | app/page.js:195-208 | The per-card step returns, for each list, the rendered hits of that card. A card without a row gives none. |

## Left out

- Loading and saving through `localStorage` and JSON (app/page.js:54-73) is browser I/O and is not modelled. This includes the mount effect (app/page.js:60-66) that fills the store with the new-game store when nothing is saved: the constructor models only the initial `useState({})` at app/page.js:40, and `ResetGame` models the new-game store itself. A loaded blob can set the roster to `[]` or repeat ids. That is why `Valid()` is preserved by the handlers and not required by them.
- `window.confirm` and `alert` (app/page.js:106, 121-122) are user interface. They become the `confirmed` argument and the `refused` result.
- The touch handlers, `translateY`, the sheet and modal visibility flags, `openReport` and `closeSheet` (app/page.js:95-103, 132-155) are presentation state.
- `SelectCell` does not record the `category` that `openSelector` stores, because nothing but rendering reads it.
- The styling and icon helpers (`getStatusStyle`, `getStatusIcon`, `getCharacterColor`, `CARD_ICONS`) and all JSX are rendering only.
- Status values other than the four the buttons store can only come from a loaded blob, and they are not modelled.
- Player ids are natural numbers. JavaScript lists integer keys in ascending order only up to 2^32 - 2, and ids that large are not modelled.
- A cycling function over the statuses and a priority classification of cards do not exist in the code, so they are not modelled.
