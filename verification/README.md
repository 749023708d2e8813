# Danky Donuts widgets: a verified model

This project models the two stateful widgets in the Danky Donuts front-end script `script.js`:

- **The favourites vote store.** At page load it reads a vote table from the browser storage key `dankyDonutVotes`. It gives every catalog donut that has no record a default record `{score: 0, userVote: null}`. The star button's click handler then toggles one record in place and writes the whole table back to storage.
- **The menu carousel cursor.** It renders the first three catalog donuts as the carousel items. A cursor `activeIdx` starts on the middle item. The previous and next buttons move it with clamping at both ends. A click on an item jumps to that item. After every move the items' "active" flags are redrawn.

Files:

- `catalog.dfy` (module `Catalog`): the static catalog of nine donuts.
- `votes.dfy` (module `Votes`): the vote records and the storage stand-in. It holds the specification functions `Load`, `Merge` and `Toggled`, the `VoteStore` class with `Init` and `Toggle`, and three client scenarios.
- `carousel.dfy` (module `MenuCarousel`): the cursor functions and the `Carousel` class with `Update`, `Prev`, `Next` and `Select`.

Storage is an abstract value of type `Stored`:

- `Absent`: the key is missing, or the payload parses to a falsy value. The `|| {}` fallback turns both into an empty table.
- `Unparseable`: the JSON parser rejects the payload.
- `Saved(table)`: a serialized vote table.

Serialisation is the identity on this value. `Toggle` leaves `persisted == Saved(votes)`.

The legacy `'down' → 'up'` transition adds 2, exactly as the code does. `Toggled`'s contract explains why this is consistent. Count a user's own vote as +1 for `up`, 0 for no vote and -1 for `down`. Then every toggle keeps the score net of the user's own vote unchanged. It also flips the favourite state, and it never leaves `down` behind. These three facts determine the new record.

Two behaviours of the code are kept even though a reader might expect otherwise:

- Malformed storage is not recovered from. `JSON.parse` at script.js:159 has no `try`/`catch`, so an unparseable payload raises out of initialisation instead of falling back to defaults. `VoteStore.Init` therefore returns `ok == false` and builds no table. After that no `Toggle` can be called, because no record exists.
- Non-catalog records are never removed. The initialisation pass only adds records (script.js:161-165), so a loaded table keeps whatever extra ids it had. The model claims coverage of the catalog (`Valid`), never exclusivity.

## Model

| member | source | states |
|---|---|---|
| `Catalog.Ids` | script.js:15-25 | the catalog holds nine donut ids and no id appears twice |
| `Votes.Merge` | script.js:161-165 | the initialisation pass yields exactly the loaded ids plus the catalog ids; every loaded record is kept as it was; every added record is `{score 0, userVote null}` |
| `Votes.MergeCovers` | script.js:159-165 | after initialisation every catalog id has a record and every record loaded from storage is unchanged |
| `Votes.MergeEmpty` | script.js:159-165 | with empty storage, initialisation yields exactly the catalog ids, each at `{score 0, userVote null}` |
| `Votes.ReloadRestores` | script.js:159-165 | loading a table that already covers the catalog gives back that same table, so a saved table survives a reload |
| `Votes.Toggled` | script.js:185-201 | after a toggle the vote is never `'down'`; the favourite state flips; the score net of the user's own vote (up +1, none 0, down -1) is unchanged |
| `Votes.ToggleScoreChange` | script.js:189-201 | `'up'` becomes null with score -1; null becomes `'up'` with score +1; legacy `'down'` becomes `'up'` with score +2 |
| `Votes.ToggleTwice` | script.js:189-201 | two toggles from null or `'up'` restore the original score and vote |
| `Votes.ToggleTwiceFromDown` | script.js:194-199 | two toggles from legacy `'down'` end at score +1 with no vote, not at the start |
| `Votes.VoteStore.constructor` | script.js:155-159 | a new page has no table yet and sees the storage key as an earlier visit left it |
| `Votes.VoteStore.Init` | script.js:155-165 | fails exactly when the stored payload is unparseable; otherwise the table is the loaded one completed for the catalog, and every catalog id has a record; storage is not written |
| `Votes.VoteStore.Toggle` | script.js:185-206 | only `votes[id]` changes, to its toggled record; storage then holds the whole updated table; the button is active exactly when the new vote is `'up'`; catalog coverage is kept |
| `Votes.ReloadAfterToggle` | script.js:155-206 | the toggle changes only `votes[id]`, to its toggled record; a fresh page that then initialises from the saved table gets exactly that in-memory table |
| `MenuCarousel.PrevIndex` | script.js:137 | the previous button never goes below 0; from an item it moves exactly one step left, and it stays put only at the first item |
| `MenuCarousel.NextIndex` | script.js:142 | the next button never goes past the last item; from an item it moves exactly one step right, and it stays put only at the last item |
| `MenuCarousel.MovesStayOnTrack` | script.js:136-144 | from any item, previous and next both land on an item |
| `MenuCarousel.PrevNextInverse` | script.js:136-144 | away from the ends, previous and next undo each other |
| `MenuCarousel.ExactlyOneActive` | script.js:127-133 | with the cursor on an item, the set of active items is exactly that one item |
| `MenuCarousel.Carousel.constructor` | script.js:105-125 | renders the first three donuts with only the middle one active, and the cursor starts at 1 |
| `MenuCarousel.Carousel.Update` | script.js:127-134 | afterwards each item is active exactly when its index is the cursor; the cursor is unchanged |
| `MenuCarousel.Carousel.Prev` | script.js:136-139 | the cursor moves as `PrevIndex`, stays on an item, and only that item is active |
| `MenuCarousel.Carousel.Next` | script.js:141-144 | the cursor moves as `NextIndex`, stays on an item, and only that item is active |
| `MenuCarousel.Carousel.Select` | script.js:146-151 | the cursor jumps to the clicked item, and only that item is active |

## Left out

- The D3 hero animation (script.js:28-102). It is presentation only, with floating-point geometry, timers and an endless transition loop.
- Smooth scrolling (script.js:210-228). It consists only of DOM queries and `scrollIntoView` calls.
- DOM rendering. The card and carousel markup, the image sources and the score text node (script.js:202) are not modelled. The star button's highlight is modelled only as `Toggle`'s `active` result.
- Real `localStorage` and JSON. A payload that parses to JSON of another shape is not modelled. Examples are a number, or a record with a missing field, a non-integer score or an unknown `userVote` string. `Stored` covers only a missing or falsy payload, an unparseable one and a well-formed vote table.
- Object identity of records. The code mutates the record object `votes[id]` in place. The model replaces a value in a map, which is the same thing as long as no other reference to that record exists. None exists in the code.
- Votes.VoteStore.Toggle: requires `id in votes`. The code would throw a TypeError for an unknown id, but its handlers are only ever attached to catalog ids, and those have records after a successful `Init`.
- Cross-tab races on the shared storage key. This is concurrency between pages, and each page's handlers are single-threaded.
- MenuCarousel.Carousel.constructor: the track is fixed at the three items the code renders. With fewer than two items, the starting cursor 1 would not be on an item. The code never builds such a track, so the model does not consider it.
- Votes.Toggled: scores are unbounded integers, but the code's scores are JavaScript numbers (IEEE doubles). The exact steps of -1, +1 and +2 match the code only while |score| stays below 2^53. Every score the code itself writes stays in that range, so only a table seeded into storage from outside could differ.
- Votes.ToggleTwice: for the same reason this holds of the code only below 2^53. A stored `{score: 2^53, userVote: null}` toggled twice would end at 2^53 - 1, because the rounded `+1` is lost.
- Votes.ToggleScoreChange: exact only for |score| below 2^53, as for `Toggled`.
- MenuCarousel.Carousel.constructor: the code takes its items from a query for `.carousel-item` over the whole document (script.js:121), not from the three items it has just rendered. The model assumes the page contains no other `.carousel-item` element, so that the items are exactly those three donuts.
