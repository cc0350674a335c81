# Secret Santa web client: results table and player list

This project models the logic of the Secret Santa web page in
`web/static/index.js`. It covers two pieces of that file.

- `makeTable(players, result)` renders the draw as an HTML matrix:
  - a header row with an empty corner cell and one column per player;
  - one body row per player, starting with a row header;
  - the literal ` x ` on the diagonal, where a player would draw themselves;
  - every other data cell showing the next entry of the flat `result` list,
    read through a single cursor `count` that all rows share.
- `play()` builds the player list from the four name fields. A blank field
  among the first three becomes `Player i`. A blank fourth field is dropped.
  From the list's length it forms the request path
  `./play/{target}/{count}`, which the server routes as
  `/play/{target}/{num_players}`.

## Modules

- `Table` (`table.dfy`) holds the table renderer.
  - `MakeTable` keeps the source's nested loops as a `method`. `HeaderRow`
    is the whole header section, including its loop over the players.
    `BodyRow` is one pass of the outer loop over rows, and `BodyCell` one
    pass of the inner loop over cells.
  - The method is proved equal to the cell-by-cell specification `TableText`.
    Its cursor is proved to end at `N * (N - 1)`.
  - The cursor arithmetic is stated by `RowStart` and `CursorAt` and proved
    equal to the closed form `i * (N - 1) + c - (c > i ? 1 : 0)`.
  - Lemmas show that the off-diagonal cells read the indices
    `0 .. N(N-1) - 1` exactly once each, in strictly increasing row-major
    order.
  - Every tag is kept exactly as the client writes it. That includes data
    cells that open with `<td>` and close with `</th>`, and the extra `</tr>`
    before `</tbody>`.
  - Reading past the end of `result` interpolates `undefined`, as JavaScript
    does, so `MakeTable` has no precondition on the length of `result`.
    `FullResultShown` proves that a result of at least `N * (N - 1)` entries
    never shows `undefined`.
- `Play` (`play.dfy`) holds the player-list loop and the request path.
  - The JavaScript array is modelled with holes (`seq<Option<string>>`).
    `JsStore` is JavaScript's indexed assignment, which may extend the array
    past its end.
  - `BuildPlayers` runs the loop over slots 1 to 4 and is proved to leave an
    array without holes, holding `PlayerList(inputs)`.
  - Indexed assignment can leave holes in a JavaScript array in general.
    Here it cannot: slots 1 to 3 always store an entry, and slot 4 is the
    last. `BuildPlayers` proves that the array it leaves has no holes.
  - The request path has a partner, the route parser `ParsePlayPath`. It
    round-trips in both directions.
- `Decimal` (`decimal.dfy`) renders a whole number up to 2^53 as `${n}`
  does and parses it back. It proves both round trips.
- `Wrappers` (`wrappers.dfy`) defines `Option`.

## Model

| member | source | states |
|---|---|---|
| Table.MakeTable | web/static/index.js:1-30 | The returned text is exactly `TableText(players, result)`: the header, then each body row cell by cell, then the closing tags. The cursor ends at `Needed(N)`, which `NeededIsProduct` shows is `N * (N - 1)`. |
| Table.HeaderRow | web/static/index.js:2-10 | After the table tag comes the empty corner `<th scope="col"></th>`, then one `<th scope="col">name</th>` per player in list order, then ` </tr></thead><tbody>`. |
| Table.BodyRow | web/static/index.js:13-26 | Row i is ` <tr>`, then its N + 1 cells (row header then N data cells), then ` </tr>`. It advances the cursor from the start of row i to the start of row i + 1. |
| Table.BodyCell | web/static/index.js:15-24 | Cell 0 is the row header `players[i]`. Cell i + 1 is the ` x ` marker and leaves the cursor alone. Any other cell shows the value under the cursor and advances it by exactly one. |
| Table.CursorStep | web/static/index.js:18-22 | Passing a data column advances the cursor by 1, or by 0 on the diagonal. |
| Table.CursorAtRowEnd | web/static/index.js:14-25 | After the last column of row i the cursor is where row i + 1 starts. |
| Table.RowStartIsProduct | web/static/index.js:11-27 | Row i starts reading at `i * (N - 1)`, so after row i the cursor is `(i + 1) * (N - 1)`. |
| Table.CursorClosedForm | web/static/index.js:18-22 | The cell in row i, data column c, reads index `i * (N - 1) + c`, minus 1 when c is past the diagonal. |
| Table.NeededIsProduct | web/static/index.js:11-27 | The whole table reads `N * (N - 1)` entries. |
| Table.RowStartMono | web/static/index.js:12-27 | A later row starts at least one full row (N - 1 entries) further on. |
| Table.CursorInRange | web/static/index.js:20-22 | Every off-diagonal cell reads an index below `N * (N - 1)`. |
| Table.CursorRowMajor | web/static/index.js:12-27 | Read indices strictly increase in row-major order over off-diagonal cells, so no entry is read twice. |
| Table.RowReading | web/static/index.js:12-27 | For an index below `N * (N - 1)`, finds the row whose data cells cover it. |
| Table.CellReading | web/static/index.js:12-27 | Every index below `N * (N - 1)` is read by a specific off-diagonal cell (the row and data column are returned). |
| Table.CursorOnto | web/static/index.js:12-27 | Every index below `N * (N - 1)` is read by some off-diagonal cell. Together with `CursorRowMajor`, the cells match the indices one to one. |
| Table.At | web/static/index.js:21 | `${result[count]}` reads an index past the end of `result` as the text `undefined`, so the table is defined for a result of any length. |
| Table.AtIndex | web/static/index.js:21 | `${result[count]}` is `result[count]` inside the list and `undefined` past its end. |
| Table.RowValuesSlice | web/static/index.js:14-25 | The data cells of a row show consecutive entries, starting where the row's cursor starts. |
| Table.TableValuesSlice | web/static/index.js:12-27 | Read row-major, the data cells of the first k rows show entries 0 to `RowStart(N, k) - 1`, in order. |
| Table.SliceIsPrefix | web/static/index.js:21 | Indices inside the list interpolate the entries themselves. |
| Table.FullResultShown | web/static/index.js:12-27 | With at least `N * (N - 1)` results, the data cells show exactly `result[..N * (N - 1)]`, in order, and never `undefined`. |
| Table.DataCellValue | web/static/index.js:18-22 | With a full-size result, off-diagonal cell j of row i shows `result[i * (N - 1) + c - (c > i ? 1 : 0)]`, where c = j - 1. |
| Table.TableFrame | web/static/index.js:2-28 | The output starts with `<table class="table"> <thead><tr> <th scope="col"></th>` and ends with ` </tr></tbody></table>`. |
| Table.RowsExtends | web/static/index.js:12-27 | Appending body rows never changes text already written. |
| Table.TwoPlayerExample | web/static/index.js:1-30 | Players A and B with results r1 and r2: row A is `A, x, r1` and row B is `B, r2, x`. |
| Decimal.NatToString | web/static/index.js:50 | `${n}` for a whole number up to 2^53 is a non-empty run of digits with no leading zero; it is `"0"` only for 0. |
| Decimal.ParseNatToString | web/static/index.js:50 | Parsing the rendered count gives back the count. |
| Decimal.NatToStringParse | host.py:27-28 | A canonical numeral is the rendering of the number it denotes. |
| Decimal.NatToStringInjective | web/static/index.js:50 | Different counts give different path segments. |
| Play.JsStore | web/static/index.js:41-43 | `a[k] = v` sets index k. It extends the array to k + 1 when k is past the end, leaving holes between. All other indices are unchanged. |
| Play.DefaultName | web/static/index.js:41 | `Player ${i}` begins with `Player ` and is longer than it. |
| Play.SlotName | web/static/index.js:38-44 | A stored slot is never blank. A non-blank field is stored unchanged. |
| Play.BuildPlayers | web/static/index.js:36-45 | The loop leaves an array with no holes whose entries are exactly `PlayerList(inputs)`. |
| Play.PlayerListShape | web/static/index.js:36-45 | The list has 3 entries when field 4 is blank and 4 otherwise. Entry k is field k + 1's value when that is non-blank and `Player k+1` when it is blank. No entry is blank. |
| Play.SecondPlayerOnlyExample | web/static/index.js:36-45 | Fields `"", "B", "", ""` give `["Player 1", "B", "Player 3"]`. |
| Play.Play | web/static/index.js:36-50 | `play()` builds that list and requests `./play/{target}/3` when field 4 is blank and `./play/{target}/4` otherwise. |
| Play.PlayPath | web/static/index.js:50 | `./play/${target}/${count}` starts with `./play/` and ends with `/` and the count's canonical numeral, which reads back as the count. `ParsePlayPath` inverts the whole path. |
| Play.ParsePlayPath | host.py:27-28 | The route `/play/{target}/{num_players}` accepts only paths under `./play/` whose target is one non-empty segment without `/`. It then reads a canonical decimal player count. |
| Play.CutSegment | host.py:27 | Splits a path at its first `/` into a segment without `/` and the rest; it fails only when there is no `/`. |
| Play.SegmentUnique | host.py:27 | A path segment followed by `/` can be split off in only one way. |
| Play.PlayPathRoundTrip | web/static/index.js:50 | For a non-empty target without `/`, the route reads back the target and the player count from the client's path. |
| Play.ParsePlayPathSound | host.py:27-28 | Every path the route accepts is exactly the client's path for the target and count it reads. |

## Left out

- The request itself is left out: `fetch`, the promise chain, the status check, and JSON or text body parsing (web/static/index.js:50-74). These are network I/O and asynchronous continuations.
- DOM access is left out. This covers reading the fields and the selected option, writing `innerHTML`, and `setMessage`. The field values and the target are parameters of `Play` and `BuildPlayers`, and the rendered table is a return value.
- `console.log` calls are left out because they are logging only.
- Result values are taken as the text the template literal interpolates. How the server's values are turned into text is not modelled.
- HTML escaping is left out because the client does none. Names and values are inserted verbatim, as the model does.
- host.py is left out except the shape of its `/play/{target}/{num_players}` route. That includes the dispatch on `target` and the calls to the quantum simulator and cloud service.
- The Secret Santa draw itself is not part of this model; it runs on the server.
- Decimal.NatToString: it matches JavaScript's `${n}` only for whole numbers up to 2^53. JavaScript numbers are doubles, so `${2**60}` prints `1152921504606847000`, where `NatToString` gives `1152921504606846976`, and `${1e21}` prints `1e+21`. The client renders only 1 to 4 (the slot numbers and the player count, which `PlayerListShape` bounds), so the model is unaffected.
- Play.ParsePlayPath: it accepts only canonical numerals for the player count (no sign, no leading zero), while the server's integer parameter also takes forms such as `03` and `+3`. The path is read as plain text. Resolving the relative path `./play/...` against the page's location is not modelled. Neither is the URL handling a browser and server apply: splitting off `?…` and `#…`, percent-decoding `%xx`, and removing `.` and `..` segments. For targets such as `a?b`, `%41` or `..`, the real server would not read the target back as `PlayPathRoundTrip` states. The only targets the server acts on are `local`, `simulator` and `hardware` (host.py:29-33), and none of them contains these characters.
- Table.HeadCells and Table.HeaderRow take the player list as a sequence without holes. The source's header loop `for (player in players)` visits only the indices present, while the body loops run to `players.length`; for an array with holes the two would differ. That case does not arise, because `Play.BuildPlayers` proves that the list it builds has no holes.
