# cdec-cli station metadata extraction, modelled in Dafny

`cdec-cli` is a command-line client for the California Data Exchange Center
(CDEC). Its `stations` command fetches a station's details page. It parses
the page into an HTML node tree and looks for tables. No table means the
station does not exist. Otherwise the first table is decoded into a
key/value map. The decoder uses one formatting convention: a cell whose
first child is `<b>` names a key, and every other cell is a value for the
key named last.

This project models that logic as pure functions over an immutable node
tree and proves its properties:

- `html.dfy` (`Html`): the node tree of golang.org/x/net/html. A node is
  `Node(kind, data, children)`. `data` is the tag name of an element node
  and the text of a text node.
- `table_locator.dfy` (`TableLocator`): `findTables`, the pre-order walk
  that collects `table` elements. The program returns pointers into the
  tree. The model returns subtrees and recovers their identity through
  child-index paths (`TablePaths`). Document order on paths is `DocBefore`:
  an ancestor comes before its descendants, and an earlier sibling's
  subtree comes before a later one's.
- `metadata_decoder.dfy` (`MetadataDecoder`): `parseHTMLMetadataTable`.
  `FirstBodyFrom` is the search for the first direct `tbody` child.
  `ClassifyCell` reads one cell. `Apply` is the two-state transition over
  the pair (current key, map). `DecodeCells` and `DecodeRows` are the left
  folds over cells and rows. Next to them sits a reference definition:
  classify every cell first (`ClassifyAll`), then fold (`Run`). `Describes`
  and `Decodes` give a declarative description in terms of `KeyInForce`,
  the key in force at each cell.
- `station_report.dfy` (`StationReport`): the code in `main` that runs
  after the page is parsed. It covers the "not found" branch, picking the
  first table, the column widths and the separator rule.
- `scenarios.dfy` (`Scenarios`): concrete tables and documents, each with
  its outcome.

The program dereferences a missing node in three places and panics: a
table with no `tbody` child, a cell with no child, and a `<b>` with no
child. The model returns `Err(NoBody)`, `Err(EmptyCell)` or `Err(EmptyBold)`
for these. The tool's design notes say decoding should report a
"malformed table" condition instead of crashing. The code crashes instead.
The model follows the code: decoding stops at the first such point and
produces no map. It also keeps the three cases apart, whereas the design notes
name only two of them.

The model follows the code in three more places where the design notes
say otherwise:
- Only the tag `b` marks a key. There is no `strong`.
- A value cell stores the `Data` of its first child. When that child is an
  element, this is its tag name and not its text.
- The result is a Go `map`, which is unordered. It is modelled as a
  `map<string, string>`, not as an ordered mapping.

## Model

| member | source | states |
|---|---|---|
| TableLocator.FindTables | cmd/cdec-cli/main.go:40-55 | Every node collected is an element tagged `table`. When the root is a table, it is the first node collected, because a node is appended before its children are visited. |
| TableLocator.FindTablesFrom | cmd/cdec-cli/main.go:48-50 | The loop over the children, taken in sibling order, contributes only table elements. |
| TableLocator.FindTablesExact | cmd/cdec-cli/main.go:44-53 | The j-th result is the node at the j-th path of `TablePaths`, and that node is a table. These paths are in document order, so no node is reported twice. The path of every table in the tree is among them. So the result lists exactly the tables of the tree, each once, and its length is the number of tables. |
| TableLocator.FindTablesEmptyIff | cmd/cdec-cli/main.go:40-55 | The result is empty when no node of the tree is a table, and non-empty when some node is. |
| TableLocator.FirstTableFirstInDocument | cmd/cdec-cli/main.go:44-53 | The first result is the table that comes before every other table of the tree in document order. |
| TableLocator.AncestorFirst | cmd/cdec-cli/main.go:45-50 | An ancestor's position comes before each of its descendants' positions in document order. So a table precedes the tables nested in it. |
| TableLocator.TablePathsOrdered | cmd/cdec-cli/main.go:45-50 | The positions of the collected tables are strictly increasing in document order: the node first, then each child's subtree in sibling order. |
| TableLocator.TablePathsComplete | cmd/cdec-cli/main.go:44-50 | Every valid position that holds a table element is among the positions collected. |
| MetadataDecoder.FirstBodyFrom | cmd/cdec-cli/main.go:61-66 | The scan stops at a `tbody` element child, and no earlier child scanned is one. It finds nothing only when no child from the start position on is a `tbody` element. |
| MetadataDecoder.FirstBodyFromFinds | cmd/cdec-cli/main.go:61-66 | A scan that starts at or before the first `tbody` child stops exactly at that child. |
| MetadataDecoder.ClassifyCell | cmd/cdec-cli/main.go:70-73 | A cell with no child is the `EmptyCell` error. A first child `<b>` with no child is the `EmptyBold` error. A first child `<b>` with a child makes a key cell, keyed by that child's `data`. Any other first child makes a value cell holding its `data`. |
| MetadataDecoder.ElementValueIsTagName | cmd/cdec-cli/main.go:73 | A value cell whose first child is an element other than `<b>` yields that element's tag name. |
| MetadataDecoder.Apply | cmd/cdec-cli/main.go:70-74 | A key cell replaces the current key and leaves the map unchanged. A value cell keeps the key and adds exactly the current key to the domain. It maps that key to the cell's value, overwriting any earlier value, and leaves every other entry unchanged. |
| MetadataDecoder.ClassifyAll | cmd/cdec-cli/main.go:69-75 | The cells all classify exactly when the result is Ok, and then the result is the classification of each cell in order. Otherwise the error is that of the first cell that does not classify. |
| MetadataDecoder.RunDescribes | cmd/cdec-cli/main.go:67-76 | This holds from any start state. The final key is the one named by the last key cell, or the start key when there is none. A key is in the final map exactly when it was already there or some value cell was read while it was in force. The key then holds the value of the last such cell. Keys with no such cell keep their earlier values. |
| MetadataDecoder.LastValueExists | cmd/cdec-cli/main.go:72-73 | Any key that received a value has a last value cell read under it. This is the cell whose value stays in the map. |
| MetadataDecoder.DecodesUnique | cmd/cdec-cli/main.go:57-79 | The bold-key description fixes the decoded map completely: two maps that both satisfy it are equal. |
| MetadataDecoder.DecodeRowsFlatten | cmd/cdec-cli/main.go:67-69 | The current key is not reset between rows. Decoding the rows one after another gives the same result as decoding the cells of all rows as one sequence. |
| MetadataDecoder.DecodeCellsAppend | cmd/cdec-cli/main.go:69-75 | Decoding `a + b` is decoding `a` and then `b` from the state it reached. An error in `a` stops the decode before `b`. |
| MetadataDecoder.DecodeCellsClassifyThenRun | cmd/cdec-cli/main.go:69-75 | The interleaved decode equals the reference: classify all cells first, then run the transitions. The first malformed cell decides the error in both. |
| MetadataDecoder.ParseMetadataTableNoBody | cmd/cdec-cli/main.go:60-67 | Decoding fails for want of a body exactly when no direct child of the table is a `tbody` element. Deeper descendants do not count. |
| MetadataDecoder.ParseMetadataTableSpec | cmd/cdec-cli/main.go:57-79 | Take the first `tbody` child and every child of every row of it. Decoding succeeds exactly when all those cells classify. If one does not, the error is the first such cell's. On success the map is the one the cells describe, starting from the empty key. |
| MetadataDecoder.LaterChildrenIgnored | cmd/cdec-cli/main.go:61-66 | Only the first `tbody` child is read. Appending children after it, including another `tbody`, does not change the outcome. Neither does changing the table's own kind or tag. |
| MetadataDecoder.OnlyChildrenMatter | cmd/cdec-cli/main.go:67-70 | Rows and cells are read only through their children. Every child of a row is a cell, whatever its tag, and a cell's own tag is never read. |
| MetadataDecoder.SameCellContents | cmd/cdec-cli/main.go:69-70 | Two cell sequences whose cells have the same children decode the same way. |
| StationReport.LookupStation | cmd/cdec-cli/main.go:190-195 | "Not found" is reported exactly when no table was found. A malformed first table is a separate error. |
| StationReport.LookupStationSpec | cmd/cdec-cli/main.go:190-195 | "Not found" is reported exactly when no node of the document is a table. Otherwise the outcome is the decode of the table that comes first in document order. |
| StationReport.ColumnWidths | cmd/cdec-cli/main.go:196-205 | Every key fits within `keylen` and every value within `vallen`. Each width is reached by some entry, or is 0 when the map is empty. The entries may be visited in any order. |
| StationReport.Repeat | cmd/cdec-cli/main.go:209 | It gives `n` copies of the character. |
| StationReport.Separator | cmd/cdec-cli/main.go:209 | The rule under each row is `keylen + vallen + 2` dashes. |
| Scenarios.TwoRows | cmd/cdec-cli/main.go:67-76 | Two rows, each with a key cell and a value cell, decode to the two entries. |
| Scenarios.LastValueWins | cmd/cdec-cli/main.go:72-73 | Two values after one key leave the second one in the map. |
| Scenarios.ValueBeforeKeyAndKeyAcrossRows | cmd/cdec-cli/main.go:59-73 | A value before any key is stored under the empty key. A key named in one row applies to a value in the next row. |
| Scenarios.DanglingKey | cmd/cdec-cli/main.go:70-73 | A key cell that no value cell follows adds no entry. |
| Scenarios.MalformedTables | cmd/cdec-cli/main.go:67-71 | A missing `tbody`, an empty cell and an empty `<b>` each stop the decode with their own error. |
| Scenarios.NoTableNotFound | cmd/cdec-cli/main.go:190-194 | A page with no table reports the station as not found. |
| Scenarios.NestedTableAfterAncestor | cmd/cdec-cli/main.go:44-50 | A table nested in another table is listed after it. |

## Left out

- Command dispatch, usage text and flag parsing with the `flag` package (main.go:81-126, 158-165, 216) are library plumbing and are not modelled.
- The `query` command (main.go:113-157) is not modelled. It builds a URL, issues an HTTP GET and prints the body, with no logic of its own.
- URL construction with `net/url` (main.go:128-141, 167-177) is not modelled. Its escaping rules belong to the library.
- The HTTP request, reading the body and `html.Parse` (main.go:179-189) are I/O and an external HTML5 parser. The model takes the parsed tree as input.
- The endpoint table `cdecUrls` (main.go:16-20) is static configuration and is not modelled.
- Printing is not modelled: the ASCII art, the "not found" message and its exit status 1, the `%-*s%*s` padding of each row, and the two trailing links (main.go:83-90, 192-193, 208, 211-212). The order in which Go iterates a map when printing is unspecified. The model keeps the map and its column widths, not the printed text.
- The program panics at its three nil dereferences. Since a Dafny function cannot crash, the model returns an `Err` value in each case.
- Node identity: the program returns pointers, and the model returns subtree values. Two structurally equal tables are therefore distinguished by their paths (`TablePaths`), not by the values returned.
- StationReport.ColumnWidths: lengths are counted in characters. Go's `len` counts UTF-8 bytes, so the two agree only on ASCII keys and values. Strings here are sequences of characters with no encoding.
