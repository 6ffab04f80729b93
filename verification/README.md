# mdtools core in Dafny

A model of the core of mdtools. mdtools turns Markdown into a JSON-like tree of nodes. It cuts that tree into text chunks within a byte budget, and it can write the parsed Markdown back out.

The model covers six parts:

- **The structural chunker** `ChunkJSONMarkdown` (module `Chunking`). Tables and images have their own branches. Every other node adds its rendering to an accumulator. Its children are chunked recursively with a smaller budget, and an overflowing accumulator is emitted and reset to the parent section's text.
- **The node model** (module `Nodes`):
  - every node kind's `ToMarkdown`;
  - the `:::json_table` fence;
  - the greedy row packer behind `TableNode.ChunkTable`, with its first-fragment and later-fragment limits.
- **The tree builder** of `libs/mdtojson` (modules `HeadingStacks` and `TreeBuilder`):
  - the heading stack (`handleHeader`, `finalizeHeaders`, `GetNodes`) that rebuilds heading nesting from the flat stream;
  - the append rule of `RenderNode`;
  - the image registry (`addImage`, `GetImageURLs`);
  - the `extractContent` filters and list handling;
  - the table row shaping: header-indexed cells, keyed or positional mode, and removal of the empty entry.
- **The ordered map** and its `KVIter` traversal (module `OrderedMaps`).
- **The legacy builder** in the repository root's `mdtojson.go` (module `LegacyBuilder`). It shares the heading stack, merges content with `appendContent`, and indexes cells by the row's current size.
- **The Markdown re-renderer** (module `Renderer`). This is the callback the parser's walk calls on entering and leaving every node. It keeps a block-quote prefix, one counter per open list, an indentation depth and the table alignment. `Renderer.Step` is the callback as written. `Renderer.QuotedStep` is the same callback with the link and image close corrected (see Findings).

The parser's tree is the datatype `Ast.ANode`. Each builder's pre-order `Walk` is written out as recursive functions over a node and its siblings. The renderer's walk is a sequence of events, one per callback call. A Go panic becomes `Renderer.Panic`.

Foreign calls are parameters of the model:

- JSON marshalling of rows and tables;
- `%q` quoting of keys;
- `ImageNode.ToReference`, which the chunker calls but which is not part of this model.

Strings are `seq<char>`, and `|s|` stands for Go's byte length.

Two places where the code does something other than what one would expect:

- `libs/mdtojson/mdtojson.go:76` calls `NewCodeBlockNode(codeContent, language)`, although `libs/mdtojson/nodes.go:350` declares `NewCodeBlockNode(language, code)`. Content extraction at `libs/mdtojson/mdtojson.go:231` passes them the right way round. The model keeps both call sites as written: `TreeBuilder.CodeBlockArgumentsSwapped` shows a top-level code block storing its code as the language.
- The legacy `collectRowCells` looks up the next header by the row's current size. A repeated header therefore stops the row from growing: the later cells overwrite the repeated key, and the last header never receives a cell. `LegacyBuilder.DuplicateHeaderDiverges` exhibits this. With distinct headers, `LegacyBuilder.LegacyRowMatchesLibrary` shows it agrees with the library's rule.

## Model

| member | source | states |
|---|---|---|
| Chunking.ChunkJSONMarkdown | libs/mdchunk/chunking.go:51-55 | An empty node sequence yields no chunks. |
| Chunking.ChunkLoop | libs/mdchunk/chunking.go:55-133 | The loop over sibling nodes only ever appends chunks; earlier chunks stay a prefix. |
| Chunking.ChunkLoopSegments | libs/mdchunk/chunking.go:55-133 | The loop's run over siblings splits into one piece per sibling, from the state before it to the state after it. A table or image piece emits chunks that, followed by the new accumulator, spell the old accumulator followed by its fragments or reference. Any other piece spells the old accumulator, the node's section, its children's chunks and, for a paragraph, `"\n\n"`, once the re-anchored sections are stripped. |
| Chunking.ChunkStepTableCase | libs/mdchunk/chunking.go:56-67 | A node tagged "table" whose cast succeeds is split with first-fragment limit `charLimit - |acc|` and later limit `charLimit`. If the cast fails, the state is unchanged. |
| Chunking.FailedCastSkipped | libs/mdchunk/chunking.go:58-88 | A node tagged "table" or "image" whose cast fails leaves both the chunks and the accumulator as they were. |
| Chunking.TableStepSpec | libs/mdchunk/chunking.go:64-81 | With zero fragments the state is unchanged. Otherwise the first fragment is prefixed by the accumulator, all but the last are emitted in order, and the last becomes the accumulator, which is emitted and emptied if it is over the limit. Emitted chunks plus the new accumulator spell the old accumulator plus all fragments. |
| Chunking.ImageStep | libs/mdchunk/chunking.go:90-97 | The image's reference text is appended to the accumulator. The result is emitted and the accumulator emptied exactly when it exceeds the limit. Either way, the new chunks followed by the new accumulator spell the old accumulator followed by the reference. |
| Chunking.ChunkStepSectionCase | libs/mdchunk/chunking.go:102-109 | Any other node adds its rendering to the accumulator. Its children are chunked with budget `charLimit - |section|`. |
| Chunking.AppendFromReassembles | libs/mdchunk/chunking.go:111-119 | The child loop drops nothing. After stripping the re-anchored section from each reset chunk, the emitted chunks and accumulator spell what they spelled before, followed by every child chunk in order. |
| Chunking.AppendFromBudget | libs/mdchunk/chunking.go:111-119 | Every chunk the child loop emits is within the limit, or is the accumulator it started from, or is the section followed by exactly one child chunk. The final accumulator satisfies the same. |
| Chunking.CloseSectionReassembles | libs/mdchunk/chunking.go:122-132 | A paragraph gets `"\n\n"` after its children. The end-of-node flush loses nothing and leaves the accumulator equal to the section or within the limit. |
| Chunking.SectionStepReassembles | libs/mdchunk/chunking.go:102-132 | The whole generic branch spells `acc + section + children's chunks (+ "\n\n")` and leaves the accumulator equal to the section or within the limit. |
| Chunking.LeftoverEmitted | libs/mdchunk/chunking.go:135-140 | A non-empty leftover accumulator is emitted as the last chunk, after everything the loop emitted. An empty one is not. |
| Chunking.SectionReassembly | libs/mdchunk/chunking.go:101-140 | Chunking one node either yields nothing, when its section and content are empty, or yields chunks that spell `section + children's chunks (+ "\n\n")` once the re-anchored sections are stripped. |
| Chunking.TextLeaf | libs/mdchunk/chunking.go:101-140 | A non-empty text leaf comes out as exactly one chunk, its text, whatever the budget. |
| Chunking.EmptyChunkAsWritten | libs/mdchunk/chunking.go:111-117 | As written, a paragraph whose only child is over budget comes out as an empty chunk followed by the child's text and `"\n\n"`. |
| Chunking.SmallBudgetSingleChunk | libs/mdchunk/chunking.go:111-117 | When only a non-empty accumulator is flushed, the same paragraph comes out as one chunk. |
| Chunking.BudgetExceededAsWritten | libs/mdchunk/chunking.go:111-132 | As written, text "xxxx" followed by heading A at charLimit 5 gives `["xxxx# A\n\n", "# A\n\n"]`. The first chunk is 9 bytes, over the limit: the end-of-node flush emits the carried accumulator together with the new section. |
| Chunking.NoEmptyChunk | libs/mdchunk/chunking.go:51-141 | When only a non-empty accumulator is flushed, no input yields an empty chunk. |
| Nodes.MarkdownLength | libs/mdtojson/nodes.go:123-399 | Byte lengths of the renderings. A heading is `max(level, 0) + |title| + 3`. Text is its text. A link is `|title| + |url| + 6`. An image is `|url| + 11`. Code is its code plus two backticks. A code block adds 10 fence bytes. A table adds 20 fence bytes. Paragraph and base nodes render as "". |
| Nodes.HeadingRoundTrip | libs/mdtojson/nodes.go:152-158 | A heading's rendering (`#` × level, a space, the title, `"\n\n"`) reads back as its level and title. |
| Strings.Repeat | libs/mdtojson/nodes.go:153-156 | The `#` loop writes `max(n, 0)` copies of its string, so its length is `max(n, 0) × |s|`. |
| Nodes.FenceRoundTrip | libs/mdtojson/nodes.go:215-217 | `toJSONTable` is invertible. A string unfences to a body exactly when it is that body's fence. |
| Nodes.TableParts | libs/mdtojson/nodes.go:225-251 | Each row's part ends with `",\n"`. Positional data gives one part per row. Keyed data gives one per ordered-map entry. Data of neither shape gives none. |
| Nodes.KeyedParts | libs/mdtojson/nodes.go:237-250 | Keyed entries whose value is not an ordered map are skipped. When all are rows, part j is `quote(key) + ": " + row + ",\n"`. |
| Nodes.PackConservation | libs/mdtojson/nodes.go:227-260 | Row conservation: every part lands in exactly one packed group, and the groups read in order give back the parts in order. |
| Nodes.PackFit | libs/mdtojson/nodes.go:223-235 | The first group fits `firstChunkLimit` and every later one fits `nextChunksLimit`, unless it holds a single part. |
| Nodes.PackGreedy | libs/mdtojson/nodes.go:230-235 | Every group after the first starts with the part that did not fit in the group before it. |
| Nodes.PackFirstGroup | libs/mdtojson/nodes.go:230-234 | No parts give no groups. The first group is empty exactly when the first part alone exceeds the first limit. |
| Nodes.ChunkTable | libs/mdtojson/nodes.go:220-262 | One fenced fragment per packed group: `"[\n" … "]"` for positional data, `"{\n" … "}"` for keyed data. Data of neither shape gives no fragments. There are zero fragments exactly when there are no parts. Every fragment unfences to its bracketed group, and the groups flatten to the rows' parts in order. |
| OrderedMaps.KVIter | libs/ordered_map/iterator.go:6-16 | The visited pairs are `(key, m[key])` in list order. Visiting stops right after the first pair the callback rejects, and never earlier. If the callback accepts everything, every entry is visited. |
| OrderedMaps.Entries | libs/ordered_map/iterator.go:8-10 | The traversal of a callback that never stops: one `(key, m[key])` pair per list key, front to back. |
| OrderedMaps.Set | libs/mdtojson/mdtojson.go:357 | Assumed semantics of `Set`: the value is stored, an existing key keeps its place, and a new key is appended. Nothing else changes. |
| OrderedMaps.Delete | libs/mdtojson/mdtojson.go:342 | Assumed semantics of `Delete`: the key leaves the list and the map. The other keys keep their order and values. |
| HeadingStacks.PopLoopPopsRun | libs/mdtojson/mdtojson.go:158-169 | The pop loop pops exactly the maximal top run of headings with level at least L and folds each into the one below. |
| HeadingStacks.FinalizeMatchesSpec | libs/mdtojson/mdtojson.go:153-182 | `finalizeHeaders` agrees on every state with a reference definition: pop the maximal run and collapse it into the heading below, or onto the root when the stack empties. |
| HeadingStacks.FinishedOnlyAtBottom | libs/mdtojson/mdtojson.go:162-168 | Only the bottom heading ever reaches `finishedHeaders`, and it does so exactly when the stack empties. |
| HeadingStacks.FinalizeBeforeHeading | libs/mdtojson/mdtojson.go:153-155 | Before any heading has been opened, `finalizeHeaders` changes nothing. |
| HeadingStacks.FinalizeShape | libs/mdtojson/mdtojson.go:158-180 | Finalizing keeps the surviving levels strictly increasing and below L. The root is unchanged, or gains exactly the collapsed stack. |
| HeadingStacks.FinalizeZeroEmpties | libs/mdtojson/mdtojson.go:128-134 | `finalizeHeaders(0)` empties the stack. |
| HeadingStacks.HandleHeader | libs/mdtojson/mdtojson.go:137-150 | The new heading is the top of the stack and the current header. Levels stay strictly increasing. The root is unchanged, or gains the whole collapsed stack when the new heading closes it. |
| HeadingStacks.HandleHeaderNests | libs/mdtojson/mdtojson.go:143-149 | A deeper heading, or the first one, closes nothing and is pushed. |
| HeadingStacks.HandleHeaderClosesAll | libs/mdtojson/mdtojson.go:153-180 | A heading at or above the bottom heading's level closes the whole stack into one node on the root. |
| HeadingStacks.Append | libs/mdtojson/mdtojson.go:94-100 | Content goes to the end of the current header's children when a heading is open, and to the root otherwise. Nothing else changes. |
| HeadingStacks.GetNodesClosesAll | libs/mdtojson/mdtojson.go:128-134 | `GetNodes` with headings open adds the stack, collapsed into its bottom heading, as the last root node. |
| HeadingStacks.GetNodesIdempotent | libs/mdtojson/mdtojson.go:128-134 | A second `GetNodes` returns the same nodes and state. |
| TreeBuilder.HeadingNestingExample | libs/mdtojson/mdtojson.go:94-182 | H1 A, text1, H2 B, text2, H1 C, text3 gives the root [A, C], with A = [text1, B], B = [text2] and C = [text3]. |
| TreeBuilder.ContentBeforeHeadingGoesToRoot | libs/mdtojson/mdtojson.go:94-99 | Before any heading, content is appended to the root in walk order. |
| TreeBuilder.Emit | libs/mdtojson/mdtojson.go:94-100 | Appending content keeps the builder well formed: a heading stack of increasing levels and a duplicate-free image registry. |
| TreeBuilder.RenderNode | libs/mdtojson/mdtojson.go:31-109 | Rendering a subtree keeps the heading stack well formed and only grows the image registry. |
| TreeBuilder.GetNodes | libs/mdtojson/mdtojson.go:128-134 | `GetNodes` leaves no open heading and returns the root. |
| TreeBuilder.GetNodesTwice | libs/mdtojson/mdtojson.go:128-134 | A second `GetNodes` returns the same nodes. |
| TreeBuilder.CodeBlockArgumentsSwapped | libs/mdtojson/mdtojson.go:73-76 | A top-level code block stores its code as the language and its info string as the code. Content extraction stores them the right way round. |
| TreeBuilder.FirstIndex | libs/mdtojson/mdtojson.go:400-404 | The registry search finds the first entry with the same URL, or reports none. |
| TreeBuilder.AddImage | libs/mdtojson/mdtojson.go:398-409 | The result is the 1-based index of the first entry with the same URL. Otherwise the URL is appended and the new length returned. The registry stays duplicate-free and only grows. |
| TreeBuilder.GetImageURLs | libs/mdtojson/mdtojson.go:412-418 | The result maps exactly `1..|registry|`, with `i + 1` mapped to the URL of entry i. |
| TreeBuilder.AddImageResolves | libs/mdtojson/mdtojson.go:398-418 | The reference `addImage` returns resolves to the image's URL. Adding the same URL again returns the same reference and leaves the registry as it is. |
| TreeBuilder.Content | libs/mdtojson/mdtojson.go:197-244 | Content extraction only grows the registry, and every image it yields resolves in it. Every node it yields is a leaf. Outside block quotes, no text node is empty. |
| TreeBuilder.ExtractContentFilters | libs/mdtojson/mdtojson.go:203-207 | A subtree without block quotes never yields a text node with empty content. |
| TreeBuilder.HandleList | libs/mdtojson/mdtojson.go:254-268 | A list node holds one list item per item reached without passing through another item: its number of children is exactly the count of such items. |
| TreeBuilder.ExtractListItem | libs/mdtojson/mdtojson.go:271-293 | A list item starts with the paragraph of the item's whole content. It then holds one node per nested list reached (without entering it) and one paragraph per nested item reached, so its size is one plus that count. |
| TreeBuilder.CollectRowCells | libs/mdtojson/mdtojson.go:351-364 | Each of the first `min(|headers|, |cells|)` headers is a key. Cells beyond the headers are dropped, so the row has at most `|headers|` keys. |
| TreeBuilder.CollectRowCellsDomain | libs/mdtojson/mdtojson.go:355-359 | The row's keys are exactly the first `min(|headers|, |cells|)` headers. |
| TreeBuilder.CollectRowCellsDistinct | libs/mdtojson/mdtojson.go:351-364 | With distinct headers, the row lists those headers in order, each holding the cell at its own position. |
| TreeBuilder.RowPrefixValueAt | libs/mdtojson/mdtojson.go:355-359 | A repeated header holds the cell of its last position. |
| TreeBuilder.DropEmptyEntry | libs/mdtojson/mdtojson.go:339-345 | The entry under the empty key is removed exactly when its value is empty too. Every other key, value and position stays. |
| TreeBuilder.RegularRows | libs/mdtojson/mdtojson.go:329-348 | One cleaned row per table row, in order. |
| TreeBuilder.KeyedRow | libs/mdtojson/mdtojson.go:380-395 | The key is the first cell's text, and the `headers[0]` entry is deleted. The other keys are exactly those of the positional row. A row without cells gives the empty key and an empty row. |
| TreeBuilder.KeyedRowsStep | libs/mdtojson/mdtojson.go:367-377 | Each row is set under its key, in row order. |
| TreeBuilder.KeyedRowsKeys | libs/mdtojson/mdtojson.go:367-377 | The keyed table holds exactly the rows' keys. |
| TreeBuilder.KeyedRowsLastWins | libs/mdtojson/mdtojson.go:370-373 | The value under a key is the last row with that key. |
| TreeBuilder.BodyData | libs/mdtojson/mdtojson.go:304-309 | A table body is keyed iff `headers[0] == ""`, and positional otherwise. |
| TreeBuilder.HandleTable | libs/mdtojson/mdtojson.go:296-314 | `handleTable` yields a table node without children. |
| TreeBuilder.HandleTableHeadBody | libs/mdtojson/mdtojson.go:296-314 | For a head followed by a body, the table's data is the body shaped by the head's cell texts. |
| LegacyBuilder.AppendContent | mdtojson.go:248-257 | A slice grows by x. A single node becomes the pair `[node, x]`. Anything else is replaced by x. |
| LegacyBuilder.AppendEachToList | mdtojson.go:248-251 | Content that starts as a slice keeps every appended value, in order. |
| LegacyBuilder.AppendEachReplaces | mdtojson.go:254-255 | Content that is neither a slice nor a node is lost on the first append. |
| LegacyBuilder.HandleHeaderKeepsLists | mdtojson.go:195-245 | Headings start with an empty slice, so every open heading's content stays a slice. |
| LegacyBuilder.AppendGrowsList | mdtojson.go:198-251 | Content appended to the current heading grows its slice by exactly that node. |
| LegacyBuilder.LegacyNestingExample | mdtojson.go:195-245 | H1 A, x, H2 B, y, then `GetNodes` gives heading A holding [x, B], with B holding [y]. |
| LegacyBuilder.Inlines | mdtojson.go:290-323 | Links, images, emphasis, strong text and inline code give entries, none of them a text entry. |
| LegacyBuilder.ExtractContent | mdtojson.go:281-341 | All text literals are concatenated into one leading "text" entry. It is present only when the text is non-empty, and it comes before every inline entry in walk order. No other text entry exists. |
| LegacyBuilder.TextAcrossSiblings | mdtojson.go:285-335 | The text buffer runs across siblings: for children `a` then `b`, the text entry holds the text of `a` followed by the text of `b`. |
| LegacyBuilder.TextPiecesMerge | mdtojson.go:285-335 | A paragraph of text pieces becomes one entry holding their concatenation, or nothing when it is empty. |
| LegacyBuilder.RowFrom | mdtojson.go:419-425 | The walk over the cells never grows the row beyond `|headers|` entries. Once the row has an entry per header, later cells are dropped. |
| LegacyBuilder.CollectRowCells | mdtojson.go:417-429 | The row has at most `|headers|` entries, and no cells give the empty row. |
| LegacyBuilder.LegacyRowMatchesLibrary | mdtojson.go:417-429 | With distinct headers, the `len(rowData)` index rule gives the library's positional row. |
| LegacyBuilder.DuplicateHeaderDiverges | mdtojson.go:421-423 | With headers a, a, b and cells 1, 2, 3, the legacy row is `{a: 3}` while the library's has b. |
| LegacyBuilder.DropEmpty | mdtojson.go:405-411 | Exactly the entry with empty key and empty value is removed. The other entries stay as they were. |
| LegacyBuilder.DropEmptyMatchesLibrary | mdtojson.go:405-411 | The legacy clean-up removes the same entry as the library's. |
| LegacyBuilder.RegularRows | mdtojson.go:395-414 | One cleaned row per table row, each with at most `|headers|` entries and no empty-valued empty key. |
| LegacyBuilder.RegularRowsMatchLibrary | mdtojson.go:395-414 | With distinct headers, the legacy positional table equals the library's, row by row. |
| LegacyBuilder.KeyedRow | mdtojson.go:445-460 | The key is the first cell's text, and `headers[0]` is deleted. The other entries are those of the positional row. |
| LegacyBuilder.KeyedRowsStep | mdtojson.go:432-442 | Each row is stored under its key, in row order. |
| LegacyBuilder.KeyedRowsKeys | mdtojson.go:432-442 | The legacy keyed table has exactly the keys of the library's. |
| LegacyBuilder.KeyedRowsLastWins | mdtojson.go:436-437 | A row whose key no later row repeats is what the table holds under that key, so a later row with the same key overwrites an earlier one. |
| LegacyBuilder.TableContent | mdtojson.go:359-380 | The table is keyed exactly when the first header is empty. Otherwise it is one row per body row. |
| Renderer.Step | libs/mdrenderer/renderer.go:57-227 | The callback panics exactly in the cases `Panics` lists: a negative indentation level where one is written, leaving a block quote or a list with nothing to pop, an ordered item with no counter, and a paragraph without a parent. Events other than block quotes, lists, items and table parts leave the state unchanged. |
| Renderer.Indentation | libs/mdrenderer/renderer.go:51-54 | Indentation is 4 spaces × level. A negative level panics. |
| Renderer.SkipParagraphNewline | libs/mdrenderer/renderer.go:36-48 | There is no second newline inside a block quote or in an item of a tight list. A paragraph without a parent panics. |
| Renderer.RunKeepsListsOk | libs/mdrenderer/renderer.go:69-80 | Every walk keeps exactly one counter per open list. |
| Renderer.ListLeaveNewline | libs/mdrenderer/renderer.go:73-79 | Leaving a list pops its counter. It writes a newline exactly when the list was the outermost. |
| Renderer.ListRoundTrip | libs/mdrenderer/renderer.go:69-80 | Entering then leaving a list restores the state. It writes a newline only at top level. |
| Renderer.OrderedItemStep | libs/mdrenderer/renderer.go:81-95 | An ordered item writes the indentation, the incremented top counter, the delimiter and a space. |
| Renderer.OrderedItemsNumbered | libs/mdrenderer/renderer.go:85-89 | After c items, the next n siblings are numbered c+1, …, c+n. |
| Renderer.FreshListCountsFromOne | libs/mdrenderer/renderer.go:70-89 | In a freshly opened list the items are numbered 1, 2, 3, … |
| Renderer.ItemNumeralReadsBack | libs/mdrenderer/renderer.go:86-88 | The numeral written for item i reads back as i. |
| Strings.IntToString | libs/mdrenderer/renderer.go:87 | `strconv.Itoa` writes a non-empty decimal that starts with a digit exactly for non-negative numbers. |
| Strings.NatToStringRoundTrip | libs/mdrenderer/renderer.go:87 | The decimal written for a non-negative counter reads back as that counter. |
| Renderer.ItemIndents | libs/mdrenderer/renderer.go:81-95 | An unordered item writes the indentation, the bullet and a space, one level deeper. Leaving restores the depth. |
| Renderer.QuoteRoundTrip | libs/mdrenderer/renderer.go:61-104 | A block quote pushes `"> "` on entering, and a non-item paragraph inside it writes that decoration. Leaving removes exactly those 2 bytes and writes a newline. |
| Renderer.ParagraphEnd | libs/mdrenderer/renderer.go:105-110 | A paragraph ends with `"\n"`, plus a second one unless its parent is a block quote or its grandparent a tight list. |
| Renderer.ParagraphWithoutParentPanics | libs/mdrenderer/renderer.go:105-110 | Leaving a paragraph without a parent dereferences nil. |
| Renderer.HeadingMarkers | libs/mdrenderer/renderer.go:111-116 | A heading writes `#` × level and a space on entering, and `"\n\n"` on leaving. |
| Renderer.InlineMarkersSymmetric | libs/mdrenderer/renderer.go:119-124 | Emph, Strong and Del write the same marker on entering and on leaving. |
| Renderer.LinkCloseAsWritten | libs/mdrenderer/renderer.go:128-137 | As written, the close of a link with an empty title is the evident one. |
| Renderer.TitleRunsIntoDestination | libs/mdrenderer/renderer.go:125-137 | As written, the callback closes a link with destination a and title bc, and one with destination ab and title c, both as `](abc")`. |
| Renderer.TitleSplitAmbiguous | libs/mdrenderer/renderer.go:125-150 | As written, moving any non-empty proper prefix of a link's or image's title onto the end of its destination does not change what the callback writes. |
| Renderer.QuotedStep | libs/mdrenderer/renderer.go:125-150 | The corrected callback differs from the callback as written only when leaving a link or image with a non-empty title. |
| Renderer.QuotedCloseRoundTrip | libs/mdrenderer/renderer.go:125-150 | In the corrected callback, leaving a link or image whose destination has no space does not panic, keeps the state, and writes a close from which the destination and title read back. |
| Renderer.LinkCloseRoundTrip | libs/mdrenderer/renderer.go:125-150 | With the title written after a space and a quote, the destination and title read back from every link or image close whose destination has no space. |
| Renderer.AlignmentRow | libs/mdrenderer/renderer.go:180-200 | The alignment row is `"|"`, then the column markers (` :---`, ` ---:`, ` :---:`, ` ---`) joined by `" |"`, then `" |\n"`. |
| Renderer.CellsJoined | libs/mdrenderer/renderer.go:212-222 | The cells of a row write their texts joined by `" | "`. In the table head they record their alignments in order. |
| Renderer.RowFormat | libs/mdrenderer/renderer.go:204-222 | A table row is written as `"| "`, the cell texts joined by `" | "`, then `" |\n"`. |
| Renderer.HeadFormat | libs/mdrenderer/renderer.go:176-222 | A table head writes its row and then the alignment row built from the alignments its cells recorded. |

## Left out

- Parsing, and blackfriday's `Walk`/`WalkStatus` plumbing. The parser is foreign code. The builders take the parsed tree `Ast.ANode`, and the renderer takes a sequence of callback events.
- JSON marshalling and `%q` quoting. These are function parameters (`Nodes.Json`) with no fixed format.
- `ImageNode.ToReference`. It is not part of this model: it is a function parameter of the chunker (`Chunking.Env`).
- Chunking.NoEmptyChunk: requires every image reference text to be non-empty. `ToReference` is not part of this model, and an empty reference could otherwise be flushed as an empty chunk under a negative budget.
- Logging, `fmt.Println` on failed casts, `log.Fatalf`, and the renderer's default log branch. The model's node kinds are all handled, so that branch is unreachable.
- The command-line tools (`main.go`, `tools/chunking/main.go`), file reading, `ChunkMarkdown`'s parse-then-chunk wrapper, and the test files.
- OrderedMap's `Set`, `Delete` and constructor are not part of this model. Their semantics are stated as assumptions in `OrderedMaps.Set` and `OrderedMaps.Delete`.
- Whether a `Delete` during `KVIter` ends the traversal. The keys are distinct, so at most one entry qualifies, and either way the row is the same; the clean-up is modelled as a filter.
- Go's map iteration order in the legacy clean-up. Only one entry can qualify, so it is modelled as a filter on the map.
- Appending content after `GetNodes`. The Go code keeps a pointer to a heading that is already on the root. The model requires a well-formed stack and does not follow such appends.
- The legacy builder's `RenderNode` dispatch, `handleList` and `extractFormattedText`. The legacy heading stack, `appendContent`, content extraction and table shaping are modelled.
- TreeBuilder.HandleTable: requires that every body is preceded by a head with at least one cell. The Go code indexes `headers[0]` without a check and panics otherwise.
- TreeBuilder.RenderNode: requires `Renderable`, the same condition for every table in the subtree.
- LegacyBuilder.TableContent: requires `|headers| > 0`, for the same unchecked `headers[0]`.
- LegacyBuilder.KeyedRow: requires `|headers| > 0`, for the same unchecked `headers[0]`.
- LegacyBuilder.ExtractContent: requires every link and image to have a first child. The Go code reads `n.FirstChild.Literal` without a check.
- LegacyBuilder.Inlines: requires every link and image to have a first child, for the same unchecked `n.FirstChild`.
- The image registry stores URLs only, since `addImage` compares nothing else.
- Chunking.ChunkJSONMarkdown: no per-chunk byte budget is promised. The end-of-node flush (libs/mdchunk/chunking.go:126-131) emits the carried accumulator together with the new section, so a chunk can exceed `charLimit`; `Chunking.BudgetExceededAsWritten` exhibits one. The code gives no single evident fix, so only the weaker bound of `Chunking.AppendFromBudget` is stated.
- Renderer.Step: output written before a panic is not kept; a panic ends the walk with no output.
- Go's byte strings versus Unicode: strings are sequences of characters, and a character stands for a byte.
- The input tree is only read: every function of the model is pure, so nothing can mutate it.

## Findings

| source | as written | input that shows it | evidently intended | confidence | as-written member | corrected member |
|---|---|---|---|---|---|---|
| libs/mdchunk/chunking.go:113-117 | Before appending a child chunk that would overflow, the accumulator is emitted even when it is still empty. | A paragraph whose only child is the text "abc", at charLimit 2, gives `["", "abc\n\n"]`. | Flush only a non-empty accumulator, as the closing rule at lines 136-138 does, so that no chunk is empty. | not executed | Chunking.EmptyChunkAsWritten | Chunking.NoEmptyChunk |
| libs/mdrenderer/renderer.go:131-135 | The bytes written before a link's or image's title are the empty string (line 132 for links, 145 for images). The title therefore runs into the destination and only a closing quote follows it. | Destination "a" with title "bc", and destination "ab" with title "c", both render `](abc")`. | Write a space and a double quote before the title, so that destination and title can be told apart. | not executed | Renderer.TitleRunsIntoDestination | Renderer.QuotedCloseRoundTrip |
