# hw1_tree renderer in Dafny

A model of the directory-tree printer in `src/hw1_tree/main.go`. Given a directory, the printer:

- walks it depth first;
- drops plain files unless `-f` is given;
- sorts each directory's entries by name;
- writes one line per entry to an output sink.

Each line is the inherited prefix, a branch glyph (`├───`, or `└───` for the last sibling), the entry's name, and, for a file, its size label (`empty` or `<n>b`). The prefix handed to a subdirectory grows by `│\t`, or by `\t` under the last sibling. The first error ends the walk and is handed back to the caller:

- a directory that cannot be opened or read;
- a root that is not a directory;
- a refused write.

The filesystem is an in-memory tree (`Tree.Entry`):

- `File(name, size)`;
- `Dir(name, children)`;
- `Unreadable(name)`, a directory entry whose `os.Open` or `Readdir` fails.

The output sink is a `Writer` object. It accepts `room` more lines, then refuses every write. A ghost counter `refusals` records each refused write. Every drawing method proves that the counter grows by exactly `Output.Refused` of its delivery: by one when the delivery ended on a refused line, otherwise not at all. So the walk never attempts another write after a refused one, and a sink that accepts a fixed number of lines covers every order in which a sink can fail.

The model has two layers:

- **Specification functions.** `Render.DrawSpec`, `Render.Level` and `Render.Item` describe which rows a walk emits and which error ends it, assuming a sink that never fails. A `Row` is the prefix, the last-sibling flag and the entry. `Format.Text` turns a row into its line. `Output.Deliver` cuts a walk down to what a sink with `room` writes lets through.
- **Imperative methods.** `Render.DrawRecursively`, `Render.DrawSorted` (the loop), `Render.DrawIndex` (one turn of it), `Render.DrawEntry` with its two `switch` cases `Render.DrawDirectory` and `Render.DrawFile`, and `Render.DirTree` follow the Go code statement by statement. They use the loop method `Listing.FilterFiles` and the in-place sort `Listing.SortFiles` on an `array`. Each is proved to write exactly `Lines(Deliver(DrawSpec(..), room).rows)`, to return `Deliver(..).failure`, and to add `Refused(Deliver(..))` to the writer's refusal count.

The module `RenderFacts` proves what the walk promises: line counts, the lines of each level and their order and glyphs, the directories-only mode, and the first error. `Scenarios` renders small trees end to end, including through `DirTree` with a real `Writer`. `Args` is the argument check of `main`.

Modules:

- `Wrappers`: `Option`.
- `Lexical`: Go's string `<`.
- `Decimal`: `strconv.Itoa` for sizes.
- `Tree`: the in-memory filesystem.
- `Listing`: filter, comparator, sort.
- `Format`: size label, glyphs, line text.
- `Output`: traces, delivery, writer.
- `Render`: the walk.
- `RenderFacts`, `Scenarios`: properties and examples.
- `Args`: the argument check.

## Model

| member | source | states |
|---|---|---|
| Render.DirTree | src/hw1_tree/main.go:25-32 | Renders the root with the empty prefix. The sink receives exactly what it lets through of the walk, and the walk's first error is returned unchanged. At most one write is refused, and only when the delivery ends on it. |
| Render.DrawRecursively | src/hw1_tree/main.go:34-90 | Filters the entries unless files are printed, sorts them in place, then walks them. The writer's lines become its old lines followed by the delivered rows' text, its room drops by one per line, and the returned error is the delivery's. The refusal count grows by one exactly when the delivery ends on a refused line, so no write follows a refused one. An unreadable entry gives `CannotRead`; a file given as the directory gives `NotADirectory`. |
| Render.DrawSorted | src/hw1_tree/main.go:51-89 | The indexed loop over the sorted entries. It stops at the first error and returns `nil` after the last entry. The output equals the delivery of `Level` over the array, proved with loop invariants. The refusal count grows by one exactly when that delivery ends on a refused line; the loop invariant keeps it unchanged while entries go through. |
| Render.DrawIndex | src/hw1_tree/main.go:52-86 | One turn of the loop. It picks `prefix + "└───"` / `prefix + "\t"` for the last index and `prefix + "├───"` / `prefix + "│\t"` otherwise. On an error, the writer holds the delivery of `Level` over the array, that error is returned, and the refusal count matches it. Otherwise the loop invariant holds for the next index with no write refused. |
| Render.DrawEntry | src/hw1_tree/main.go:62-86 | The `switch` on the entry's kind. The output equals the delivery of `Item`, the error is that delivery's, and the refusal count grows by `Refused` of it. |
| Render.DrawDirectory | src/hw1_tree/main.go:63-72 | A directory writes its line, then recurses with the child prefix, returning the first error of either. A refused line returns before the recursion. The output, the error and the refusal count match the delivery of `Item`. |
| Render.DrawFile | src/hw1_tree/main.go:73-85 | A file writes its line with the size label. The output, the error and the refusal count match the delivery of `Item`. |
| Render.SortedIsDisplayOrder | src/hw1_tree/main.go:46-49 | Whatever order an in-place sort leaves is the unique display order, provided it is ascending by name, is a permutation of the filtered entries, and sibling names are unique. |
| RenderFacts.DrawSpecEmpty | src/hw1_tree/main.go:34-51 | Property of `Render.DrawSpec`, the walk of one node. A node that is not a directory fails before any line. A directory draws nothing exactly when its display order is empty. |
| RenderFacts.LevelFirst | src/hw1_tree/main.go:51-60 | Property of `Render.Level`, the loop from index `from` on. It draws nothing only when no entry is left. Otherwise its first line is entry `from`, flagged last exactly when `from` is the final index. |
| RenderFacts.ItemFirst | src/hw1_tree/main.go:62-86 | Property of `Render.Item`, one turn of the loop. The entry's own line comes first. A file is that one line and never fails. |
| Listing.FilterFiles | src/hw1_tree/main.go:103-111 | The loop returns `DirsOnly(files)`: the directory entries, in their original order. |
| Listing.DirsOnly | src/hw1_tree/main.go:104-110 | The filter's reference definition: its result is no longer than the input and holds only directories taken from the input. |
| Listing.DirsOnlyCount | src/hw1_tree/main.go:103-111 | Filtering keeps every directory entry as often as it occurs and no file at all. |
| Listing.DirsOnlyConcat | src/hw1_tree/main.go:104-109 | Filtering works piece by piece, so the relative order of directories is kept. |
| Listing.DirsOnlyUnique | src/hw1_tree/main.go:104-109 | Filtering keeps sibling names unique. |
| Listing.ByName | src/hw1_tree/main.go:94-100 | The comparator as written, with its duplicated branch, is exactly "the first name is smaller". |
| Listing.SortFiles | src/hw1_tree/main.go:92-101 | After the sort, the array is ascending by name and a permutation of its old contents. |
| Listing.InsertAt | src/hw1_tree/main.go:94-100 | One insertion step extends the sorted prefix by one entry. It keeps the array a permutation and leaves every entry after the new one where it was. |
| Listing.Swap | src/hw1_tree/main.go:94 | The exchange `sort.Slice` makes: two neighbours trade places, every other entry stays, and the contents are a permutation. |
| Listing.SortSpec | src/hw1_tree/main.go:92-101 | The reference sort: a permutation of its input. That it is ascending is `Listing.SortSpecSorted`. |
| Listing.SortSpecSorted | src/hw1_tree/main.go:92-101 | The reference sort is ascending by name (a permutation by its own contract). |
| Listing.SortSpecUnique | src/hw1_tree/main.go:92-101 | Sorting keeps sibling names unique. |
| Listing.SortedPermutationsEqual | src/hw1_tree/main.go:92-101 | Two ascending permutations of a listing with unique names are equal, so the unstable sort's result is determined. |
| Listing.SortedUniqueIsStrict | src/hw1_tree/main.go:92-101 | With unique names, ascending is strictly ascending. |
| Listing.PrepareOrdered | src/hw1_tree/main.go:46-49 | The display order is strictly ascending and holds exactly the entries the filter keeps. It holds no file unless files are printed. |
| Listing.Prepare | src/hw1_tree/main.go:46-49 | The display order of a directory: every entry in it is one of the directory's own entries. |
| Lexical.LessIsLexBefore | src/hw1_tree/main.go:96 | The name order is lexicographic: a proper prefix, or a smaller character at the first difference. |
| Lexical.LessIrreflexive | src/hw1_tree/main.go:96 | No name sorts before itself. |
| Lexical.LessTransitive | src/hw1_tree/main.go:96 | The name order is transitive. |
| Lexical.LessAsymmetric | src/hw1_tree/main.go:96 | Two names never sort before each other. |
| Lexical.LessTotal | src/hw1_tree/main.go:96 | Of two different names, one sorts first. |
| Lexical.AtMostTransitive | src/hw1_tree/main.go:96 | "Not after" is transitive. |
| Decimal.NatToString | src/hw1_tree/main.go:78 | `strconv.Itoa` of a size: digits only, non-empty, and no leading zero except for 0 itself. |
| Decimal.ParseNatToString | src/hw1_tree/main.go:78 | Reading the decimal text back gives the size. |
| Decimal.NatToStringInjective | src/hw1_tree/main.go:78 | Different sizes have different decimal text. |
| Format.SizeLabel | src/hw1_tree/main.go:74-79 | The label is `empty` exactly when the size is 0, and otherwise the decimal size followed by `b`. |
| Format.SizeLabelRoundTrip | src/hw1_tree/main.go:74-79 | The size can be read back from its label. |
| Format.GlyphShape | src/hw1_tree/main.go:53-60 | Both glyphs are four characters, a branch and three dashes. The branch is the corner `└` exactly for the last index. |
| Format.ChildPrefixShape | src/hw1_tree/main.go:53-60 | The prefix handed to a subdirectory strictly extends the current one and ends in a tab. The vertical bar `│` continues exactly when the entry is not the last. |
| Format.TextShape | src/hw1_tree/main.go:64 | Every line starts with the prefix, the glyph and the name, and ends with a newline. Exactly the directory lines end right after the name, with no size. |
| Format.FileLine | src/hw1_tree/main.go:80 | A file line is the prefix, the glyph, the name, ` (`, the label and `)\n`, and the label gives the size back. |
| Output.Writer.Write | src/hw1_tree/main.go:64-67 | A write either appends the line and uses one unit of room, or changes no line, reports the refused line and adds one to the refusal count. |
| Output.ThenFirstError | src/hw1_tree/main.go:69-71 | Property of `Output.Then`, which runs the rest of the walk after one part. The part's lines are kept. The result fails exactly when one side fails, and a failed part is the whole result. |
| Output.DeliverFirstError | src/hw1_tree/main.go:64-67 | Property of `Output.Deliver`, what a sink with `room` writes lets through. The sink receives a prefix of the walk of at most `room` lines. It ends in an error exactly when the walk failed or the sink ran out, and a cut walk's error is its first refused line. |
| Output.DeliverThen | src/hw1_tree/main.go:64-71 | Delivering a walk in two parts: the second part goes out only if the first went through, in the room left over. |
| Output.AdvancePast | src/hw1_tree/main.go:51-87 | One entry of the loop: a failed delivery ends the whole delivery; otherwise the entry's rows join what is done. |
| RenderFacts.DrawSpecCount | src/hw1_tree/main.go:46-89 | A readable directory renders without error. Its line count is the number of entries the filter keeps plus the lines below each subdirectory, counted in the filesystem's own order. |
| RenderFacts.LevelCount | src/hw1_tree/main.go:51-87 | The same count for the loop from any index on. |
| RenderFacts.EntriesCountSort | src/hw1_tree/main.go:49 | Sorting does not change the count. |
| RenderFacts.EntriesCountFilter | src/hw1_tree/main.go:46-48 | Without files, filtering does not change the count. |
| RenderFacts.NothingToShow | src/hw1_tree/main.go:46-51 | An empty directory, or a files-only directory when files are not printed, emits nothing and succeeds. |
| RenderFacts.DrawSpecRows | src/hw1_tree/main.go:53-69 | Every line of a walk starts with the prefix it was started with. Without files, every line is a directory line. |
| RenderFacts.LevelOrder | src/hw1_tree/main.go:46-60 | The lines of one level of a readable directory are exactly the entries the filter keeps, in strictly ascending name order. Only the last of them is marked last, so it alone gets `└───`. |
| RenderFacts.ItemTop | src/hw1_tree/main.go:62-72 | Of an entry's lines, only its own sits at the entry's prefix. Its subtree's lines sit deeper. |
| RenderFacts.LevelHeads | src/hw1_tree/main.go:51-87 | The lines the loop draws at its own prefix are a prefix of the display order from index `from` on. Entry `k` is flagged last exactly when `k == len-1`. A failure cuts the list short, and no later entry appears. When the loop succeeds, every entry appears, in order. |
| RenderFacts.DrawSpecHeads | src/hw1_tree/main.go:46-89 | The same for a directory's walk, over its whole display order. |
| RenderFacts.DrawSpecFailure | src/hw1_tree/main.go:35-44 | A walk of a directory that fails, fails on a directory that cannot be read. The error names that directory, and its line is the last line drawn. |
| RenderFacts.LevelFailure | src/hw1_tree/main.go:69-71 | The same for the loop from any index on: a failed recursive call returns at once. |
| RenderFacts.ItemFailure | src/hw1_tree/main.go:62-72 | The same for one entry: its line, then the walk below it. |
| RenderFacts.WalkEndsAtFirstError | src/hw1_tree/main.go:64-71 | What a sink receives from a directory's walk ends at the first error. Either the sink refused a line after exactly `room` lines, or the sink took the whole walk and the walk stopped right after an unreadable directory's line. |
| Scenarios.SampleWithFiles | src/hw1_tree/main.go:51-86 | With `-f`, `A{f.txt 5 bytes, B/}` prints `├───B` then `└───f.txt (5b)`. |
| Scenarios.SampleDirsOnly | src/hw1_tree/main.go:46-60 | Without `-f`, the same tree prints `└───B` only. |
| Scenarios.EmptyFile | src/hw1_tree/main.go:74-80 | A zero-byte file prints `└───empty.txt (empty)`. |
| Scenarios.UnreadableStops | src/hw1_tree/main.go:35-44 | An unreadable subdirectory's line is printed, its error ends the walk, and its later sibling never appears. |
| Scenarios.ShortWriterDelivery | src/hw1_tree/main.go:82-85 | A sink with room for one line gets the first line and refuses the second, which becomes the error. |
| Scenarios.SampleRun | src/hw1_tree/main.go:25-32 | `DirTree` on the sample tree writes the two expected lines and returns no error. |
| Scenarios.SampleRunShortWriter | src/hw1_tree/main.go:64-67 | `DirTree` with a one-line sink writes one line and returns the refused second line as its error. |
| Args.ParseArgs | src/hw1_tree/main.go:14-18 | Arguments are accepted exactly when there are 2 or 3 of them. The path is the second, and files are printed exactly when there are 3 and the third is `-f`. |
| Args.PathAlone | src/hw1_tree/main.go:17-18 | A path alone is accepted and means directories only. |
| Args.OtherFlagIgnored | src/hw1_tree/main.go:18 | Any other third argument is accepted and means directories only. |
| Args.UsageError | src/hw1_tree/main.go:14-16 | Fewer than 2 or more than 3 arguments are a usage error. |

## Left out

- `os.Open` and `Readdir`: the model walks an in-memory tree. Their failures become `Unreadable` entries (`CannotRead`) and a root that is a file (`NotADirectory`). The error carries the entry's name, not the operating system's message or the full path.
- Path concatenation with `os.PathSeparator`: children are nested in the tree, so no path is built.
- `closeResource`, `defer` and `log.Fatal`: releasing handles and halting the process are outside the model.
- `panic` and `os.Stdout` in `main`: a usage error is `None` from `Args.ParseArgs`, and the process exit on a walk error is not modelled.
- Partial writes: a sink may write part of a line and then return an error. Those bytes reach the sink, but the model's `Writer.Write` either takes a whole line or writes nothing and fails.
- The algorithm behind `sort.Slice`: an in-place insertion sort stands in for it. Only the result matters, and with unique names every correct sort gives the same result (`Listing.SortedPermutationsEqual`).
- Render.DrawRecursively: requires unique names among siblings (`Tree.WellFormed`), which every filesystem guarantees. With duplicate names, the order an unstable sort leaves equal names in is not determined, and the model does not say which one is printed first.
- Byte order of names: Go compares UTF-8 bytes, and the model compares characters. The two orders agree for valid UTF-8.
- `int(file.Size())`: sizes are natural numbers. A negative size or a 32-bit `int` overflow is not modelled.
- Idempotence: the walk is a function of the tree, so printing the same tree twice gives the same lines. No separate lemma states it.
