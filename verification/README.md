# FIBO annotation pipeline — a Dafny model

The application reads the text of a financial document, such as a bank Call Report, and
sends it to a large language model. The model annotates the text against the Financial
Industry Business Ontology (FIBO) and a custom Call Report ontology. The application then
exports the annotations as CSV. This project models and proves the two parts of the
application that contain logic:

- **The chunk-and-aggregate pipeline** (`services/geminiService.ts`).
  - `chunkText` cuts the text into paragraphs at blank lines and drops the blank ones. It
    packs paragraphs greedily into chunks of at most 15000 characters and slices any longer
    paragraph into fixed-width pieces.
  - `applyFiboOntology` sends the chunks to the model one at a time, reporting progress
    before each request. It fails on the first chunk whose request fails. Otherwise it
    appends the four lists of every answer to an aggregate.
  - The aggregate is then de-duplicated. An item's key is its fields, lower-cased and
    trimmed, joined with `|`, and the first item of each key wins.
- **The CSV export** (`utils/exportUtils.ts`).
  - `escapeCsvCell` quotes a cell that holds a comma, a double quote or a line feed, and
    doubles the quotes inside it.
  - `convertToCsv` writes a header followed by one six-cell record per item, group after
    group.

Modules, one per file:

- `Wrappers` holds `Option` and `Result`.
- `FiboTypes` holds the records of `types.ts`, with fields in Dafny's camel case.
- `Text` holds JavaScript's `split`, `join`, `trim` and `toLowerCase` on strings.
- `Chunker` models `chunkText`.
- `Deduplication` models the two de-duplication helpers and their keys.
- `Annotator` models the loop of `applyFiboOntology`.
- `CsvExport` models the export. It also defines a CSV reader, which states what the export
  means: reading the export back gives the header and the records. The reader takes quoted
  cells as section 2 of RFC 4180 does, but ends an unquoted cell only at a comma or a line
  feed, so it reads a bare carriage return as part of the cell.

Each imperative operation is a method proved against a specification function. The
properties the source promises are lemmas about that function:

- `ChunkText` is proved against `Chunks`, a fold of one step per paragraph over tagged runs.
  A run is either an accumulated chunk or the slices of one long paragraph.
- `ProcessChunks` is proved against the `Processed` predicate.
- `DeduplicateBy` is proved against `Dedup`.
- `ConvertToCsv` is proved against `Csv`.

Three behaviours of the source that a reader might not expect are kept as written:

- The test at `services/geminiService.ts:80` adds 2 for the separator even when the
  accumulator is empty, and line 81 then pushes the accumulator anyway. So a first
  paragraph of 14999 or 15000 characters produces an empty chunk, and so does such a
  paragraph right after a force-split. The empty chunk is sent to the model like any other
  (`Chunker.EmptyFirstChunkOfText`, `Chunker.EmptyChunkAfterForceSplit`). No lemma claims
  that chunks are non-empty.
- The de-duplication key is one string, the normalised fields joined with `|`, so
  different field tuples can share it (`Deduplication.FiboKeyCollision`).
- `chunkText` has no check on the chunk size; with 0 its slicing loop never ends. The model
  requires a positive size, and the source only passes the constant 15000.

## Model

| member | source | states |
|---|---|---|
| Chunker.ChunkText | services/geminiService.ts:63-92 | The chunks built by the paragraph loop are exactly `Chunks(text, size)`, and every chunk has at most `size` characters |
| Chunker.ChunkParagraphs | services/geminiService.ts:66-91 | The packing loop over the kept paragraphs, with its flush at the end, emits exactly the chunks of the fold `Packed`, each at most `size` long |
| Chunker.PushSlices | services/geminiService.ts:75-79 | The `subParaPos` loop appends exactly the fixed-width slices of the paragraph to the chunks |
| Chunker.SlicesShape | services/geminiService.ts:70-79 | The slices of a long paragraph concatenate back to it. There are slices exactly when the paragraph is non-empty. Every slice but the last has exactly `size` characters, and every slice has between 1 and `size` |
| Chunker.ForceSplitStep | services/geminiService.ts:70-79 | A paragraph longer than `size` first emits a non-empty accumulator as its own chunk and then its slices, leaving the accumulator empty |
| Chunker.ChunksBounded | services/geminiService.ts:70-84 | Every chunk, whether accumulated or a slice, has at most `size` characters |
| Chunker.StepBounded | services/geminiService.ts:69-85 | One pass of the loop keeps every emitted chunk and the accumulator within `size` |
| Chunker.ChunksEmptyIff | services/geminiService.ts:65-91 | The chunk list is empty if and only if the text has no paragraph with non-whitespace content |
| Chunker.BlankTextHasNoParagraphs | services/geminiService.ts:65 | An all-whitespace text, the empty text included, has no paragraph |
| Chunker.KeepContentEmpty | services/geminiService.ts:65 | Filtering by `trim().length > 0` leaves nothing if and only if every piece is blank |
| Chunker.RecoverLayout | services/geminiService.ts:65-90 | Lossless and in order: re-split each accumulated chunk at blank lines, drop empty chunks and glue each run of slices back together, and the result is exactly the kept paragraphs in input order |
| Chunker.PackInvariant | services/geminiService.ts:68-86 | Invariant of the loop: the accumulator is the blank-line join of the last paragraphs not yet emitted, and the runs emitted so far recover the paragraphs before them |
| Chunker.EmptyFirstChunkOfText | services/geminiService.ts:80-81 | When the first paragraph has `size - 1` or `size` characters, the first chunk is the empty string |
| Chunker.EmptyChunkAfterForceSplit | services/geminiService.ts:70-82 | Right after a force-split, a paragraph of `size - 1` or `size` characters pushes an empty chunk and becomes the accumulator |
| Chunker.KeepContent | services/geminiService.ts:65 | `filter(p => p.trim().length > 0)`: keeps at most as many pieces, each with non-whitespace content |
| Chunker.KeepContentMembers | services/geminiService.ts:65 | A piece is in the filtered list, untrimmed, if and only if it is one of the pieces and has non-whitespace content |
| Chunker.KeepContentAppend | services/geminiService.ts:65 | Filtering two lists one after the other is filtering each in turn, so the kept pieces keep their order |
| Chunker.HasContent | services/geminiService.ts:65 | `p.trim().length > 0` holds exactly when the piece has a character that is not whitespace, and then the piece is not empty |
| Chunker.Paragraphs | services/geminiService.ts:65 | `text.split('\n\n').filter(...)`: at most as many paragraphs as pieces, each with non-whitespace content; `Chunker.ParagraphsOfText` states that they are exactly the non-blank pieces of the text |
| Chunker.ParagraphsOfText | services/geminiService.ts:65 | The paragraphs are exactly the pieces of the blank-line split that have non-whitespace content, untrimmed, and the pieces joined at blank lines give the text back |
| Chunker.ParagraphsEmptyIff | services/geminiService.ts:65 | A text has no paragraph if and only if it is made only of whitespace |
| Chunker.Slices | services/geminiService.ts:75-79 | The pieces `substring(pos, pos + size)` for pos = 0, size, 2·size, …: each has between 1 and `size` characters |
| Chunker.Flush | services/geminiService.ts:71-74 | `if (currentChunk) chunks.push(currentChunk)`: never pushes an empty chunk |
| Chunker.Step | services/geminiService.ts:69-85 | One pass of the paragraph loop: chunks already pushed are kept unchanged, and after a force-split the accumulator is empty |
| Chunker.PackRunsGrow | services/geminiService.ts:68-86 | Chunks once pushed are never changed: the runs after a prefix of the paragraphs are a prefix of the final runs |
| Chunker.ParagraphsSeparable | services/geminiService.ts:65 | The kept paragraphs hold no blank-line separator and no paragraph but the last ends in a line feed, so joining and re-splitting them gives them back |
| Text.JoinSplit | services/geminiService.ts:65 | Joining the pieces of `split('\n\n')` with the separator gives the text back |
| Text.SplitJoin | services/geminiService.ts:65-84 | Splitting the join of separable pieces gives the pieces back |
| Text.IndexOf | services/geminiService.ts:65 | The leftmost occurrence of the separator at or after a position, or none |
| Text.SplitOn | services/geminiService.ts:65 | `split('\n\n')`: at least one piece. `Text.JoinSplit` and `Text.SplitSeparable` prove the pieces rejoin to the text and hold no separator |
| Text.SplitSeparable | services/geminiService.ts:65 | The pieces of a split hold no separator, and none but the last ends with a prefix of it |
| Text.Join | utils/exportUtils.ts:65-68 | `join(sep)`: no parts give the empty string, and otherwise the result starts with the first part; `Text.JoinSplit` shows it undoes `split` |
| Text.JoinLength | utils/exportUtils.ts:65-68 | A join is as long as its parts together plus one separator for each gap |
| Text.JoinCharsFromParts | services/geminiService.ts:65 | Every character of a join comes from the separator or from one of the parts |
| Text.Leading | services/geminiService.ts:65 | The number of leading whitespace characters: all before it are whitespace, the one at it is not |
| Text.Trim | services/geminiService.ts:65 | `trim()` is the string from its first non-whitespace character on, cut where only whitespace follows; with the ends not being whitespace this fixes the result. It is empty exactly when the string is all whitespace |
| Text.TrimStart | services/geminiService.ts:65 | The result is a suffix; everything dropped is whitespace; the result does not start with whitespace |
| Text.TrimEnd | services/geminiService.ts:65 | The result is a prefix; everything dropped is whitespace; the result does not end with whitespace |
| Text.Lower | services/geminiService.ts:185 | `toLowerCase()` on ASCII letters: same length, each character lower-cased on its own |
| Annotator.ProcessChunks | services/geminiService.ts:99-209 | The chunk loop gives the failure of the first failing chunk after the events up to and including its request. Otherwise it gives the de-duplicated in-order aggregate of every answer after the events of every chunk |
| Annotator.ApplyFiboOntology | services/geminiService.ts:95-210 | Chunking the text and then processing the chunks satisfy `Processed` for the chunks of the text |
| Annotator.Log | services/geminiService.ts:108-110 | Two events per chunk: the progress report `(j + 1, total)` comes right before the request of chunk `j` |
| Annotator.LogAt | services/geminiService.ts:108-110 | Every position of the log is either a progress report or the request that follows it |
| Annotator.ProgressIncreasing | services/geminiService.ts:108-110 | Progress reports come in strictly increasing order of chunk number |
| Annotator.LogEvents | services/geminiService.ts:108-110 | Every reported index lies between 1 and the number of chunks logged, and every request is for a logged chunk |
| Annotator.FirstFailure | services/geminiService.ts:157-178 | Every request before the returned index succeeds, and the request at the index fails |
| Annotator.BlankTextGivesNothing | services/geminiService.ts:99-104 | A text with no paragraph gives four empty lists, with no request and no progress report |
| Annotator.FailureNamesChunk | services/geminiService.ts:157-178 | A failure names the first failing chunk, 1-based, and the number of chunks. The log ends with that chunk's request, and no later chunk is requested |
| Annotator.Gather | services/geminiService.ts:171-174 | The lists of one kind from the answers so far, one after the other in chunk order; a missing list adds nothing. `Annotator.GatherMember` states its contents |
| Annotator.GatherMember | services/geminiService.ts:171-174 | An item is in the aggregate exactly when some successful answer listed it; a missing list counts as empty |
| Annotator.SuccessKeepsEveryKey | services/geminiService.ts:171-209 | On success, every chunk was requested, and the key of every concept any answer listed is in the result |
| Annotator.Deduplicated | services/geminiService.ts:204-209 | Each of the four returned lists has distinct keys and keeps every key of its aggregate |
| Annotator.DeduplicateAll | services/geminiService.ts:204-209 | The returned object is the aggregate with each list de-duplicated by its own key |
| Deduplication.DeduplicateBy | services/geminiService.ts:182-202 | The `Map` loop returns exactly `Dedup` of the items |
| Deduplication.ValuesInOrder | services/geminiService.ts:190 | `Array.from(map.values())` lists the stored values in key insertion order |
| Deduplication.Dedup | services/geminiService.ts:182-202 | No two kept items share a key, and every input key is kept |
| Deduplication.DedupIsFirsts | services/geminiService.ts:186-188 | De-duplication is the stable filter that keeps exactly the first item of each key |
| Deduplication.DedupKeepsFirsts | services/geminiService.ts:184-189 | After each prefix of the items, the values kept are the first-of-key items of that prefix |
| Deduplication.DedupDistinct | services/geminiService.ts:182-202 | A list whose keys are already distinct is returned unchanged |
| Deduplication.DedupIdempotent | services/geminiService.ts:182-202 | De-duplicating twice is the same as de-duplicating once |
| Deduplication.Normalize | services/geminiService.ts:185 | `toLowerCase().trim()` of one field: the key text has no upper-case letter and no whitespace at either end |
| Deduplication.FiboKey | services/geminiService.ts:185 | The key of a concept, entity or relationship: its name, FIBO class and context, normalised and joined with bar characters; it has no upper-case letter |
| Deduplication.FinancialKey | services/geminiService.ts:196 | The key of a financial data point: its name, value, ontology class and context, normalised and joined with bar characters; it has no upper-case letter |
| Deduplication.NormalizeAlike | services/geminiService.ts:185 | Fields that agree up to letter case and surrounding whitespace have the same key text |
| Deduplication.FiboKeyIgnoresCaseAndPadding | services/geminiService.ts:185 | Items whose name, FIBO class and context each agree up to letter case and surrounding whitespace share a key, whatever their descriptions |
| Deduplication.FinancialKeyIgnoresCaseAndPadding | services/geminiService.ts:196 | Financial data points whose name, value, ontology class and context each agree up to letter case and surrounding whitespace share a key, whatever their descriptions |
| Deduplication.NormalizePadded | services/geminiService.ts:185-196 | Whitespace around a field does not change its normalised text |
| Deduplication.LowerTwice | services/geminiService.ts:185-196 | Lower-casing is idempotent |
| Deduplication.FiboKeyCollision | services/geminiService.ts:185 | Items whose names and FIBO classes differ still share a key when the bar separator moves from the end of the name to the start of the class |
| CsvExport.NeedsQuotes | utils/exportUtils.ts:15 | Quoting is triggered by a comma, a double quote or a line feed, and by nothing else (a carriage return alone does not trigger it); `CsvExport.EscapeCsvCell` states the effect |
| CsvExport.BareCarriageReturnUnquoted | utils/exportUtils.ts:15-18 | The cell `a`, carriage return, `b` is written unquoted, and this module's reader takes it back as one cell |
| CsvExport.EscapeCsvCell | utils/exportUtils.ts:10-19 | A null cell gives the empty string. A cell without a comma, a double quote or a line feed, including one holding a carriage return, is unchanged. Any other cell is wrapped in double quotes |
| CsvExport.DoubleQuotes | utils/exportUtils.ts:16 | A string without a double quote is unchanged by the replace |
| CsvExport.QuotedRoundTrip | utils/exportUtils.ts:16 | Reading a quoted field stops at the closing quote and un-doubles the inner quotes, giving the original cell back |
| CsvExport.CellRoundTrip | utils/exportUtils.ts:10-19 | Reading back an escaped cell, followed by a comma, a line feed or the end, gives the original cell and leaves what follows |
| CsvExport.QuotedCellRoundTrip | utils/exportUtils.ts:15-16 | The round trip for cells that need quoting |
| CsvExport.PlainCellRoundTrip | utils/exportUtils.ts:15-18 | The round trip for cells returned unchanged |
| CsvExport.RecordRoundTrip | utils/exportUtils.ts:67 | Reading back the comma join of the escaped cells of a record gives the record |
| CsvExport.RecordsRoundTrip | utils/exportUtils.ts:65-68 | Reading back the line-feed join of the escaped records gives the records |
| CsvExport.Line | utils/exportUtils.ts:66-67 | `row.join(',')`: an empty row gives the empty line, and otherwise the line starts with the first cell; `CsvExport.RecordRoundTrip` shows that the line of escaped cells reads back as the record |
| CsvExport.JoinRows | utils/exportUtils.ts:67 | `allRows.map(row => row.join(','))`: one line per row, in order, line i being the comma join of row i; `CsvExport.LinesOfRows` ties it to the lines of the records |
| CsvExport.FinancialDataRow | utils/exportUtils.ts:35-42 | The six escaped cells pushed for a financial data point; `CsvExport.FinancialDataRowEscaped` states what they are |
| CsvExport.FiboRow | utils/exportUtils.ts:49-56 | The six cells pushed for a concept, entity or relationship, the value cell empty; `CsvExport.FiboRowEscaped` states what they are |
| CsvExport.FinancialDataRowEscaped | utils/exportUtils.ts:35-42 | The row of a financial data point is its record `Financial Data, name, value, ontology_class, description, context` with every cell escaped |
| CsvExport.FiboRowEscaped | utils/exportUtils.ts:49-56 | The row of a concept, entity or relationship is its record: the type label, the name, an empty value, the FIBO class in the `ontology_class` column, the description and the context, each escaped |
| CsvExport.PushFinancialDataRows | utils/exportUtils.ts:32-44 | The rows pushed are the escaped records of the items in list order; a missing list pushes nothing |
| CsvExport.PushFiboRows | utils/exportUtils.ts:46-58 | The rows pushed are the escaped records of the items in list order, with the given type label; a missing list pushes nothing |
| CsvExport.ConvertToCsv | utils/exportUtils.ts:26-71 | The output is the header line followed by the lines of the records, joined with line feeds. It is empty exactly when `data` is missing |
| CsvExport.RowsOfRecords | utils/exportUtils.ts:60-63 | The four push calls build the escaped records of all groups, in the order financial data, concepts, entities, relationships |
| CsvExport.HeaderPlain | utils/exportUtils.ts:29-66 | No header cell needs quoting, so the unescaped header line reads back as the six column names |
| CsvExport.RecordsWidth | utils/exportUtils.ts:35-56 | Every record has exactly six cells |
| CsvExport.RecordsAt | utils/exportUtils.ts:33-63 | The record at each position, by group: financial data, then concepts, entities and relationships |
| CsvExport.RecordsCount | utils/exportUtils.ts:33-63 | There is one record per item of the four lists; a missing list contributes none |
| CsvExport.CsvRoundTrip | utils/exportUtils.ts:26-71 | Reading the export back gives the header followed by the records |
| CsvExport.CsvReadsBack | utils/exportUtils.ts:29-68 | Reading the export back gives the header `type,name,value,ontology_class,description,context`, then one record per item: financial data, concepts, entities and relationships, each group in list order and with its label |
| CsvExport.CsvEndsCleanly | utils/exportUtils.ts:65-68 | The export of present data is non-empty and does not end with a line feed |
| CsvExport.LineEnd | utils/exportUtils.ts:67 | A record line does not end with a line feed |

## Left out

- The Gemini client, the API-key check, the prompt text, the response schemas,
  `JSON.parse` and the `as FiboData` cast (services/geminiService.ts:1-61, 112-169) are
  not modelled. They are replaced by an oracle. `responses[i]` is the parsed answer to the
  request for chunk `i`, with each of its four lists possibly missing, or `None` when the
  request or the parse threw. A request with no recorded answer fails.
- Answers are assumed to hold well-typed items: `FiboItem` and `FinancialDataItem` have only
  string fields, so an answer whose item is `null` or lacks `name`, `fibo_class`,
  `ontology_class`, `value` or `context` cannot be expressed. With such an answer the source
  pushes the item, as the `as FiboData` cast checks nothing, and goes on requesting every
  later chunk. The key expression at services/geminiService.ts:185 or 196 then throws a
  `TypeError` after the loop, outside the `try` of lines 157-178, so the call rejects with an
  error that names no chunk. No oracle value gives that outcome, and an answer of `None`
  would instead predict a `ChunkFailure` at that chunk.
- `async`/`await` is not modelled: the loop awaits one request at a time, so it is modelled
  as a sequential method.
- The progress callback and the thrown `Error` are modelled as values: a
  `Progress(i + 1, total)` event and `ChunkFailure(i + 1, total)`. The message wording and
  the `console.error` call are not modelled.
- On failure, the half-filled aggregate is not modelled, because the source never returns it.
- The `Map` of the de-duplication helpers is modelled as a Dafny `map` plus the list of its
  keys in insertion order, which is what `map.values()` iterates.
- Text.Lower: lower-cases ASCII letters only, whereas JavaScript's `toLowerCase` follows
  full Unicode case mapping. `trim` uses the exact ECMAScript whitespace set.
- String lengths count Dafny characters. JavaScript counts UTF-16 code units, so a
  character outside the Basic Multilingual Plane counts once here and twice in the source,
  and a slice could split a surrogate pair there.
- CsvExport.EscapeCsvCell: takes an optional string, covering `null` and `undefined`. The
  `String(cell)` conversion of a non-string value is not modelled, because every field of
  the records is typed as a string.
- CsvExport.ConvertToCsv: takes an optional object, covering a falsy `data`. Any other
  falsy value and an object whose item fields are not strings are not modelled.
- CsvExport.CsvRoundTrip: the round trip holds for this module's reader, which ends an
  unquoted cell only at a comma or a line feed. A cell holding a bare carriage return is
  written unquoted (`CsvExport.BareCarriageReturnUnquoted`), which RFC 4180 does not allow,
  and a reader that ends a record at a carriage return would split that record in two.
- The header line is joined without escaping, as in the source. `CsvExport.HeaderPlain`
  shows that escaping would not change it.
- services/pdfService.ts, App.tsx and the components under components/ are not part of
  this model: they are PDF reading, React state and rendering.
