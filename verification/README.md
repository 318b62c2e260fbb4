# bl1nk metadata synchroniser, desktop API client and feature flags, in Dafny

This project models three pieces of the bl1nk repository and proves properties of them.

**The metadata synchroniser** (`scripts/update-system-metadata.ts`). It keeps a checksum and an
update timestamp in the metadata of three managed files: one JSON document and two markdown
pages. The model covers these parts:

- The registry of managed files.
- The command line (`parseCliArgs`). The argument loop is a method, proved against a function
  that folds the per-argument outcomes.
- Path-filter validation.
- The canonical JSON form that is hashed (`sortValue`, `normaliseJsonForChecksum`).
  `JSON.stringify` and `JSON.parse` are modelled too, with a proved round trip.
- The markdown metadata comment. The model covers how the regular expression reads it and how
  `formatMarkdownMetadata` writes it back.
- The per-file regeneration.
- `updateSystemMetadata` itself. It is a method whose loop is proved against a function over
  the files before the run.

The file system is a map from paths, relative to the root directory, to contents. SHA-256 is a
function parameter `hash`. The clock reading used when no timestamp is given is a parameter
`now`.

**The desktop `ApiClient`** (`app/client-desktop/src/api-client.ts`):

- its fields, constructor, `setAuthToken` and `getHeaders`, as a class;
- the line framing of `streamMessage`, which buffers chunks, splits them at `\n` and yields
  the JSON of every complete `data: ` line, as a method with a loop.

The network is a parameter: a `Response` holds the status and the decoded chunks of the body.

**`parseBooleanFlag`** (`app/client-desktop/dist/utils/flags.js`), and the inline copy of its
rule in `app/client-desktop/src/preload.ts`.

`scripts/update-system-metadata.ts:94` holds a stray `});` after the `forEach` callback, so the
file as written does not parse. The model follows the evidently intended loop.

Markdown files settle after two runs with the same timestamp, not after one
(`MetadataSync.MarkdownRegenerateSettles`). The first run hashes the body as it was read, then
writes that body without its leading whitespace and with a final newline. The second run
therefore hashes a different text. A body that is already in that form settles after one run.
The comment is followed by two blank lines when the body is non-empty: `formatMarkdownMetadata`
ends in `\n\n`, and the assembly adds a further `\n` before a body that does not start with
one. The model keeps this layout as written.

Modules, one per file:

| module | content |
|---|---|
| `Wrappers` | `Option` and `Result` |
| `Text` | JavaScript whitespace, `trim`, `trimStart`, `split` and `join`, and `Set` insertion order (`Dedup`) |
| `JsonValue` | JSON values, property get, assignment and delete |
| `JsonText` | `JSON.stringify` with indentation, and `JSON.parse` |
| `JsonRoundTrip` | proof that `JSON.parse` reads back what `JSON.stringify` writes |
| `JsonParsed` | proof that what `JSON.parse` builds has unique keys at every depth |
| `KeyOrder` | the key order and sorting |
| `CanonicalJson` | `sortValue` and the checksum input |
| `MarkdownBlock` | the metadata comment |
| `CliArgs` | the command line |
| `MetadataSync` | the run |
| `Api` | `ApiClient` |
| `Flags` | the flags |

## Model

| member | source | states |
|---|---|---|
| MetadataSync.ManagedPathsDistinct | scripts/update-system-metadata.ts:14-18 | no two managed files share a path |
| MarkdownBlock.SkipJsSpaceStops | scripts/update-system-metadata.ts:20 | a greedy `\s*` takes exactly the whole run of whitespace: every character skipped is whitespace, and the next one is not |
| MarkdownBlock.FindCloseFirst | scripts/update-system-metadata.ts:20 | the lazy `[\s\S]*?\}` stops at the first `}` followed by whitespace and `-->`; if it finds none, no `}` closes |
| MarkdownBlock.CaptureStartSpec | scripts/update-system-metadata.ts:20 | the capture starts at position `p` exactly when the content opens with `<!--`, whitespace, `metadata:` in any case, whitespace, and a `{` at `p` |
| MarkdownBlock.MatchCommentSpec | scripts/update-system-metadata.ts:20 | the pattern matches exactly when the opening matches and some later `}` is followed by whitespace and `-->`; the capture then runs from the `{` to the first such `}`, and the match ends where the whitespace after `-->` ends |
| CanonicalJson.SortValueGet | scripts/update-system-metadata.ts:26-43 | `sortValue` of an object has no `metadata` key; every other key keeps its value, itself sorted |
| CanonicalJson.SortValueCanonical | scripts/update-system-metadata.ts:26-43 | every object in the result, at every depth, has strictly ascending keys and no `metadata`; unique keys are preserved |
| CanonicalJson.CanonicalFixed | scripts/update-system-metadata.ts:26-43 | a document already in canonical form is left unchanged |
| CanonicalJson.SortValueIdempotent | scripts/update-system-metadata.ts:26-43 | sorting twice gives the same as sorting once |
| CanonicalJson.SortValueIgnoresKeyOrder | scripts/update-system-metadata.ts:26-43 | documents that differ only in the order of object keys sort to the same value |
| KeyOrder.LessTotal | scripts/update-system-metadata.ts:34 | the key comparison is a strict total order: two different keys are ordered exactly one way |
| KeyOrder.LessTransitive | scripts/update-system-metadata.ts:34 | the key comparison is transitive |
| KeyOrder.SortByKey | scripts/update-system-metadata.ts:32-34 | sorting keeps exactly the same properties, each as often as before (a permutation) |
| KeyOrder.SortByKeySorted | scripts/update-system-metadata.ts:32-34 | sorting properties with distinct keys yields strictly ascending keys |
| KeyOrder.SortedEqual | scripts/update-system-metadata.ts:32-34 | two strictly sorted property lists with the same members are equal, so the sorted order is unique |
| CanonicalJson.ChecksumIgnoresKeyOrder | scripts/update-system-metadata.ts:49-51 | the hashed text does not depend on the order of keys in any object |
| CanonicalJson.ChecksumDeterminesCanonical | scripts/update-system-metadata.ts:49-51 | equal hashed texts mean equal canonical forms |
| CanonicalJson.ChecksumIgnoresMetadata | scripts/update-system-metadata.ts:180-186 | deleting the top-level `metadata` before hashing does not change the hashed text |
| CliArgs.ParseCliArgs | scripts/update-system-metadata.ts:53-106 | the argument loop returns exactly the fold of the per-argument outcomes (`ParseCli`) |
| CliArgs.ParseArg | scripts/update-system-metadata.ts:58-98 | one argument: its error, or the options with its dry-run setting and its paths added |
| CliArgs.AddPathItems | scripts/update-system-metadata.ts:84-93 | the `--paths` items, trimmed and without blanks, are added in order, skipping those already present; an item with `..` or an absolute item rejects the whole list |
| CliArgs.ParseCliRejectsFirstBadArgument | scripts/update-system-metadata.ts:57-98 | parsing fails exactly when some argument is bad, and then with the first bad argument's error |
| CliArgs.RunFailure | scripts/update-system-metadata.ts:57-99 | the fold fails exactly when some argument fails, with the error of the first that does |
| CliArgs.AllAccepted | scripts/update-system-metadata.ts:57-99 | an accepted command line has every argument accepted, each with its own dry-run setting and paths |
| CliArgs.ArgPathsSafe | scripts/update-system-metadata.ts:70-92 | every path an accepted `--path` or `--paths` adds is non-empty, not absolute and contains no `..` |
| CliArgs.RunPaths | scripts/update-system-metadata.ts:55 | the collected paths hold each path some accepted argument adds, exactly once |
| CliArgs.ParseCliPaths | scripts/update-system-metadata.ts:70-103 | the path filter holds exactly the paths the arguments name, each once, each non-empty and safe; it is absent when none is named |
| CliArgs.RunDryRun | scripts/update-system-metadata.ts:64-69 | the dry-run flag is the last setting's value, and off when no argument sets it |
| CliArgs.ParseCliDryRun | scripts/update-system-metadata.ts:64-69 | dry running is on exactly when some `--dry-run` whose value is not `false` is followed by no other `--dry-run` |
| MetadataSync.ValidatePathsSpec | scripts/update-system-metadata.ts:108-114 | the filter is rejected exactly when it names an unmanaged path; the error lists every such path, once |
| MarkdownBlock.RemoveMetadataBlockSpec | scripts/update-system-metadata.ts:120-135 | without a match the metadata is absent and the body is the whole content; with one, the call fails exactly when the capture is not JSON, and otherwise yields the parsed capture and the content after the match, which never starts with whitespace |
| MarkdownBlock.RemoveWithoutBlock | scripts/update-system-metadata.ts:121-124 | content that does not start with `<!--` has no metadata and keeps its whole text as the body |
| MarkdownBlock.BlockMetadataIsObject | scripts/update-system-metadata.ts:126-134 | the metadata a block yields is always an object with unique keys at every depth |
| MarkdownBlock.PrettyObjectText | scripts/update-system-metadata.ts:116-118 | the pretty-printed metadata starts with `{`, ends with `}`, contains no `>` when no string in it does, and parses back to the metadata |
| MarkdownBlock.Compose | scripts/update-system-metadata.ts:203-205 | the next markdown content starts with the formatted metadata comment and ends with a newline |
| MarkdownBlock.RemoveComposed | scripts/update-system-metadata.ts:116-135 | reading back what was written yields the metadata written and the body without leading whitespace and with a final newline |
| MarkdownBlock.NormalBodyIdempotent | scripts/update-system-metadata.ts:203-205 | normalising the body twice gives the same as normalising it once |
| Text.EnsureTrailingNewline | scripts/update-system-metadata.ts:137-139 | the result ends with a newline and extends the input by at most one character; text that already ends with a newline is unchanged |
| Text.TrimStart | scripts/update-system-metadata.ts:203 | `trimStart` returns a suffix of its input that does not start with whitespace |
| Text.TrimStartDropsSpaces | scripts/update-system-metadata.ts:203 | what `trimStart` drops is all whitespace |
| Text.DedupSpec | scripts/update-system-metadata.ts:55 | adding to a `Set` keeps elements distinct and holds exactly the elements added |
| Text.DedupAppend | scripts/update-system-metadata.ts:78 | adding two runs of elements one after the other is adding their concatenation |
| JsonValue.PutInPlace | scripts/update-system-metadata.ts:188-191 | with unique keys, assigning an existing key replaces that property's value at its own position and leaves every other property where and as it was |
| JsonValue.PutGet | scripts/update-system-metadata.ts:188-189 | after assigning a property, reading that key gives the new value and every other key is unchanged |
| JsonValue.PutPreserves | scripts/update-system-metadata.ts:191 | assignment keeps keys unique and brings in no value other than the one assigned |
| JsonValue.RemoveKeeps | scripts/update-system-metadata.ts:183 | `delete` leaves every other key as it was, and keeps keys unique |
| JsonValue.RemovePut | scripts/update-system-metadata.ts:183-191 | deleting a key after assigning it is the same as deleting it |
| JsonValue.PutExisting | scripts/update-system-metadata.ts:188-189 | assigning a property the value it already has changes nothing |
| JsonValue.FromMembersWellFormed | scripts/update-system-metadata.ts:171 | the object `JSON.parse` builds from the members it reads has unique keys |
| JsonParsed.ParseWellFormed | scripts/update-system-metadata.ts:171 | every value `JSON.parse` returns has unique keys in every object, at every depth |
| JsonRoundTrip.ParseIntToDecimal | scripts/update-system-metadata.ts:192 | a number written by `JSON.stringify` is read back as the same integer |
| JsonRoundTrip.ParseEscapeBody | scripts/update-system-metadata.ts:192 | a string written with JSON escapes is read back as the same string |
| JsonRoundTrip.ParseStringify | scripts/update-system-metadata.ts:192 | every value with unique keys, written compact or indented with spaces, is read back as itself, followed by any text that cannot extend a number |
| JsonRoundTrip.ParseStringifyText | scripts/update-system-metadata.ts:171-192 | `JSON.parse(JSON.stringify(v, null, gap) + whitespace)` is `v` |
| JsonRoundTrip.ParsePrettyLine | scripts/update-system-metadata.ts:171-192 | a JSON file as the run writes it (two-space indent, then a newline) is read back by `JSON.parse` as the object written |
| MetadataSync.StampGet | scripts/update-system-metadata.ts:188-201 | a stamped record holds the checksum and the timestamp, and keeps every other property |
| MetadataSync.StampIdempotent | scripts/update-system-metadata.ts:188-201 | stamping again with the same checksum and timestamp changes nothing |
| MetadataSync.RestampKeepsChecksumInput | scripts/update-system-metadata.ts:180-191 | restamping an object with any timestamp leaves the text its checksum is taken over unchanged |
| MetadataSync.RestampedFixed | scripts/update-system-metadata.ts:180-191 | restamping an object that was already restamped, with the same timestamp, changes nothing |
| MetadataSync.JsonRegenerateSettles | scripts/update-system-metadata.ts:168-192 | regenerating a regenerated JSON file with the same timestamp gives it back unchanged |
| MetadataSync.MarkdownRegenerateSettles | scripts/update-system-metadata.ts:193-205 | a markdown file settles after two runs with the same timestamp, and after one if its body already has no leading whitespace and ends with a newline, provided no `>` occurs in its metadata |
| MetadataSync.UpdateSystemMetadata | scripts/update-system-metadata.ts:141-221 | the loop returns exactly the run as a function of the files before it (`Sync`): the summaries, the error and the files written |
| MetadataSync.ProcessFile | scripts/update-system-metadata.ts:152-217 | one pass of the loop body yields exactly the step the run is specified by (`FileStep`): the file's summary, and the files after any write. `FileResultMeaning` and `StepFrame` state what that step means |
| MetadataSync.FileResultMeaning | scripts/update-system-metadata.ts:151-217 | a summary is filtered out exactly when the filter excludes the file, and not found exactly when the file is included but missing. It is updated exactly when the regenerated text differs, and that text is then written. It needs no changes exactly when regeneration gives the file back. Errors come only from regenerating an included file that exists |
| MetadataSync.StepFrame | scripts/update-system-metadata.ts:210-216 | one step writes at most the file it handles, and only outside a dry run |
| MetadataSync.SyncFromSummaries | scripts/update-system-metadata.ts:149-220 | a completed loop adds one summary per entry, in order, each judged against the files before the loop |
| MetadataSync.SyncFromFailure | scripts/update-system-metadata.ts:168-208 | the loop fails exactly when some file's regeneration fails, with the first such file's error |
| MetadataSync.SyncFromFiles | scripts/update-system-metadata.ts:210-213 | after the loop each entry's file holds its regenerated text, or its old text in a dry run or when unchanged; no other file changes, and no file appears or disappears |
| MetadataSync.SyncSummaries | scripts/update-system-metadata.ts:149-220 | a completed run gives one summary per managed file, in registry order, with the file's path |
| MetadataSync.UnknownPathStopsRun | scripts/update-system-metadata.ts:143-147 | a filter that names an unmanaged path stops the run before any file is touched, naming exactly the unmanaged paths |
| MetadataSync.DryRunKeepsFiles | scripts/update-system-metadata.ts:211-213 | a dry run writes nothing |
| MetadataSync.DryRunReportsLikeRealRun | scripts/update-system-metadata.ts:210-217 | a dry run reports exactly what the real run would: the same summaries, or the same error |
| MetadataSync.RealRunWrites | scripts/update-system-metadata.ts:210-216 | after a completed real run, there is one summary per managed file. Each file reported updated holds its regenerated text, and every other file is as it was |
| MetadataSync.SettledFilesStay | scripts/update-system-metadata.ts:149-217 | when every existing file the filter lets through regenerates to itself, the run completes, reports nothing updated and writes nothing |
| MetadataSync.RealRunRegenerates | scripts/update-system-metadata.ts:165-213 | after a completed real run no file appears or disappears, and each existing file the filter lets through holds what regenerating its old text gives |
| MetadataSync.RunCompletes | scripts/update-system-metadata.ts:143-217 | with an accepted filter, the run completes when every existing file the filter lets through regenerates without an error |
| MetadataSync.FileSettles | scripts/update-system-metadata.ts:168-205 | regenerating a file twice with one timestamp reaches a text that regenerates to itself; a JSON file already after once |
| MetadataSync.RunsSettle | scripts/update-system-metadata.ts:141-221 | after a completed real run, a second run on the files it left completes, and a third run with the same timestamp completes, reports nothing updated and writes nothing |
| MetadataSync.JsonSettlesAfterOneRun | scripts/update-system-metadata.ts:168-192 | one real run keeps the set of files. After it, regenerating the JSON file with the same timestamp gives back what the run left |
| Api.ApiClient.constructor | app/client-desktop/src/api-client.ts:15-18 | the client takes the base URL and the token from its configuration |
| Api.ApiClient.SetAuthToken | app/client-desktop/src/api-client.ts:20-22 | replaces the token and nothing else; afterwards the headers carry `Authorization` exactly when the token is non-empty |
| Api.ApiClient.Headers | app/client-desktop/src/api-client.ts:24-32 | the headers always carry the JSON content type, and `Bearer <token>` exactly when a non-empty token is stored; nothing else |
| Api.ApiClient.StreamMessage | app/client-desktop/src/api-client.ts:149-188 | the loop yields exactly the events of the complete lines of the concatenated chunks; it fails first on a non-OK status, then on a missing body |
| Api.ApiClient.ReadChunk | app/client-desktop/src/api-client.ts:169-183 | after each read, the lines so far plus the buffer are the split of everything received; the buffer holds no newline; the events are those of the complete lines |
| Api.ApiClient.LineEvents | app/client-desktop/src/api-client.ts:173-183 | the events of one read's lines, in order: the parsed text after an exact `data: ` prefix, with lines that fail to parse skipped |
| Api.EventsOfAppend | app/client-desktop/src/api-client.ts:173-183 | the events of two runs of lines are the events of the first followed by those of the second |
| Api.PartialLineNeverYielded | app/client-desktop/src/api-client.ts:170-171 | text after the last newline never yields an event, however the stream ends |
| Api.FramedLines | app/client-desktop/src/api-client.ts:170-171 | newline-terminated lines are cut back into exactly those lines |
| Api.FramedStreamEvents | app/client-desktop/src/api-client.ts:161-183 | a stream of newline-terminated lines yields the events of those lines, in order, however it is chunked |
| Text.JoinSplit | app/client-desktop/src/api-client.ts:170 | joining the pieces of a split gives the text back |
| Text.SplitJoin | app/client-desktop/src/api-client.ts:170 | splitting joined pieces that hold no separator gives the pieces back |
| Text.SplitAppend | app/client-desktop/src/api-client.ts:169-171 | splitting an extended text keeps the complete pieces and re-splits the last one with the extension |
| Text.SplitPiecesHaveNoSep | app/client-desktop/src/api-client.ts:170-171 | no piece of a split holds the separator |
| Flags.ParseBooleanFlagSpellings | app/client-desktop/dist/utils/flags.js:6-8 | a flag is on exactly for the sixteen spellings of `true` with each letter in either case |
| Flags.ParseBooleanFlagCases | app/client-desktop/dist/utils/flags.js:6-8 | unset and empty values are off, and so are `1`, `yes` and a padded `true`; `true`, `TRUE` and `True` are on |
| Flags.PreloadAgreesWithParseBooleanFlag | app/client-desktop/src/preload.ts:6-7 | the flags the preload script computes inline agree with `parseBooleanFlag` on every environment |

## Left out

- File I/O: `access`, `readFile` and `writeFile` become lookups and updates in a map of contents. Their own failures (permissions, a path that is a directory) are not modelled.
- `path.resolve(rootDir, …)`: paths stay relative to the root directory.
- `createChecksum`: SHA-256 is the parameter `hash`, and nothing is assumed about it.
- The clock: `new Date().toISOString()` is read once per run, as the parameter `now`. The script reads it once per file, so the model does not capture two files of one run getting different timestamps.
- `localeCompare` is replaced by the lexicographic order of code points, a fixed total order. Locale-specific collation is not modelled.
- JavaScript places integer-like keys first in an object's own property order. This is not modelled: objects keep insertion order.
- `__proto__` keys, which `JSON.parse` defines as own properties but assignment treats specially, are not modelled.
- Numbers are integers; a fraction or an exponent is refused by the model parser, and floating point is left out. As a consequence:
  - a stream line `data: {"p":0.5}` is yielded by `streamMessage` (api-client.ts:176-178) but skipped by `LineEvents`;
  - a managed JSON file holding a fraction or an exponent is rewritten by the script but gets `UnparsableJson` in the model;
  - integers beyond 2^53, which `JSON.parse` rounds to the nearest double, are kept exact by the model.
- `\u` escapes that denote lone surrogates are refused: Dafny characters are Unicode scalar values.
- `runFromCli`: console output, `process.argv` and the exit code are I/O.
- The `Unsupported file kind` error cannot occur with the fixed registry, which has only JSON and markdown kinds, so it is not modelled.
- MarkdownBlock.RemoveComposed: proved only for metadata in which no `>` occurs. The script reads its own block back correctly unless a string in the metadata holds a `}` followed by whitespace and `-->`, so metadata with any other `>` is read back too, but the model does not cover it. MetadataSync.RegenerateComposed carries the same restriction.
- MetadataSync.FileSettles and MetadataSync.RunsSettle: proved under the same condition, for the existing metadata of the markdown files, the timestamp and every checksum (a hexadecimal SHA-256 digest never holds `>`).
- MetadataSync.MarkdownRegenerateSettles: proved only when no `>` occurs in the existing metadata, the timestamp or any checksum. A `>` inside the metadata could end the lazy match early; that case is not covered.
- The `i` flag of the metadata regular expression is modelled by lower-casing ASCII letters only, which is exact for the ASCII pattern `metadata:` without the `u` flag.
- `toLowerCase` in `parseBooleanFlag` is modelled by lower-casing ASCII letters only. This is exact for the comparison with `true`, because no other character lower-cases to `t`, `r`, `u` or `e`. The result of `toLowerCase` on other strings is not modelled.
- Non-string arguments to `parseBooleanFlag`, such as numbers or objects passed through `String(...)`, are not modelled. The model takes an optional string, which is what `process.env` supplies.
- `TextDecoder`: chunks are already decoded text. A multi-byte character split across chunks is not modelled.
- `fetch`, reader errors and `releaseLock` are not modelled. `Response` holds the status and the chunks.
- The laziness of the async generator: `StreamMessage` returns all events at once.
- The `console.error` call for a line that fails to parse is not modelled; the line is skipped.
- The REST wrappers of `ApiClient` (`getWorkspaces` and the rest) are left out: each is a single `fetch` with `getHeaders()`.
- `path.isAbsolute` is modelled for POSIX only (a leading `/`). Windows drive letters and UNC paths are not modelled.
