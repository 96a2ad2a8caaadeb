# Store clustering: CSV import and cluster merge

A model of the data path of a small store-mapping tool. An uploaded CSV text is
parsed into store records (`parseCsv`). The server action `getClusters` then
asks a clustering flow, a prompt to a language model, for clusters of store
ids. It stamps each known record with the zero-based position of the cluster
that lists its id.

Modules, one per source file or concern:

- `Wrappers`: `Option` and `Result`.
- `Text`: the JavaScript built-ins the parser uses. `trim` removes the
  ECMAScript whitespace and line-terminator set. `split` takes a one-character
  separator; `Join` is its inverse. `toLowerCase` is modelled as far as it can
  produce ASCII. `indexOf` gives the first match or -1.
- `Types`: the `Store` record (src/types/index.ts). The field `type` is named
  `storeType` here, because `type` is a Dafny keyword.
- `CsvParser`: `parseCsv` as pure functions. The thrown missing-column error is
  an `Err` result. `parseFloat` is a parameter `parseNum: string -> Option<real>`,
  where `None` stands for NaN; its behaviour is not interpreted.
- `Actions`: `getClusters`. The outcome of the clustering flow is an input,
  `Result<seq<AiCluster>, Thrown>`: `Err` is the value the flow threw. The
  `Map` built from the parsed records is the function `StoreMap`. The two nested
  `forEach` loops are the method `CollectClustered`, proved equal to the
  function `MergeClusters`.

Behaviour of the code worth knowing when reading the model:

- The tool has no numeric clustering. It sends the text to a language-model
  prompt and only merges the ids it returns, so no k-means is modelled.
- `working_hours` is required like the other five columns.
- Only NaN coordinates are dropped; an infinite number is kept.
- Duplicate ids collapse to the last record in the `Map`, which is emitted once
  per listing of the id.
- The parser never produces the type `dark store`, although the record type
  allows it.

## Model

| member | source | states |
|---|---|---|
| `Text.Trim` | src/lib/csv-parser.ts:4 | the result is the infix of the input that starts at the first non-whitespace character, with only whitespace before and after it, and it neither starts nor ends with whitespace |
| `Text.Split` | src/lib/csv-parser.ts:4 | at least one piece; no piece contains the separator; joining the pieces with the separator gives the input back |
| `Text.SplitJoin` | src/lib/csv-parser.ts:23 | splitting a join of separator-free pieces gives the pieces back |
| `Text.SplitSingle` | src/lib/csv-parser.ts:4-5 | a text splits into exactly one piece if and only if it has no separator |
| `Text.TrimToLower` | src/lib/csv-parser.ts:30 | trimming and lower-casing commute |
| `Text.IndexOf` | src/lib/csv-parser.ts:10-15 | -1 exactly when the name is absent; otherwise the position of its first occurrence |
| `Text.LowerChar` | src/lib/csv-parser.ts:30 | `A`..`Z` become the matching lower-case letter, the Kelvin sign becomes `k`, every other character is unchanged; hence no upper-case ASCII letter comes out, an ASCII lower-case letter comes out exactly from an ASCII letter or the Kelvin sign, and whitespace stays whitespace |
| `Text.ToLower` | src/lib/csv-parser.ts:30 | same length as the input, each character lower-cased by `Text.LowerChar`, no upper-case ASCII letter left |
| `Text.ToLowerMatchesWord` | src/lib/csv-parser.ts:30 | a text lower-cases to a word of ASCII lower-case letters exactly when it spells the word letter by letter in either ASCII case (or with the Kelvin sign for `k`) |
| `CsvParser.Lines` | src/lib/csv-parser.ts:4 | at least one line; no line contains `\n`; joining the lines with `\n` gives the trimmed payload back |
| `CsvParser.HeaderCells` | src/lib/csv-parser.ts:9 | one cell per comma-separated piece of the first line; cell k is the k-th piece trimmed |
| `CsvParser.HeaderCellsTrimmed` | src/lib/csv-parser.ts:9 | no header cell starts or ends with whitespace |
| `CsvParser.ResolveColumns` | src/lib/csv-parser.ts:9-20 | fails exactly when one of the six required names is missing; otherwise gives each name's first position and the header width |
| `CsvParser.NormaliseType` | src/lib/csv-parser.ts:30-35 | `supermarket` or `express` exactly when the trimmed, lower-cased field is that word; `default` for anything else; never `dark store` |
| `CsvParser.NormaliseTypeSpelling` | src/lib/csv-parser.ts:30-35 | `supermarket` or `express` exactly when the trimmed field spells that word in any ASCII case, so `" SuperMarket\r"` is a supermarket |
| `CsvParser.NormaliseTypeIgnoresCase` | src/lib/csv-parser.ts:30 | two fields that agree after lower-casing get the same type |
| `CsvParser.NormaliseTypeIgnoresPadding` | src/lib/csv-parser.ts:30 | surrounding whitespace does not change the type |
| `CsvParser.ParseLine` | src/lib/csv-parser.ts:23-46 | a record comes only from a line with the header's field count, and has no `clusterId` and a type other than `dark store`; see `CsvParser.ParseLineAgrees` for the exact condition |
| `CsvParser.FilterMap` | src/lib/csv-parser.ts:22-47 | at most one value per input; one per input when every input gives a value; none when no input does; see `CsvParser.FilterMapSelection` for order |
| `CsvParser.FilterMapSelection` | src/lib/csv-parser.ts:22-47 | the result of map-then-filter is an order-preserving selection of the inputs that give a value; every other input gives none |
| `CsvParser.ParseLineAgrees` | src/lib/csv-parser.ts:23-46 | a line gives a record exactly when its field count matches the header's and both coordinates parse; the record holds the trimmed fields, the normalised type and the parsed coordinates, with no cluster |
| `CsvParser.ParseCsv` | src/lib/csv-parser.ts:3-48 | the only error is the missing-column message; a successful parse has at most one record per data line |
| `CsvParser.ShortPayloadYieldsNoRecords` | src/lib/csv-parser.ts:4-7 | a payload with no line break after trimming gives no records and no error |
| `CsvParser.MissingColumnIsSchemaError` | src/lib/csv-parser.ts:9-20 | with a data line present, parsing fails if and only if a required column is missing from the trimmed header cells, whatever the data lines hold |
| `CsvParser.ParseCsvSelectsDataLines` | src/lib/csv-parser.ts:22-47 | the records are an order-preserving selection of the data lines; each record describes its line through the first header position of each column; every dropped line is malformed or has a NaN coordinate |
| `CsvParser.ParsedRecordsAreUnclustered` | src/lib/csv-parser.ts:32-39 | parsed records have no `clusterId` and are never typed `dark store` |
| `Actions.ErrorMessage` | src/app/actions.ts:37 | an `Error` gives its message; any other thrown value gives the fixed unknown-error message |
| `Actions.StoreMap` | src/app/actions.ts:22 | every key maps to a record carrying that id |
| `Actions.StoreMapLastWins` | src/app/actions.ts:22 | each parsed id is a key, mapped to the last parsed record with that id |
| `Actions.StoreMapValueIsLast` | src/app/actions.ts:22 | every map value is the last parsed record with its id |
| `Actions.AssignCluster` | src/app/actions.ts:26-31 | at most one record per listed id, each carrying the cluster's position; see `Actions.AssignClusterRecords` |
| `Actions.MergeClusters` | src/app/actions.ts:25-32 | every record carries a `clusterId` in [0, number of clusters); see `Actions.MergedRecords` and `Actions.MergeClusterMembers` |
| `Actions.AssignClusterRecords` | src/app/actions.ts:26-30 | each record emitted for one cluster carries that cluster's position, a listed id and that id's record |
| `Actions.MergedRecords` | src/app/actions.ts:25-32 | every output record has a `clusterId` in [0, number of clusters); that cluster lists its id; the id is known; apart from `clusterId` the record is the map's record |
| `Actions.MergeFollowsClusterOrder` | src/app/actions.ts:25-32 | cluster positions never decrease along the output |
| `Actions.MergeClusterMembers` | src/app/actions.ts:25-32 | the ids placed in cluster c are exactly the known ids that cluster lists, in its order and with repetitions; unlisted stores are absent |
| `Actions.ClusteredRecordIsLastParsed` | src/app/actions.ts:22-32 | every output record is the last parsed record with its id, with `clusterId` set to a position whose cluster lists the id |
| `Actions.CollectClustered` | src/app/actions.ts:23-32 | the nested loops build exactly `MergeClusters` of the map and the clusters |
| `Actions.GetClusters` | src/app/actions.ts:7-40 | a parse error or a throw from the flow gives no stores and the thrown message; an empty parse gives no stores and the no-data message; otherwise the merged records and no error |

## Left out

- The clustering flow (src/ai/flows/cluster-stores.ts) is a prompt to a language model. Its outcome is an input to `Actions.GetClusters`. Anything the flow throws, including on a null output, is caught at src/app/actions.ts:35-38 and reported by its message; that is `Err(ErrorObject(message))` here.
- `numClusters` is only passed to the clustering flow, so `Actions.GetClusters` has no such parameter.
- The centroid coordinates an `AiCluster` carries are kept but never read, as in the code.
- `parseFloat` and `isNaN`: the parse is a parameter. Nothing about numeric prefixes, exponents or infinities is modelled.
- Text.LowerChar: maps only the characters whose lower case is ASCII (`A`..`Z`, and the Kelvin sign to `k`), leaving all other characters unchanged. This is exact for the one use, comparison with `supermarket` and `express`, and weaker than `toLowerCase` elsewhere.
- Text.ToLower: applies `Text.LowerChar` to each character, so it has the same limit.
- JavaScript strings are UTF-16 code units. The model's strings are sequences of Unicode scalar values.
- `console.warn` and `console.error` logging, `async`/`await` and the server-action boundary.
- The React UI, form validation (the 5..10 cluster bound), toasts and the map view's floating-point positioning and colours.
