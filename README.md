# xlsConvert order conversion — a Dafny model

xlsConvert turns the rows of a spreadsheet into normalised shipping-order records. Each
record has a recipient name, phone and address, a product name and spec, a quantity,
remarks and a group id. This project models the core of `src-tauri/src/excel.rs`:

- **Column letters.** `index_to_column_code` writes a 0-based column index as bijective
  base-26 letters (`ColumnCode`).
- **Cell decoding.** `cell_to_string` and `get_cell` turn a cell into text. The header
  description of `read_columns` is built from the first row (`Cells`).
- **The operation engine.** `apply_operation` combines the values of several source
  columns under `concat`, `add`, `subtract`, `multiply` or `divide` (`Operations`).
- **The row converter.** `read_and_convert_with_mapping` skips the header row, applies the
  user's mapping table to every later row, and drops rows with no name, phone or address
  (`Records`).
- **The sort and the duplicate grouper.**
  - Records are sorted by the key (name, phone, address) with a stable sort (`KeyOrder`).
  - Every key that occurs at least twice gets a group id: 1, 2, 3, … in the order the walk
    over the sorted rows first meets it.
  - `duplicate_count`, `has_duplicates` and `total_rows` are computed (`Grouping`).
- **The duplicate merger.** `merge_duplicates` collapses each key's rows into one order
  (`Merge`):
  - Keys come out in the order they first occur.
  - Product names, specs and remarks keep their distinct non-empty values, joined with the
    full-width semicolon "；".
  - The quantity is one "1" per product when there are several products, and the sum of
    the parsed quantities otherwise.

Supporting modules:

- `Text` models decimal rendering, the `usize` and `f64` parsers, and `join`.
- `Scenarios` proves worked examples on concrete rows.

The spreadsheet is an explicit sequence of rows, each a sequence of cells. The mapping table
is a map from field name to mapping, as in the source (`HashMap<String, ColumnMapping>`).
Names that are not one of the seven fields may therefore occur, and they are ignored.

Loops of the source are methods with loop invariants, each proved against a specification
function:

| method | specification |
|---|---|
| `IndexToColumnCode` | `Code` |
| `ReadHeader` | per column |
| `BuildRow`, `ConvertRows` | `ConvertRow`, `Records` |
| `CountKeys` | `CountKey` |
| `AssignGroups` | `Tagged` and `DuplicateCount` |
| `GroupRows`, `TallyGroup`, `CombineGroup`, `MergeDuplicates` | `FirstKeys`, `RowsWithKey`, `DistinctValues`, `QuantityTotal`, `CombinedRow`, `MergedRows` |

The properties of the source are lemmas about those functions.

## Model

| member | source | states |
|---|---|---|
| ColumnCode.Code | src-tauri/src/excel.rs:64-73 | the code of every column index is a non-empty string of letters 'A'..'Z' |
| ColumnCode.IndexToColumnCode | src-tauri/src/excel.rs:64-73 | the prepend-a-letter loop, with the `n / 26 - 1` step, computes exactly `Code(index)` |
| ColumnCode.OrdinalOfCode | src-tauri/src/excel.rs:64-73 | reading a code back in bijective base 26 (A = 1 … Z = 26) gives index + 1 |
| ColumnCode.CodeOfOrdinal | src-tauri/src/excel.rs:64-73 | every non-empty run of capital letters is the code of the column it reads back to, so the encoding is onto |
| ColumnCode.CodeInjective | src-tauri/src/excel.rs:64-73 | distinct columns get distinct codes |
| ColumnCode.CodeExamples | src-tauri/src/excel.rs:64-73 | 0 → "A", 25 → "Z", 26 → "AA" (not "BA"), 27 → "AB", 701 → "ZZ", 702 → "AAA" |
| Text.NatToString | src-tauri/src/excel.rs:263 | the decimal rendering of a `usize` is non-empty digits with no leading zero unless the value is 0 |
| Text.NatToStringRoundTrip | src-tauri/src/excel.rs:263 | the digits of a rendering read back to the number rendered |
| Text.NatToStringInjective | src-tauri/src/excel.rs:263 | different numbers render differently |
| Text.ParseUsize | src-tauri/src/excel.rs:252 | a successful `usize` parse yields a value no larger than 2^64 - 1 |
| Text.ParseUsizeRoundTrip | src-tauri/src/excel.rs:252-263 | `n.to_string().parse::<usize>()` gives back `n` for every `usize` |
| Text.IntToStringReadsBack | src-tauri/src/excel.rs:104-114 | the rendering of any integer parses, as a float, to that integer |
| Text.NatToStringReadsBack | src-tauri/src/excel.rs:104 | the rendering of a natural number parses as an unsigned decimal to that number |
| Text.NotANumber | src-tauri/src/excel.rs:104 | text starting with neither a sign, a digit nor a point does not parse as a float |
| Text.IntToStringHasNoPoint | src-tauri/src/excel.rs:43-45 | an integer rendering never contains a decimal point |
| Text.JoinWithoutSeparator | src-tauri/src/excel.rs:102 | `join("")` is plain concatenation of the values in order |
| Cells.SaturateI64 | src-tauri/src/excel.rs:45 | `as i64` leaves a value inside the `i64` range unchanged |
| Cells.SaturationChangesLargeWholeNumbers | src-tauri/src/excel.rs:44-45 | as written, the whole float 10^19 renders as i64::MAX, text that reads back as a different number |
| Cells.RenderNumber | src-tauri/src/excel.rs:44-48 | a whole number renders without a decimal point and reads back as itself; any other number goes through `Display` |
| Cells.RenderingsAgreeInRange | src-tauri/src/excel.rs:44-48 | inside the `i64` range the written and the corrected renderings are the same |
| Cells.CellToString | src-tauri/src/excel.rs:39-58 | text cells decode to their text and empty cells to ""; an integer cell, or a float cell holding a whole number, decodes to point-free text that parses back to its value (for floats, by the corrected rendering: see Findings); any other float goes through `Display` |
| Cells.GetCell | src-tauri/src/excel.rs:60-62 | an index past the end of the row gives "", any other index the decoded cell |
| Cells.ReadHeader | src-tauri/src/excel.rs:84-93 | one column per header cell, with its index, its letter code and its decoded title |
| Cells.HeaderCodesDistinct | src-tauri/src/excel.rs:86-89 | the header columns have pairwise distinct letter codes |
| Operations.Numbers | src-tauri/src/excel.rs:104 | the parsed numbers are empty exactly when no value parses as a float |
| Operations.ApplyOperation | src-tauri/src/excel.rs:98-117 | no values give ""; "concat" and every non-arithmetic name join the values in order; an arithmetic operator with no parsable value gives "" |
| Operations.Product | src-tauri/src/excel.rs:110-111 | the product of numbers none of which is 0 is not 0, so dividing by it is defined |
| Operations.ArithmeticResult | src-tauri/src/excel.rs:103-114 | with at least one parsable value, "add" renders the sum of the parsed numbers, "subtract" the first minus the sum of the rest, "multiply" their product, and "divide" the first over the product of the later non-zero ones |
| Operations.ConcatenatesInOrder | src-tauri/src/excel.rs:101-116 | "concat" and unknown operators give the concatenation of the values in order |
| Operations.SubtractIsFirstMinusRest | src-tauri/src/excel.rs:109 | the `subtract` fold is the first number minus the sum of the rest |
| Operations.DivideSkipsZeros | src-tauri/src/excel.rs:111 | the `divide` fold is the first number divided by the product of the later non-zero numbers |
| Operations.SingleNumberPassesThrough | src-tauri/src/excel.rs:103-114 | when exactly one value parses, every arithmetic operator renders that number |
| Operations.IntegerPassesThrough | src-tauri/src/excel.rs:98-117 | with the corrected rendering, a single integer value comes out unchanged under every operator name; as written this holds only inside the `i64` range (see Findings) |
| Operations.AddExampleNumbers | src-tauri/src/excel.rs:104 | ["12", "n/a", "30"] parse to [12, 30] |
| Operations.AddExample | src-tauri/src/excel.rs:108 | "add" over ["12", "n/a", "30"] gives "42" |
| Operations.SubtractExampleNumbers | src-tauri/src/excel.rs:104 | ["10", "4", "1"] parse to [10, 4, 1] |
| Operations.SubtractExample | src-tauri/src/excel.rs:109 | "subtract" over ["10", "4", "1"] gives "5" |
| Operations.DivideExampleNumbers | src-tauri/src/excel.rs:104 | ["8", "0", "2"] parse to [8, 0, 2] |
| Operations.DivideExample | src-tauri/src/excel.rs:111 | "divide" over ["8", "0", "2"] skips the zero and gives "4" |
| Operations.UnknownOperatorExample | src-tauri/src/excel.rs:116 | the unknown operator "merge" concatenates "Bei" and "jing" |
| Records.Gather | src-tauri/src/excel.rs:148 | one decoded value per listed source index, in the listed order |
| Records.FieldOf | src-tauri/src/excel.rs:151-160 | a name designates the field spelled that way, and any other name designates none |
| Records.Set | src-tauri/src/excel.rs:151-159 | assigning a field changes that field only |
| Records.BuildRow | src-tauri/src/excel.rs:136-161 | the mapping loop over a row builds `ConvertRow`, whatever order the table's entries are visited in |
| Records.UnmappedFieldsKeepDefaults | src-tauri/src/excel.rs:136-145 | a field with no mapping keeps its default: quantity "1", every other field "" |
| Records.UnknownNamesIgnored | src-tauri/src/excel.rs:160 | adding a table entry whose name is not a field leaves every converted row unchanged |
| Records.DataRows | src-tauri/src/excel.rs:133-134 | the data rows are the conversions of every sheet row after row 0, in order |
| Records.ConvertRows | src-tauri/src/excel.rs:131-168 | the row loop returns exactly `Records`: the converted data rows that have an identity, in sheet order |
| Records.KeepIdentifiedExact | src-tauri/src/excel.rs:163-167 | a row is kept exactly when its name, phone or address is non-empty |
| Records.RecordsSoundAndComplete | src-tauri/src/excel.rs:133-167 | every emitted record has an identity, group id 0 and comes from a data row; every data row whose conversion has an identity is emitted |
| Records.HeaderIgnored | src-tauri/src/excel.rs:133-134 | replacing the header row changes no record |
| KeyOrder.StrLtIrreflexive | src-tauri/src/excel.rs:170-174 | no string sorts before itself |
| KeyOrder.StrLtTransitive | src-tauri/src/excel.rs:170-174 | string order is transitive |
| KeyOrder.StrLtTotal | src-tauri/src/excel.rs:170-174 | any two different strings are ordered one way or the other |
| KeyOrder.StrLtAsymmetric | src-tauri/src/excel.rs:170-174 | string order is asymmetric |
| KeyOrder.KeyLtIrreflexive | src-tauri/src/excel.rs:170-174 | no key sorts before itself |
| KeyOrder.KeyLtAsymmetric | src-tauri/src/excel.rs:170-174 | the (name, phone, address) order is asymmetric |
| KeyOrder.KeyLtTransitive | src-tauri/src/excel.rs:170-174 | the (name, phone, address) order is transitive |
| KeyOrder.KeyLtTotal | src-tauri/src/excel.rs:170-174 | any two different keys are ordered one way or the other |
| KeyOrder.RowsWithKeyAppend | src-tauri/src/excel.rs:176-180 | the rows of a key in a concatenation are those of each part, in order |
| KeyOrder.RowsWithKeyMembers | src-tauri/src/excel.rs:176-180 | the rows of a key are exactly the rows with that key |
| KeyOrder.CountKeyPositive | src-tauri/src/excel.rs:176-180 | a key is counted at least once exactly when some row has it |
| KeyOrder.Insert | src-tauri/src/excel.rs:170-174 | inserting adds one row, at the front or after the first row |
| KeyOrder.SortByKey | src-tauri/src/excel.rs:170-174 | the sort keeps the number of rows |
| KeyOrder.InsertSorted | src-tauri/src/excel.rs:170-174 | inserting into a sorted sequence keeps it sorted |
| KeyOrder.SortByKeySorted | src-tauri/src/excel.rs:170-174 | the sorted rows are in ascending (name, phone, address) order |
| KeyOrder.InsertPermutes | src-tauri/src/excel.rs:170-174 | inserting adds exactly the one row |
| KeyOrder.SortByKeyPermutes | src-tauri/src/excel.rs:170-174 | the sorted rows are a permutation of the records |
| KeyOrder.InsertKeepsKeyOrder | src-tauri/src/excel.rs:170-174 | inserting keeps the relative order of the rows of every key |
| KeyOrder.SortByKeyStable | src-tauri/src/excel.rs:170-174 | the sort is stable: the rows of each key keep their input order |
| KeyOrder.SortedAllPairs | src-tauri/src/excel.rs:170-174 | in the sorted rows no later row has a smaller key than an earlier one |
| KeyOrder.EqualKeysAdjacent | src-tauri/src/excel.rs:170-174 | in the sorted rows the rows of a key are contiguous |
| Grouping.CountKeys | src-tauri/src/excel.rs:176-180 | `key_count` holds exactly the keys that occur, each with its number of rows |
| Grouping.IndexOf | src-tauri/src/excel.rs:187-193 | the position found holds the key and no earlier position does |
| Grouping.DupKeysMembers | src-tauri/src/excel.rs:184-196 | a key has been given an id after a stretch of the walk exactly when the walk has met it and it occurs at least twice overall; no key gets two ids |
| Grouping.WalkMeaning | src-tauri/src/excel.rs:182-199 | after n rows the walk has tagged them by `Tagged`, `group_map` maps each duplicated key met to its position + 1, `next_group_id` is one more than their number, and `duplicate_count` adds up their counts |
| Grouping.AssignGroups | src-tauri/src/excel.rs:182-199 | the walk over `&mut rows` sets every row to `Tagged` and leaves `duplicate_count` equal to `DuplicateCount` |
| Grouping.GroupIdRange | src-tauri/src/excel.rs:186-197 | a row's group id is positive exactly when its key occurs at least twice; it is at most the number of duplicated keys; nothing but the id changes |
| Grouping.SameKeySameId | src-tauri/src/excel.rs:187-196 | rows with equal keys share a group id |
| Grouping.DistinctKeysDistinctIds | src-tauri/src/excel.rs:187-196 | rows with different keys never share a non-zero group id |
| Grouping.IdsCoverRange | src-tauri/src/excel.rs:187-196 | every id from 1 to the number of duplicated keys is given to some row |
| Grouping.FirstReachId | src-tauri/src/excel.rs:187-195 | at the first row of a duplicated key, the id given is one more than the number of duplicated keys met before |
| Grouping.FirstReachOrder | src-tauri/src/excel.rs:187-195 | of two duplicated keys, the one the walk reaches first has the smaller id |
| Grouping.DuplicateCountIsRowsInGroups | src-tauri/src/excel.rs:184-203 | `duplicate_count` is the number of rows whose key occurs at least twice |
| Grouping.HasDuplicatesIff | src-tauri/src/excel.rs:201 | `has_duplicates` holds exactly when some key occurs at least twice |
| Grouping.ConvertedRowsMeaning | src-tauri/src/excel.rs:131-203 | the returned rows are in key order and, with their group ids cleared, are exactly the sorted records, so a permutation of the records |
| Grouping.TaggedCleared | src-tauri/src/excel.rs:182-199 | tagging changes nothing but the group id, so it keeps key order |
| Grouping.ConvertWithMapping | src-tauri/src/excel.rs:131-203 | the rows returned are the records sorted by key and tagged with their group ids, in key order, and with ids cleared a permutation of the records; `duplicate_count` is the count over the sorted rows; `total_rows` is the number of rows; `has_duplicates` iff `duplicate_count > 0` |
| Merge.WrapAdd | src-tauri/src/excel.rs:253 | a `usize` addition stays below 2^64 and is exact when the true sum fits |
| Merge.WrappingSum | src-tauri/src/excel.rs:242-253 | the running `usize` total stays below 2^64 |
| Merge.Ones | src-tauri/src/excel.rs:261 | one "1" per product name |
| Merge.PushDistinct | src-tauri/src/excel.rs:246-255 | a value is appended exactly when it is non-empty and not yet listed |
| Merge.TallyGroup | src-tauri/src/excel.rs:240-257 | the inner loop leaves the distinct product names, specs and remarks of the group and its wrapping quantity total |
| Merge.CombineGroup | src-tauri/src/excel.rs:239-275 | a group of two or more rows becomes `CombinedRow`: its key, the three joined value lists, the quantity rule and group id 0 |
| Merge.FirstKeysMembers | src-tauri/src/excel.rs:222-226 | `group_order` lists exactly the keys that occur, none twice |
| Merge.GroupRows | src-tauri/src/excel.rs:219-228 | the first loop leaves `group_order` as the keys in first-occurrence order and `groups[k]` as the rows of key k in input order |
| Merge.MergeDuplicates | src-tauri/src/excel.rs:217-280 | the result is `MergedRows`: one merged row per key of `group_order`, in that order |
| Merge.DistinctValuesMembers | src-tauri/src/excel.rs:246-255 | a value is listed exactly when it is non-empty and held by some row of the group, and none twice |
| Merge.DistinctValuesAt | src-tauri/src/excel.rs:245-255 | a non-empty value first held at row a takes the position after the values listed before a |
| Merge.DistinctValuesOrder | src-tauri/src/excel.rs:245-255 | of two values, the one first held earlier in the group is listed first |
| Merge.WrappingSumNoWrap | src-tauri/src/excel.rs:253 | without overflow the `usize` total is the plain sum |
| Merge.QuantityTotalNoWrap | src-tauri/src/excel.rs:252-253 | a group's total is the plain sum of its parsed quantities (1 for unparsable text) whenever that fits in a `usize` |
| Merge.MergedQuantityReadsBack | src-tauri/src/excel.rs:259-264 | with at most one product name the merged quantity parses back to the total; with several it is "1" per name joined by "；" |
| Merge.MergedKeys | src-tauri/src/excel.rs:232-275 | one output row per distinct key, in first-occurrence order, each with its key and group id 0 |
| Merge.OneRowPerKey | src-tauri/src/excel.rs:219-237 | every key of the input occurs in the output, exactly once, and no other key does |
| Merge.FirstKeysAt | src-tauri/src/excel.rs:222-226 | a key first met at row a takes the position after the keys met before a |
| Merge.FirstOccurrenceOrder | src-tauri/src/excel.rs:217-232 | of two keys, the one occurring first in the input comes first in the output |
| Merge.SingleRowUnchanged | src-tauri/src/excel.rs:234-237 | a key held by one row yields that row with only its group id cleared |
| Merge.FirstKeysOfDistinct | src-tauri/src/excel.rs:222-226 | when all keys are distinct, `group_order` is the keys in input order |
| Merge.RowsWithUniqueKey | src-tauri/src/excel.rs:227 | when all keys are distinct, each group holds just its own row |
| Merge.DistinctRowsUnchanged | src-tauri/src/excel.rs:217-237 | rows with distinct keys come through unchanged apart from group ids cleared to 0 |
| Merge.MergeIdempotent | src-tauri/src/excel.rs:217-280 | merging the merged rows again changes nothing |
| Merge.Qty | src-tauri/src/excel.rs:252 | the parsed `usize` when the quantity text parses, 1 when it does not; never above 2^64 - 1 |
| Merge.QtyReadsBack | src-tauri/src/excel.rs:252 | a quantity rendered from a `usize` parses back to that number |
| Scenarios.ExampleSorted | src-tauri/src/excel.rs:170-174 | keys A, B, A sort to A, A, B |
| Scenarios.ExampleCounts | src-tauri/src/excel.rs:176-180 | in A, A, B key A is counted twice and key B once |
| Scenarios.ExampleDupKeys | src-tauri/src/excel.rs:182-199 | in A, A, B only key A is duplicated |
| Scenarios.GroupingExample | src-tauri/src/excel.rs:170-203 | for rows A, B, A the two A rows sort together and get id 1, B keeps 0, and `duplicate_count` is 2 |
| Scenarios.PairGroup | src-tauri/src/excel.rs:219-237 | two rows of one key form one group that merges into one combined row |
| Scenarios.PairValues | src-tauri/src/excel.rs:246-255 | the distinct non-empty values of a field over two rows |
| Scenarios.TwoProductsValues | src-tauri/src/excel.rs:246-255 | "Widget" and "Gadget" rows list both names, no spec and no remark |
| Scenarios.TwoUnits | src-tauri/src/excel.rs:261 | two products give the quantity "1；1" |
| Scenarios.MergeTwoProductsExample | src-tauri/src/excel.rs:239-275 | Widget ×2 and Gadget ×3 for one recipient merge into "Widget；Gadget" with quantity "1；1" |
| Scenarios.SameProductTotal | src-tauri/src/excel.rs:252-253 | quantities "2" and "3" add up to 5 |
| Scenarios.MergeSameProductExample | src-tauri/src/excel.rs:239-275 | Widget ×2 and Widget ×3 for one recipient merge into "Widget" with quantity "5" |

## Left out

- Workbook input and output are not modelled. That covers `open_workbook`, `sheet_names`,
  `worksheet_range`, their error messages, and `write_output`. They are library calls; the
  model takes the first sheet as a sequence of rows of cells.
- `read_columns` is modelled only from its first row onwards (`Cells.ReadHeader`). The
  `println!` debug lines are left out.
- `read_and_convert` is not modelled. It only passes a fixed mapping table to the converter.
- `src-tauri/src/lib.rs` and the front end are not part of this model. They are command
  plumbing, a mutex-guarded session slot and user interface.
- Floating point is not modelled bit for bit. An `f64` is an exact `real`: there is no
  rounding in parsing, in the arithmetic operators, in `sum` or in `product`.
- Rust's `Display` for a float that is not a whole number is library code. The caller passes
  it in as a `FloatFormat` function.
- `Text.ParseFloat` accepts plain decimal text only: a sign, digits and a point. Exponents,
  "inf", "nan" and "infinity", which Rust's parser also accepts, are treated as unparsable.
- Cells.CellToString: date-time and error cells carry the text their library formatting
  gives them. A boolean prints as "true" or "false".
- Cells.CellToString: a float cell holding a whole number outside the `i64` range prints
  in full. The source saturates it at i64::MAX or i64::MIN (see Findings).
- Operations.ApplyOperation: a whole result outside the `i64` range prints in full. The
  source saturates it at i64::MAX or i64::MIN (see Findings).
- `Operations.Combine` has a final "anything else gives 0.0" case. It mirrors the source's
  inner fallback, which an arithmetic operator never reaches.
- The order in which the mapping loop visits the table is not fixed (`HashMap` iteration).
  `Records.BuildRow` picks entries in arbitrary order and is proved correct for every order.
- `KeyOrder.SortByKey` models the library's stable `sort_by` as a stable insertion sort on
  a sequence value, rather than as an in-place sort of the vector. Its sortedness,
  permutation and stability are proved.
- Merge.WrappingSum: the quantity total wraps modulo 2^64, which is what a release build
  does. A debug build panics on overflow instead, and that is not modelled.
- Grouping.AssignGroups: `next_group_id` and `duplicate_count` are unbounded. They can
  exceed `usize` only with more than 2^64 rows.
- The `group_map` entry API is modelled as a look-up followed by an insert of the next id.

## Findings

| source | as written | input that shows it | evidently intended | confidence | as-written member | corrected member |
|---|---|---|---|---|---|---|
| src-tauri/src/excel.rs:44-45 | a whole float is printed through `*f as i64`, which saturates at i64::MAX | a numeric cell holding 10^19, e.g. a long identifier stored as a number, prints as "9223372036854775807" | print the whole number in full without a decimal point, as the comment about phone numbers says | not executed | Cells.SaturationChangesLargeWholeNumbers | Cells.RenderNumber |

The same cast is used for arithmetic results at `src-tauri/src/excel.rs:114`.
`Operations.ApplyOperation` renders through the corrected `Cells.RenderNumber`.
`Cells.RenderingsAgreeInRange` proves the two renderings agree on the whole `i64` range.
