# ArrayHelpers in Dafny

A model of the core of the PHP library **Simbiat/ArrayHelpers**, with proofs about it. The library is a set of static helpers over PHP arrays:

- **Splitters:** `topAndBottom`, `splitByKey`.
- **Editors:** `DigitToKey`, `ColumnsConversion`, `RemoveByValue`, `moveToSubarray`, `setKeyPath`, `renameColumn`.
- **Sorters:** `multiArrSort`, `recursiveSort`.
- **Converters:** `multiToSingle`, `toMultiArray`, `attributesToArray`.
- **Checkers:** `isMultiDimensional`, `isAssociative`, `isAllScalar`.
- The older class `ArrayHelpers`, which holds earlier revisions of several of these helpers.

## PHP arrays

The model needs a small PHP runtime, kept in two modules.

`PhpArrays` (php_arrays.dfy) holds the array itself:

- A PHP array is an ordered map, modelled as `Entries`: a sequence of `(Key, Value)` pairs.
  - A key is `IntKey` or `StrKey`.
  - A value is null, bool, int, string, float, object or a nested array.
- `Assign` is `$a[$k] = $v`: it overwrites the key in place, or appends it at the end.
- `Remove` is `unset($a[$k])`.
- `Get` reads a key.
- `ListOf` is the list that `$a[] = ...` builds.
- `AssignAll` is a run of assignments.
- Exceptions are `Error` values. Errors the PHP engine raises (`TypeError`, `Error`) are `EngineError(fault)`.
- Operations that take an array by reference (`array &$array`) take an `ArrayVar`. This is a class with one field `arr` that the method modifies.

`PhpCasts` (php_casts.dfy) holds the casts the library relies on:

- `(int)`, `(string)`, `(bool)`, `(array)` and `empty()`.
  - `(int)` of a string reads the number the string starts with, fraction and exponent included. It truncates it toward zero and holds it to the 64-bit range. A number too large for a double gives 0.
- Turning a value into a key.
- Reading `$row[$column]`. A missing column reads null.
- Writing into a row, and `unset` on a row.

## Model

The model mirrors the source files:

- Splitters.php is `Splitters` (splitters.dfy).
- Editors.php is `Editors` (editors.dfy).
- Sorters.php is `Sorters` (sorters.dfy). Its stable insertion sort is in `StableSort` (stable_sort.dfy).
- Converters.php is `Converters` (converters.dfy).
- Checkers.php is `Checkers` (checkers.dfy).
- ArrayHelpers.php is `ArrayHelpers` (legacy.dfy).

Each loop in the source is a `method` with a `while` loop. The method is proved equal to a specification function, and the lemmas state what that function guarantees.

| member | source | states |
|---|---|---|
| Splitters.RowCount | src/Splitters.php:28-31 | for two rows or more, the count taken from each end is at least 1 and fits twice; a positive count that fits is kept; a count of 0 or less, or one that does not fit twice, becomes half the rows, rounded down |
| Splitters.TopOf | src/Splitters.php:32 | the top part holds the first `n` values, in order |
| Splitters.BottomOf | src/Splitters.php:33 | the bottom part holds the last `n` values, last first |
| Splitters.TopAndBottom | src/Splitters.php:20-35 | an empty array is `EmptyArray` and a single row is `SingleElement`, both if and only if; otherwise `top` and `bottom` are the first and last `RowCount` values, the bottom reversed |
| Splitters.TopAndBottomEven | src/Splitters.php:28-33 | with no count, the top, the middle row (odd counts only) and the bottom read backwards give back every value in order |
| Splitters.TopAndBottomKeys | src/Splitters.php:32-33 | both parts keep keys distinct; an input with only integer keys gives two lists |
| Splitters.DeriveKeysForms | src/Splitters.php:60-63 | deriving the keys fails exactly when a column value has no string form; otherwise the derived keys are a reordering of the distinct string forms of the column, sorted by `SORT_NATURAL` when that order is a total preorder |
| Splitters.UniqueByDefined | src/Splitters.php:61 | `array_unique` succeeds exactly when every value has a string form, whatever equality it uses |
| Splitters.UniqueByForms | src/Splitters.php:61 | by default (`SORT_STRING`), `array_unique` keeps the first value of each string form, in order |
| Splitters.UniqueByKept | src/Splitters.php:71 | under any equality, `array_unique` keeps only input entries, none equal to one kept before it |
| Splitters.UniqueByCovers | src/Splitters.php:71 | under any equality, every input entry is kept or equal to a kept one |
| Splitters.LowerKeys | src/Splitters.php:65-70 | the case-folding loop computes `FoldAll`: every non-numeric key lower-cased in place |
| Splitters.FoldAllValues | src/Splitters.php:65-70 | folding fails exactly when one value cannot be folded; otherwise each value is folded where it stands |
| Splitters.CaseFoldClasses | src/Splitters.php:65-72 | after case folding and `array_unique(..., SORT_NATURAL)`, no two keys are equal in natural order, each is a lower-cased key, and every lower-cased key is kept or equal in natural order to a kept one |
| Splitters.CaseFoldMerges | src/Splitters.php:65-72 | two text keys whose lower-cased forms are equal in natural order leave one key, the first, lower-cased |
| Splitters.PrepareLoop | src/Splitters.php:74-89 | the preparing loop computes `Prepare` over the partition keys |
| Splitters.PrepareOrder | src/Splitters.php:74-89 | preparing succeeds exactly when every key is accepted; the prepared keys are the formed keys, each once, in order of first formation |
| Splitters.FormedMembers | src/Splitters.php:74-89 | every accepted key forms a key, and every formed key comes from some accepted key |
| Splitters.PartitionKeyCases | src/Splitters.php:75-88 | partition keys are strings; an empty value is `EmptyPartitionKey`, and a value that is neither an integer nor a string is `InvalidPartitionKey`, both if and only if |
| Splitters.FillOne | src/Splitters.php:91-106 | the inner loop computes `Fill` for one partition key |
| Splitters.FillLoop | src/Splitters.php:90-107 | the outer loop computes `FillAll` over the prepared keys |
| Splitters.SplitByKey | src/Splitters.php:49-109 | the method computes `SplitByKeySpec`: the argument checks, the choice of keys, case folding with duplicates removed in natural order, preparing and filling |
| Splitters.MatchingMembers | src/Splitters.php:93-99 | the rows that match a key are exactly the rows whose compared string is that key |
| Splitters.FillMatching | src/Splitters.php:91-106 | a filled partition holds every matching row, in input order, as placed |
| Splitters.FillAllOk | src/Splitters.php:90-107 | there is one partition per prepared key, in order, holding what the inner loop collected for it |
| Splitters.FillAllHolds | src/Splitters.php:90-107 | the keys are unchanged, and every partition holds its matching rows |
| Splitters.PartitionContents | src/Splitters.php:74-107 | a successful split has distinct keys, which are the formed keys deduplicated, and every partition holds exactly its matching rows |
| Splitters.PartitionKeys | src/Splitters.php:74-107 | every accepted key has a partition |
| Splitters.PartitionFromKeys | src/Splitters.php:74-107 | every partition comes from an accepted key |
| Splitters.CaseInsensitiveMerge | src/Splitters.php:93-99 | with case folding, two rows whose column strings lower-case alike are matched by the same partition keys |
| Splitters.PlacedWithoutColumn | src/Splitters.php:100-104 | without `keepKey`, no array row in any partition of a successful split still has the column |
| Splitters.SumMatchingBound | src/Splitters.php:90-107 | against distinct keys, the rows matched in total are at most the rows given |
| Splitters.PartitionSizes | src/Splitters.php:90-107 | with string partition keys, the partitions together hold at most as many rows as the input |
| Editors.DigitToKey | src/Editors.php:24-41 | the loop computes `DigitToKeySpec` |
| Editors.DigitToKeyErrors | src/Editors.php:26-34 | an empty new key is `EmptyKey`, if and only if; the call succeeds exactly when every row's column can be used as a key and, with `keyUnset`, every row can have the column unset (a row that is an int, a float, a string, an object or `true` cannot) |
| Editors.DigitToKeyLastWins | src/Editors.php:32-34 | when several rows share a column value, the last of them is stored under that key |
| Editors.DigitToKeyAbsent | src/Editors.php:32-34 | a key that no row's column gives is absent from the result |
| Editors.DigitToKeyKeys | src/Editors.php:32-34 | the result's keys are the column values, each once, in order of first appearance |
| Editors.DigitToKeyUnset | src/Editors.php:36-38 | with `keyUnset`, no stored array row keeps the column |
| Editors.Convert | src/Editors.php:68-76 | a conversion fails only for `string` on a value with no string form; an unknown type gives null; `int` of a string is an integer in the 64-bit range |
| Editors.ConvertRow | src/Editors.php:66-77 | the column loop over one row computes `ConvertRowFrom`: each step evaluates the right-hand side first, then writes into the row |
| Editors.ConvertStepIllegal | src/Editors.php:67-76 | for a column name that cannot be a key, an array or string row fails at the read with `IllegalOffsetType`; any other row, or the `default` arm, fails at the write: "Cannot use a scalar value as an array" on an int, a float or `true`, and `IllegalOffsetType` on null or `false` |
| Editors.ColumnsConversionScalarRow | src/Editors.php:67-76 | converting the int row `5` with the column name `[1]` to `int` is the scalar-as-array error, not an offset error |
| Editors.ColumnsConversion | src/Editors.php:51-80 | the method computes `ColumnsConversionSpec` |
| Editors.ConvertRowsAt | src/Editors.php:64-78 | converting succeeds exactly when every row converts; the rows keep their keys and places |
| Editors.ConvertRowsFirstError | src/Editors.php:64-78 | the first row that fails decides the error |
| Editors.ConvertRowReads | src/Editors.php:66-77 | in a converted row, a listed column holds the converted value of the original row's column, and any other key reads as before |
| Editors.ColumnsConversionRows | src/Editors.php:54-79 | empty columns are `EmptyColumns`, if and only if; a successful conversion keeps every row in place; listed columns are converted; other columns are untouched |
| Editors.ColumnsConversionExponent | src/Editors.php:69 | converting a column holding `"1e3"` to `int` stores 1000: `(int)` reads the exponent |
| PhpCasts.IntRoundTrip | src/Editors.php:69 | `(int)` of the string form of any 64-bit integer gives back that integer |
| PhpCasts.StrToIntSaturates | src/Editors.php:69 | `(int)` of a run of digits beyond the integer range is PHP_INT_MAX, or 0 when a double cannot hold it |
| PhpCasts.StrToIntFraction | src/Editors.php:69 | `(int)"1.5e3"` is 1500: the fraction counts before the exponent |
| PhpCasts.StrToIntTruncates | src/Editors.php:69 | `(int)" -2.9kg"` is -2: leading whitespace and trailing text are skipped and the value is truncated toward zero |
| Editors.RemoveWhere | src/Editors.php:93-103 | the unset loop, then the optional reindexing, compute `RemoveWhereSpec` |
| Editors.RemoveByValue | src/Editors.php:90-104 | the method computes `RemoveByValueSpec` |
| Editors.RemoveWhereKeeps | src/Editors.php:93-103 | the entries kept are exactly those whose value is not dropped; no kept value is dropped; each kept value occurs as often as before; with `reKey` the result is a list holding the same values |
| Editors.RemoveByValueKeeps | src/Editors.php:93-103 | the value is gone; every entry with another value is kept, as often as before; with `reKey` the result is a list of the same values |
| Editors.SetKeyPath | src/Editors.php:133-144 | the array becomes `SetPath` of the old one; a path holding a value that is not a legal key is an `IllegalOffsetType` error |
| Editors.PathValidCons | src/Editors.php:135-142 | a path is valid exactly when its head and its rest are |
| Editors.SetPathReads | src/Editors.php:133-144 | after setting, reading along the path gives the value |
| Editors.SetPathOthers | src/Editors.php:133-144 | keys other than the path's head read as before; at most the head is added to the keys; distinct keys stay distinct |
| Editors.SetPathDescends | src/Editors.php:139-142 | a missing or non-array head becomes an array, and an existing array is kept and descended into |
| Editors.SetPathIllegal | src/Editors.php:135-137 | a head that cannot be a key changes nothing |
| Editors.MoveToSubarray | src/Editors.php:114-123 | the array becomes `MoveSpec` of the old one; an error only when the key exists and the path is illegal |
| Editors.MoveAbsent | src/Editors.php:117 | a missing key leaves the array unchanged |
| Editors.MoveReachable | src/Editors.php:117-122 | when the path's head is another key, the old value is found along the path and the key is gone |
| Editors.MoveOntoItself | src/Editors.php:117-122 | when the path's head is the key itself, the final `unset` removes the value just moved |
| Editors.FirstUnwritable | src/Editors.php:156-159 | this is the first row that cannot be written into; every earlier row can be renamed |
| Editors.RenameColumn | src/Editors.php:154-160 | the array becomes `RenameColumnSpec` of the old one; the error is raised exactly when some row cannot be written into |
| Editors.RenameColumnAt | src/Editors.php:156-159 | one step of the loop either stops at an unwritable row or moves past a writable one |
| Editors.RenamedRowReads | src/Editors.php:157-158 | a renamed row lacks the old column; the new name holds the old column's value when the names differ; other keys are unchanged |
| Editors.RenameColumnRows | src/Editors.php:156-159 | when every row is writable, every row is renamed in place and the keys are unchanged |
| Editors.RenameColumnStops | src/Editors.php:156-159 | rows from the first unwritable one onwards are left as they were |
| Sorters.MultiArrSort | src/Sorters.php:19-36 | an empty column name gives `[]`; otherwise the result is a reordering of the rows |
| Sorters.RowLePreorder | src/Sorters.php:26-33 | comparing rows by a column, in either direction, is a total preorder |
| Sorters.MultiArrSortOrdered | src/Sorters.php:24-35 | the rows are ordered by the column, ascending or descending |
| Sorters.MultiArrSortStable | src/Sorters.php:24-35 | rows that compare equal keep their relative order |
| Sorters.SortLevel | src/Sorters.php:55-65 | `ksort` and `krsort` reorder the entries; `sort` and `rsort` give a list holding the same values |
| Sorters.RecursiveSort | src/Sorters.php:47-66 | the array becomes `DeepSort` of the old one |
| Sorters.DeepSortSorted | src/Sorters.php:47-66 | after sorting, every level at every depth is sorted |
| Sorters.DeepSortedFixed | src/Sorters.php:47-66 | sorting an array that is already sorted at every level leaves it unchanged |
| Sorters.DeepSortIdempotent | src/Sorters.php:47-66 | sorting twice is the same as sorting once |
| Converters.MultiToSingleRows | src/Converters.php:23-29 | a blank name gives `[]`; otherwise the call fails exactly when a row lacks the column, and on success every key keeps its place and holds its row's column |
| Converters.CombineDistinct | src/Converters.php:28 | combining distinct keys with as many values pairs them in order |
| Converters.PairRowAssigns | src/Converters.php:124 | the row built for each element is the two assignments `[$keys[0] => $key, $keys[1] => $element]` |
| Converters.ToMultiArray | src/Converters.php:117-127 | the method computes `ToMultiArraySpec` |
| Converters.ToMultiArrayKeyCount | src/Converters.php:119-121 | a key list without exactly two entries is `KeyCountNotTwo`, if and only if; an empty array gives `[]` |
| Converters.ToMultiArrayRows | src/Converters.php:122-126 | the result is a list with one row per element; each row holds the element under the second name, and the key under the first name when the names differ |
| Converters.AttributesToArray | src/Converters.php:79-108 | the method computes `AttributesSpec` with the empty-text test corrected: with `$null` set, an empty attribute is stored as null (see Findings) |
| Converters.AddExtrasErrors | src/Converters.php:93-105 | adding the extra names fails exactly when one of them cannot be a key |
| Converters.AddExtrasReads | src/Converters.php:93-105 | an existing attribute keeps its value; a missing extra name gets null, or `''` when `$null` is false; other keys stay absent |
| Converters.NodeReads | src/Converters.php:83-91 | each attribute reads its value as the loop stores it |
| Converters.NodeKeys | src/Converters.php:83-91 | the attribute loop gives exactly the attribute names as keys |
| Converters.AttributesToArrayReads | src/Converters.php:79-108 | in both the as-written and the corrected version, the call fails exactly when an extra name cannot be a key; each attribute reads the value stored for it; an extra name the node lacks reads null, or `''` when `$null` is false |
| Converters.AttributesAsWrittenKeepsEmpty | src/Converters.php:84 | an empty attribute with `$null` set stays `''` as written, but is null in the intended version |
| Converters.AttributesIntendedNulls | src/Converters.php:84-90 | in the intended version, with `$null` set an empty attribute reads null, and every other attribute reads its text |
| Checkers.CountArrays | src/Checkers.php:26 | the number of array values equals the size exactly when every value is an array |
| Checkers.DedupSingle | src/Checkers.php:29 | `array_unique` leaves one value exactly when the sequence is non-empty and all its values are equal |
| Checkers.IsMultiDimensional | src/Checkers.php:23-41 | true exactly when every value is an array and, with `equal_length`, all have the same size; `UnequalLengths` and `MixedScalars` when their checks fail; false otherwise; all four if and only if |
| Checkers.IsAssociative | src/Checkers.php:50-53 | true exactly when some key is a string |
| Checkers.IsAllScalar | src/Checkers.php:62-66 | true exactly when every value is scalar |
| Checkers.ListNotAssociative | src/Checkers.php:50-53 | a list is not associative |
| Checkers.ScalarsNotMultiDimensional | src/Checkers.php:23-41 | a non-empty array of scalars is not multidimensional, whatever the flags |
| ArrayHelpers.TopAndBottom | src/ArrayHelpers.php:8-23 | as written: `EmptyArray` and `SingleElement` if and only if; when the count has to be clamped, the call fails with a `TypeError` |
| ArrayHelpers.TopAndBottomClampFails | src/ArrayHelpers.php:17-21 | on two rows with the default count, the call fails where the newer revision succeeds |
| ArrayHelpers.TopAndBottomVersions | src/ArrayHelpers.php:17-21 | wherever the older revision succeeds, it agrees with the newer one; wherever it raises the `TypeError`, the newer one succeeds with half the rows |
| ArrayHelpers.NewKey | src/ArrayHelpers.php:46-56 | a new key is accepted exactly when it is non-empty and an integer or a string, and then it is the key PHP makes of it; otherwise the error names the value's index |
| ArrayHelpers.EqualRowsMembers | src/ArrayHelpers.php:60-62 | the selected rows are exactly those whose column is loosely equal to the value |
| ArrayHelpers.PickFails | src/ArrayHelpers.php:60-66 | picking fails with `UnsetOnScalar` exactly when an equal row cannot have its column unset |
| ArrayHelpers.PickEqualRows | src/ArrayHelpers.php:60-66 | a successful pick appends every equal row, in input order, with the column unset |
| ArrayHelpers.DistributeOk | src/ArrayHelpers.php:59-68 | filling fails exactly when picking for one combined value fails; otherwise there is one list per combined key, in order |
| ArrayHelpers.PrepareNewKeys | src/ArrayHelpers.php:46-56 | the preparing loop computes `Prepare` with `NewKey` |
| ArrayHelpers.PickLoop | src/ArrayHelpers.php:60-66 | the inner loop computes `Pick` |
| ArrayHelpers.DistributeLoop | src/ArrayHelpers.php:59-68 | the outer loop fills the prepared array and computes `Distribute` |
| ArrayHelpers.SplitByKey | src/ArrayHelpers.php:26-70 | the method computes `SplitByKeySpec` |
| ArrayHelpers.CombinedKeys | src/ArrayHelpers.php:46-58 | once the new keys are accepted, `array_combine` succeeds, and its keys are those of the prepared array, in the same order |
| ArrayHelpers.CombinedValue | src/ArrayHelpers.php:58 | a key is compared with the expected value at the last place of `$newkeys` that forms it |
| ArrayHelpers.PrepareErrors | src/ArrayHelpers.php:46-56 | preparing only ever refuses a new key |
| ArrayHelpers.SplitByKeyChecks | src/ArrayHelpers.php:29-44 | each argument exception is raised exactly when its check is the first to fail |
| ArrayHelpers.SplitByKeyLaterErrors | src/ArrayHelpers.php:46-68 | past the argument checks, every error is a refused new key or a failed `unset` |
| ArrayHelpers.SplitByKeyRefusedKey | src/ArrayHelpers.php:46-56 | the first refused new key decides the error |
| ArrayHelpers.SplitByKeyUnsetFails | src/ArrayHelpers.php:58-68 | with every new key accepted, the call fails exactly when a row equal to a compared value cannot have its column unset |
| ArrayHelpers.SplitByKeyKeys | src/ArrayHelpers.php:46-69 | the result has distinct keys: one partition per distinct accepted new key, in order of first appearance, and every new key has one |
| ArrayHelpers.SplitByKeyContents | src/ArrayHelpers.php:58-69 | each partition is the list of rows equal to the value paired with its key, in input order, each with the column unset |
| ArrayHelpers.DigitToKey | src/ArrayHelpers.php:73-90 | computes the newer revision's `DigitToKeySpec`; an empty key is `EmptyKey`, if and only if |
| ArrayHelpers.MultiToSingle | src/ArrayHelpers.php:93-106 | the loop computes `MultiToSingleSpec` |
| ArrayHelpers.MultiToSingleRows | src/ArrayHelpers.php:99-105 | every key keeps its place and holds its row's column, which is null when the row lacks it |
| ArrayHelpers.MultiToSingleVersions | src/ArrayHelpers.php:93-106 | an empty name fails here but gives `[]` in the newer revision; the name `"0"` fails here while the newer one reads the column; a name of only whitespace reads the column here but gives `[]` in the newer one; a row lacking the column reads null here but makes the newer one fail; otherwise the two agree |
| ArrayHelpers.ColumnsConversion | src/ArrayHelpers.php:109-151 | the method computes the older `ColumnsConversionSpec` |
| ArrayHelpers.AsciiLowerIdempotent | src/ArrayHelpers.php:126 | lower-casing the type twice is the same as lower-casing it once |
| ArrayHelpers.ColumnsConversionCaseless | src/ArrayHelpers.php:126-147 | type names are matched without regard to case; a known lower-case type converts as in the newer revision, which sends an upper-case name such as `INT` to null |
| ArrayHelpers.ColumnsConversionNull | src/ArrayHelpers.php:126-147 | `uncset`, `null` and `nothing` set every listed column to null; an unknown type leaves the array unchanged |
| ArrayHelpers.ColumnsConversionScalarRow | src/ArrayHelpers.php:143-146 | the `null` case writes without reading, so the int row `5` with the column name `[1]` is the scalar-as-array error |
| ArrayHelpers.RemoveByValue | src/ArrayHelpers.php:154-168 | computes `RemoveWhereSpec` with `===` or `==` as `$strict` says |
| ArrayHelpers.RemoveByValueModes | src/ArrayHelpers.php:157-166 | strict removal is the newer revision's; loose removal keeps exactly the entries not loosely equal to the value; `$rekey` gives a list |
| ArrayHelpers.MultArrSortOrdered | src/ArrayHelpers.php:171-188 | an empty column is `EmptyKey`, if and only if; otherwise the result is a reordering of the rows, ordered by the column |

## Left out

- `Converters::dbfToArray` (src/Converters.php:39-68) reads a dBase file through an extension. It is I/O and is not part of this model.
- The rest of the repository (`arrayToProperties`, `enumValues` and the other helpers) is not part of this model.
- `attributesToArray` takes a node as its list of `(name, text)` pairs. The DOM classes, and the difference between `DOMNode` and `Dom\Node`, are not modelled.
- These PHP built-ins are parameters assumed to be total preorders, or plain functions:
  - the comparison `<=>`;
  - the `SORT_REGULAR` and `SORT_NATURAL` orders;
  - the key order of `ksort`;
  - the loose equality `==`;
  - `mb_strtolower`.
- Sorting is a stable insertion sort. PHP 8 sorts are stable, so the result is the same; PHP's algorithm itself is not modelled.
- Keys are never normalised. A numeric string such as `"5"` stays a string key, where PHP would turn it into the integer key 5.
- Floats and objects are opaque. Each carries the value it was cast from, and casts out of them go through that value. Float arithmetic and formatting are not modelled.
- `===` is structural equality of model values. Object identity is not modelled.
- Reading a column of a row that is not an array gives null. PHP gives null too for null, bool, int and float rows, but it throws for an object row, and for a string row unless the column is a numeric offset, where it reads one character. The model does not throw there.
- Writing into a row that is a string, a number or `true` is an engine error. PHP's string-offset writes are not modelled.
- `array_column` on rows that are objects is not modelled.
- Warnings (such as undefined array keys) are not modelled. Only exceptions and errors are.
- `Editors.Convert`, `Editors.ColumnsConversion` and `ArrayHelpers.ColumnsConversion`: PHP reads a string with a fraction, an exponent or more digits than an integer holds through a double before `(int)` truncates it. The model truncates the exact decimal value, so the two differ where the double rounds across an integer, such as `"0.99999999999999999"`, or beyond 2^53.
- `(int)` of a float outside the integer range, and such a float used as a key, are held at the ends of the range as for a string. PHP's result for such a float is not modelled.
- `Editors.DigitToKey`, `Editors.ColumnsConversion` and the other by-value operations take the array as a value. PHP's copy-on-write is invisible to them.

## Findings

| source | as written | input that shows it | evidently intended | confidence | as-written member | corrected member |
|---|---|---|---|---|---|---|
| src/ArrayHelpers.php:17-21 | the clamped count `floor(count/2)` is a float, and `array_slice` refuses it under `strict_types=1` with a `TypeError` | two rows with the default count `0` | split evenly, as the newer `Splitters::topAndBottom` does after casting to `int` | not executed | ArrayHelpers.TopAndBottomClampFails | Splitters.TopAndBottomEven |
| src/Converters.php:84 | `$attribute_value === ''` compares the attribute object with a string, so it is never true and empty attributes stay `''` | a node with one attribute `a=""` and `$null` true | an empty attribute becomes null when `$null` is true | not executed | Converters.AttributesAsWrittenKeepsEmpty | Converters.AttributesIntendedNulls |
