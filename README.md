# CloudForest feature matrix, modelled in Dafny

This project models the dataset layer of CloudForest's random-forest engine, the Go file
`featurematrix.go`. A *feature matrix* is an ordered sequence of columns ("features"), a
name→position index (`Map`) and the case labels. The model covers three parts:

- **Best-splitter selection** (`BestSplitter`). The parent impurity is computed once. Each
  candidate column is asked for its best split. A candidate replaces the best so far when its
  impurity decrease is strictly above both the floor `MinImp` (0.0) and the best so far, so
  the first candidate reaching the maximum wins. The winner is decoded only if it beat the
  floor.
- **Contrast injection** (`AddContrasts`, `ContrastAll`). Shuffled copies of existing
  columns are appended. Each copy is registered in `Map` under the position it is about to
  take.
- **Parsing of tokenised rows** (`ParseFeature`, `ParseAFM`). The `N:` prefix of a row's
  first field picks the column kind. Then one value and one missing flag are built per cell.
  Rows are registered in append order, and the header row minus its first field becomes the
  case labels.

The per-column search, impurity and decoding are not visible in the source. They are passed
in as function parameters (`impurity`, `bestSplit`, `decodeSplit`). So are number parsing
and lower-casing (`parseFloat`, `toLower`). The random column choices of `AddContrasts` are
an input sequence `picks`. The shuffle itself is "any shuffled copy": `Features.ShuffledCopy`
picks any column that `IsShuffledCopy` accepts.

Files: `wrappers.dfy` (Option), `features.dfy` (columns, the category encoder, shuffled
copies), `names.dfy` (the name index), `parsing.dfy` (one row to one column) and
`featurematrix.dfy` (the `FeatureMatrix` class and `ParseAFM`).

## Notes on the name index

Go's `m[name] = pos` overwrites an earlier entry with the same name. So after a run of
appends, each name maps to the *last* position carrying it. `Names.NameIndex` and
`Names.Register` model exactly that. `Matrix.FeatureMatrix.InSync` (`Map == NameIndex(Data)`)
is preserved by both contrast methods and established by `ParseAFM`.

The invariant "`Map[name] == position` for every column" holds only when names are distinct
(`Names.DistinctNamesInSync`). `AddContrasts` draws columns with replacement. The documented
contrast name is `featurename:SHUFFLED`, so drawing the same column twice gives two columns
with the same name. The earlier one is then shadowed in `Map` (`Names.DuplicateNameShadowed`).
The model follows the code here, not the stronger invariant.

The doc comment of `ContrastAll` (featurematrix.go:85-88) says the copied features are
chosen at random with replacement. The code (featurematrix.go:93-104) copies each feature
exactly once, in order. The model follows the code.

## Model

| member | source | states |
|---|---|---|
| `Matrix.FeatureMatrix.BestSplitter` | featurematrix.go:31-59 | The returned decrease is at least `MinImp`. A splitter comes back iff some candidate's decrease exceeds `MinImp`; otherwise the result is none with decrease exactly `MinImp`, including for no candidates. When a splitter comes back, its decrease is the maximum over all candidates, and it is the decoding of the split of the first candidate reaching that maximum. |
| `Matrix.FirstMaxUnique` | featurematrix.go:44-52 | The first maximum is unique, so the strict `>` selection fixes which candidate wins. |
| `Matrix.FeatureMatrix.AddContrasts` | featurematrix.go:69-82 | The column count grows by exactly `n` (0 for a non-positive `n`). The original columns are unchanged. Appended column `k` is a shuffled copy of original column `picks[k]`: drawn from the columns present before the loop, never from an earlier contrast. `Map` is the old index with each contrast registered at its own position in append order. An index in sync stays in sync, well-formed equal-length columns stay so, and the case labels are unchanged. |
| `Matrix.FeatureMatrix.ContrastAll` | featurematrix.go:93-104 | `n` columns become `2n`. Columns `0..n-1` are unchanged, and column `n+i` is a shuffled copy of column `i`. `Map` registers column `n+i` at `n+i` in append order. Index agreement, well-formedness, equal lengths and the case labels are preserved. |
| `Matrix.ContrastsKeepShape` | featurematrix.go:69-104 | Appending shuffled copies of earlier columns keeps every column well-formed and all columns of one length. |
| `Matrix.ContrastsKeepIndex` | featurematrix.go:77-79 | An index that agrees with the original columns, extended by registering each appended column at its position, agrees with the whole column sequence. |
| `Matrix.FeatureMatrix.constructor` | featurematrix.go:14-18 | A matrix holds exactly the given columns, index and case labels. |
| `Matrix.ParseAFM` | featurematrix.go:119-147 | The case labels are the header minus its first field. There is one column per row, and column `j` is the parse of row `j`; every categorical column has its own freshly made encoder, distinct from every other column's. The index agrees with the columns: every row name is a key, mapped to its own position or a later one, and exactly to its own position when no later row repeats the name. When every row has as many fields as the header, every column's length equals the number of case labels. |
| `Parsing.ParseFeature` | featurematrix.go:155-203 | The column is named `record[0]`. It is numeric iff `record[0][0:2] == "N:"`. It holds `len(record)-1` values and missing flags, each cell as described for the two cell loops. A categorical column has a freshly made encoder. |
| `Parsing.ParseNumCells` | featurematrix.go:165-175 | One value and one flag per field. A cell is missing iff the number parser rejects it. A missing cell stores 0.0; any other cell stores the parsed value. |
| `Parsing.ParseCatCells` | featurematrix.go:187-199 | One code and one flag per field. A cell is missing iff its lower-cased text is `?`, `nan`, `na` or `null`, and a missing cell stores code 0. Any other cell stores a code that the encoder decodes back to the cell's text. The encoder's strings are the present cells' distinct values in first-seen order. |
| `Parsing.PresentElements` | featurematrix.go:188-197 | A value is among the present values exactly when it is one of the cells and that cell's lower-cased text is not a missing token. With `DedupElements`, the encoder holds exactly the distinct non-missing cells. |
| `Parsing.DedupElements` | featurematrix.go:196 | The first-seen list of distinct values holds exactly the values that were seen. |
| `Parsing.DedupDistinct` | featurematrix.go:196 | The first-seen list holds each value once, so codes are dense and one per category. |
| `Features.CatMap.constructor` | featurematrix.go:180-181 | A new encoder is empty and consistent. |
| `Features.CatMap.CatToNum` | featureinterfaces.go:67 | The code decodes back to the value (a round trip). A value already known keeps its code and the encoder is unchanged. A new value gets the next code, appended at the end, so codes are handed out in first-seen order. Consistency is preserved. |
| `Features.CatMap.NumToCat` | featureinterfaces.go:68 | The string of a code encodes back to that code. |
| `Features.ShuffledCopy` | featureinterfaces.go:32 | The result is a shuffled copy: same kind, same encoder, the same multiset of (value, missing) cells, and for a well-formed column the same length. |
| `Features.ShuffledCopyLength` | featureinterfaces.go:32 | A shuffled copy of a well-formed column is well-formed and as long as the original. |
| `Names.RegisterConcat` | featurematrix.go:77-79 | Registering two runs of appended columns one after the other is the same as registering their concatenation, so the index of the whole sequence is the index of the prefix extended by the appended columns. |
| `Names.RegisterKeys` | featurematrix.go:77 | Registering adds exactly the appended names as keys. |
| `Names.RegisterUntouched` | featurematrix.go:77 | A name no appended column carries keeps its old entry, or stays absent. |
| `Names.RegisterAtLeast` | featurematrix.go:77-79 | An appended column's name is registered at its own position or a later one. |
| `Names.RegisterLast` | featurematrix.go:77-79 | The last appended column carrying a name is registered at its own position. |
| `Names.RegisterPositions` | featurematrix.go:99-101 | Both facts above, for every appended column at once. |
| `Names.NameIndexKeys` | featurematrix.go:143 | The keys of the index are exactly the column names. |
| `Names.DistinctNamesInSync` | featurematrix.go:143 | With distinct names, every column's name maps to that column's position. |
| `Names.DuplicateNameShadowed` | featurematrix.go:77-79 | A column whose name a later column repeats is not registered at its own position. |

## Left out

- Reading the tab-separated input (`encoding/csv`, `io.Reader`) and `log.Print`: this is I/O (featurematrix.go:122-124, 134-141). `ParseAFM` takes the header row and the data rows already tokenised. The point where reading stops (end of file or a read error) is the end of that sequence. The reader keeps its default `FieldsPerRecord` of 0, so it fixes the field count from the header and reports a row of any other length as a read error (`ErrFieldCount`), which ends the loop (featurematrix.go:138-140). Every row that does get parsed therefore has as many fields as the header. That is the hypothesis of `ParseAFM`'s equal-length guarantee, and the reader ensures it.
- The end-of-file and error branches right after the header (featurematrix.go:125-130): they slice a possibly empty header, which panics in Go. `ParseAFM` requires a non-empty header.
- `Matrix.ParseAFM` and `Parsing.ParseFeature` require every row to have a name field at least two characters long. The original indexes `record[0]` and slices `record[0][0:2]`, which panics when the name is shorter than two bytes.
- Strings are modelled as sequences of characters, not of UTF-8 bytes. A one-character name whose encoding takes two or more bytes (such as `é`) does not panic in the original and becomes a categorical column there. The model excludes it by its two-character requirement. For names of two or more characters, the `N:` test agrees with the byte slice.
- `Matrix.FeatureMatrix.BestSplitter` requires every candidate index to lie below the column count. The original indexes `fm.Data[i]` (featurematrix.go:45), which panics on an index out of range.
- `Matrix.FeatureMatrix.AddContrasts` requires every draw in `picks` to lie below the column count taken before the loop. On an empty matrix with `n > 0` no draw can meet that, and the original then calls `rand.Intn(0)` (featurematrix.go:70, 74), which panics.
- `strconv.ParseFloat` and `strings.ToLower`: foreign code, passed in as functions. The missing-token test itself is modelled.
- 64-bit floating point: values and decreases are `real`. Rounding, NaN and infinities are not modelled.
- `math/rand` in `AddContrasts`: replaced by the explicit draws `picks`, each below the column count taken before the loop.
- The shuffle algorithm of `ShuffledCopy` (featureinterfaces.go:32): not part of this model; any permutation of the cells is allowed.
- `Features.ShuffledCopy`: leaves the copy's name open, so it does not state the `featurename:SHUFFLED` name from the doc comment (featurematrix.go:64), because the code that forms it is not part of this model. It assumes a categorical copy shares the original's encoder.
- The per-column `BestSplit`, `Impurity`, `DecodeSplit` and the Gini and variance arithmetic (featureinterfaces.go:11-87): their implementations are not part of this model, so they are function parameters. The leaf size, the random-split flag and the `constant` result that the interface declares but the call at featurematrix.go:46 does not use are not modelled. The scratch buffers (`BestSplitAllocs`) are not modelled.
- The implementation of the category encoder (`CatMap`) is not part of this model. `Features.CatMap` follows the documented encoder contract: dense codes from 0 in first-seen order, with the inverse list indexed by code.
- The fifth field of a categorical column (the literal `false` at featurematrix.go:185) and the slice capacities: they have no effect on the parsed contents.
- `ImputeMissing` on the matrix (featurematrix.go:109-113): it only delegates to the columns' own imputation, whose implementation is not part of this model.
- The search-strategy constants 5, 10, 30 and 1e-7 and `BoostingTarget` (featureinterfaces.go:5-9, 92-95): nothing in the modelled code uses them. Only `MinImp` (0.0) is modelled.
- Aliasing of Go's column pointers (`f = &fm.Data[i]`): columns are values here, which makes no difference because selection does not change any column.
- `Matrix.FeatureMatrix.BestSplitter`: hands every candidate and the final decoding the same unchanging `cases`. The original passes a pointer to the case list (`&cases`, featurematrix.go:42, 46; `cases *[]int`, featureinterfaces.go:26), so a column's search could reorder or replace the list before the next candidate or `DecodeSplit` sees it. The model does not capture such changes; `Decreases` assumes each search leaves the case list as it found it.
