# Historical listings dataset build, modelled in Dafny

This project models the record-transform pipeline of pb-buddy's
`scripts/build_historical_dataset.py`. The script takes two backfilled lists of
marketplace-listing records: the backfill library and the restrictions backfill library.
It turns each list into a table and normalizes the column names. It joins the two tables
one to one on `url` and strips whitespace from every text cell. It converts three date
columns and keeps only the listings whose `still_for_sale` status contains `Sold`.

Each step is a pure function over an immutable table model. The lemmas state what each
step promises.

- `Frame` (frame.dfy) is the data model. A table is an ordered list of column labels and
  a list of rows, and each row holds one cell per column. A cell is missing (`Null`),
  text, or a timestamp. Labels are positional, so a table can carry a label twice, as a
  DataFrame can. A loaded JSON record is its list of (label, value) pairs in document
  order. `FromRecords` is `pd.DataFrame(records)`.
- `ColumnNames` (column_names.dfy) is the column-name normalizer:
  `x.replace(" ", "_").replace(":", "").lower()`, applied to every label.
- `Merge` (merge.dfy) is `merge(on="url", how="inner", validate="1:1")`.
- `Whitespace` (whitespace.dfy) is `.str.strip()` applied to every text cell.
- `Datetimes` (datetimes.dfy) is `pd.to_datetime` on the three date columns. The date
  grammar is a function parameter.
- `SoldFilter` (sold_filter.dfy) is `query("still_for_sale.str.contains('Sold')")`.
- `Pipeline` (pipeline.dfy) composes these steps in the script's order.
- `Outcomes` and `Chars` are small support modules: result types and ASCII character
  classes.

Every step that can raise in the script returns a `Result` carrying the error instead.
The join returns one for a missing or repeated key column, and for a key value repeated
on either side. The date conversion returns one for a missing date column or a rejected
date. The filter returns one for a missing or repeated status column, or a missing status.

Key values are compared as cells, so two missing `url` values match each other, as the
library's merge matches missing keys. They also count as a repeat for the one-to-one check.
The join runs before the strip, so `" a"` and `"a"` are different keys.

A missing status does not drop the row. `str.contains` yields NaN for a missing value,
and boolean indexing with NaN raises a ValueError, so `FilterSold` fails with
`StatusNotText`.

## Model

| member | source | states |
|---|---|---|
| `ColumnNames.NormalizeShape` | scripts/build_historical_dataset.py:34 | a normalized name contains no space and no colon; it has no upper-case ASCII letter; its length is the original length minus the number of colons |
| `ColumnNames.NormalizeFixpoint` | scripts/build_historical_dataset.py:34 | the normalizer leaves a name unchanged exactly when the name has no space, colon or upper-case letter (both directions) |
| `ColumnNames.NormalizeIdempotent` | scripts/build_historical_dataset.py:34 | normalizing an already-normalized name returns it unchanged |
| `ColumnNames.NormalizeConcat` | scripts/build_historical_dataset.py:34 | the normalizer works character by character: the result for a concatenation is the concatenation of the results |
| `ColumnNames.NormalizeSingle` | scripts/build_historical_dataset.py:34 | on one character: a colon vanishes, a space becomes `_`, and any other character is lower-cased (with the previous row this determines the normalizer) |
| `ColumnNames.NormalizeColumns` | scripts/build_historical_dataset.py:33-38 | the label list is rewritten element by element, keeping its length and order; every new label is normalized; the rows are untouched; well-formedness is kept |
| `ColumnNames.NormalizeColumnsIdempotent` | scripts/build_historical_dataset.py:34-38 | renaming the columns twice is the same as renaming them once |
| `ColumnNames.NormalizeColumnsKeepsCells` | scripts/build_historical_dataset.py:33-38 | when no two labels normalize to the same name, each row's value under a label is its value under the label's normalized name |
| `Frame.FromRecords` | scripts/build_historical_dataset.py:33-37 | the table has one row per record and one column per label some record carries, with no label repeated |
| `Frame.FromRecordsRoundTrip` | scripts/build_historical_dataset.py:33-37 | reading any label back from a row gives the record's own value, and a missing value where the record lacks that label |
| `Merge.InnerJoin` | scripts/build_historical_dataset.py:40 | the join fails when either table lacks the key column. When the key labels exactly one column on each side, it fails exactly when a key value repeats on a side, and it names the side correctly (left, right or both). On success the columns are the left columns followed by the right columns without the key |
| `Merge.InnerJoinOneRowPerSharedKey` | scripts/build_historical_dataset.py:40 | after a successful join the key column repeats no value, and its values are exactly the keys present in both inputs. So the row count is the number of shared keys |
| `Merge.InnerJoinCombinesMatchedRows` | scripts/build_historical_dataset.py:40 | every joined row is a left row followed by the non-key cells of the right row with the same key; every such pair of rows is joined |
| `Merge.InnerJoinDisjointIsEmpty` | scripts/build_historical_dataset.py:40 | two tables with unique keys and no key in common join successfully to a table with no rows |
| `Merge.DistinctCardinality` | scripts/build_historical_dataset.py:40 | a key column with no repeated value has as many distinct keys as rows, which turns the key-set statement into a row count |
| `Whitespace.Strip` | scripts/build_historical_dataset.py:46 | the stripped string neither begins nor ends with whitespace; it is an infix of the original, and only whitespace was cut from each end |
| `Whitespace.StripUnique` | scripts/build_historical_dataset.py:46 | any infix that cuts only whitespace from the ends and leaves neither end on whitespace is the strip's result |
| `Whitespace.StripFixpoint` | scripts/build_historical_dataset.py:46 | the strip leaves a string unchanged exactly when the string neither begins nor ends with whitespace |
| `Whitespace.StripIdempotent` | scripts/build_historical_dataset.py:46 | stripping twice is stripping once |
| `Whitespace.StripTable` | scripts/build_historical_dataset.py:46 | the table keeps its columns, row count and row lengths; missing cells stay missing; text cells stay text and are stripped; timestamps are untouched |
| `Whitespace.StripTableIdempotent` | scripts/build_historical_dataset.py:46 | stripping the table twice is stripping it once |
| `Whitespace.PaddedStatus` | scripts/build_historical_dataset.py:46 | the status `" Sold "` strips to `"Sold"` |
| `Datetimes.ToDatetime` | scripts/build_historical_dataset.py:45-47 | the conversion fails exactly when a listed date column is absent or one of its values is rejected by the parser. On success the columns and row count are kept and other columns are untouched. In a date column a missing value stays missing, text becomes the parsed instant, or missing when the parser says "not a time", and a timestamp is kept |
| `Datetimes.ToDatetimeIdempotent` | scripts/build_historical_dataset.py:45-47 | converting an already converted table succeeds and changes nothing |
| `SoldFilter.HasSubstringIff` | scripts/build_historical_dataset.py:51 | the substring search succeeds exactly when the pattern occupies some window of the string (both directions) |
| `SoldFilter.NotSoldIsKept` | scripts/build_historical_dataset.py:51 | `"Not Sold"` matches, because the test is containment and not equality; `"sold"` does not match |
| `SoldFilter.MarkerNeedsCapital` | scripts/build_historical_dataset.py:51 | the match is case-sensitive: a status without a capital `S` never matches |
| `SoldFilter.StripKeepsMarker` | scripts/build_historical_dataset.py:46-51 | stripping a status never changes whether it contains `Sold`, so the strip before the filter does not change which rows are kept |
| `SoldFilter.KeepSold` | scripts/build_historical_dataset.py:51 | the kept rows are a subsequence of the input; every kept row is sold, and every sold row is kept |
| `SoldFilter.KeepSoldOccurrences` | scripts/build_historical_dataset.py:51 | the filter keeps each sold row as many times as it occurs in the input, and no unsold row, so identical sold rows all survive |
| `SoldFilter.KeepSoldUnique` | scripts/build_historical_dataset.py:51 | any in-order selection of the rows that keeps every occurrence of each sold row and no unsold row is exactly the filter's result, so the filter's contract determines it |
| `SoldFilter.SubsequenceMultiset` | scripts/build_historical_dataset.py:51 | an in-order selection holds no row more often than the input does, which rules out skipping an occurrence of a sold row |
| `SoldFilter.KeepSoldConcat` | scripts/build_historical_dataset.py:51 | filtering a concatenation is the concatenation of the filtered parts |
| `SoldFilter.KeepSoldSingle` | scripts/build_historical_dataset.py:51 | one row is kept exactly when its status contains `Sold` (with the previous row this determines the filter) |
| `SoldFilter.FilterSold` | scripts/build_historical_dataset.py:51 | the filter fails when the status column is absent. It succeeds exactly when the status labels one column and every status is text. On success the columns are kept, the rows are a subsequence of the input, an input row is present exactly when its status contains `Sold`, and each sold row occurs as many times as in the input (with `KeepSoldUnique` this fixes the result) |
| `SoldFilter.FilterSoldKeepsOnlySold` | scripts/build_historical_dataset.py:51 | every row of the filtered table has a text status that contains `Sold` |
| `Pipeline.BuildHistorical` | scripts/build_historical_dataset.py:33-51 | a successful run yields a well-formed table whose labels are all normalized. It has no more rows than either input, and every row's `still_for_sale` is text containing `Sold` |
| `Pipeline.BuildRejectsRepeatedUrl` | scripts/build_historical_dataset.py:40 | when both prepared tables have one `url` column and a `url` value repeats in either, the whole run fails at the join with the one-to-one error |
| `Pipeline.JoinedColumnsNormalized` | scripts/build_historical_dataset.py:34-40 | joining two tables whose labels are normalized gives a table whose labels are normalized |

## Left out

- Reading the JSON files (lines 20-30) is file I/O. The model starts from the loaded record lists.
- Loading `.env` (line 15) is configuration plumbing.
- The parquet/gzip serialization and `stream_parquet_to_blob` upload (lines 13 and 55) are an external storage call. `BuildHistorical` returns the table that would be uploaded.
- `pd.to_datetime`'s date grammar is library behaviour. It is the `parse` parameter. `parse` says whether a string is an instant on an abstract integer time line, "not a time" (as for an empty string), or rejected.
- Datetimes.ToDatetime: the parser is applied to each value on its own. The library parses a whole column at once: it infers one format from the first value and applies it to the rest, and it treats mixed UTC offsets as a column-level matter. A column such as `["2021-01-01", "01/02/2021"]` that the library rejects can convert successfully in the model when `parse` accepts both values. The failure condition therefore holds only for a parser that judges each value independently.
- Datetimes.ToDatetime: the error names the first listed column that holds a rejected value, not the library's message text. When a date label names two columns, the library would fail on the shape of the assignment. The model converts both columns instead.
- Non-string JSON values (numbers, booleans) are not modelled. Every loaded value is text or missing. Because of this, dtype inference is not modelled: every column holding text or missing values is treated as an `object` column and stripped. A column of timestamps is passed over, as a datetime column is.
- The `_x`/`_y` suffixing of non-key columns present in both tables is not modelled. The joined table keeps both labels unchanged.
- Merge.InnerJoin: the rows come out in the order of the left table. No lemma depends on that order. When both tables have a key-column problem, the model reports the left table's problem. Which one the library reports in that case is not modelled.
- Frame.FromRecords: a record is a list of pairs. If a record repeats a label, the model reads the first pair's value. A Python dict keeps the last one. `json.load` never gives a dict with a repeated label.
- Lower-casing and whitespace are ASCII only. The model does not cover non-ASCII case mappings in `str.lower` or non-ASCII whitespace in `str.strip`. Whitespace is the ASCII set `str.isspace` accepts: tab, line feed, vertical tab, form feed, carriage return, the separators 28-31, and space.
- `str.contains` treats its pattern as a regular expression. `Sold` has no metacharacter, so the model uses plain substring search.
- The upload step itself, and any property of the published file, are not modelled.
