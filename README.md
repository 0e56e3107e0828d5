# Price-list dashboard: cleaning and headline counts

This project models the data logic of the Miami price-list dashboard, `sinopsis_dashboard.py`.
It loads a table of product prices and cleans it in five steps, in this order:

1. Fill the missing cells of twelve text columns with `"N/A"`.
2. Turn the store phone column into text.
3. Keep the rows whose unit price is above zero.
4. Drop exact repeated rows.
5. Drop the total-quantity column (`Cantidad Total`).

It then shows four counts:

- the number of product categories;
- the number of points of sale, where a store's name and address are run together into one string;
- the number of products;
- the number of prices.

## How the model is organised

- `selection.dfy` (module `Selection`) holds the library's row selection:
  - Boolean indexing (`Mask`).
  - `drop_duplicates` with `keep='first'`. This is boolean indexing by "not equal to an earlier element".
  - Counting the image of a set.
- `frame.dfy` (module `Frame`) holds the table:
  - Cells are missing (NaN), text or a number.
  - A row maps every column name to its cell.
  - The operations are the column-wise ones the script uses: `fillna`, `astype(str)`, `> 0`, boolean indexing, `drop_duplicates`, `drop(col, axis=1)`, `nunique` and `+` on two columns.
  - Indexing an absent column is a `KeyError`.
  - Comparing text with a number, or adding text to a number, is a `TypeError`.
- `cleaning.dfy` (module `Cleaning`) holds the cleaning block (lines 59-83) as functions, and the lemmas about what each step and the whole block do.
- `summary.dfy` (module `Summary`) holds the four counts (lines 91-113) and their meaning on a cleaned table.
- `dashboard.dfy` (module `Dashboard`) holds the script's own form:
  - Lines 60-74 change the one `df` in place. They are a `DataFrame` class whose `SetColumn` method replaces a column.
  - `FillNullColumns` fills the twelve columns one after the other.
  - `RunDashboard` runs the script from the loaded table to the page. It is proved equal to the composition of the functions.

How a number is turned into text by `astype(str)` is a parameter, `numText: real -> string`. A missing cell becomes the text `"nan"`.

Two behaviours of the code that a reader might not expect are kept as written:

- **Repeated rows.** Dropping repeated rows (line 80) does not leave the cleaned table free of repeats. The quantity column is dropped afterwards (line 83), so two rows that differ only in quantity both survive the duplicate drop and then become equal. `Cleaning.RepeatAfterDrop` shows such a table, and `Cleaning.RepeatsDifferOnlyInDropped` says that this is the only way two cleaned rows can be equal.
- **Phone.** The phone column is not among the twelve filled columns (lines 60-71). Its conversion to text (line 74) therefore turns a missing phone into `"nan"`, not `"N/A"`.

The store count keeps the code's behaviour. Name and address are concatenated with no separator, so two different stores can be counted as one. `Summary.StoreCountByPairs` states exactly when this happens, and `Summary.StoreKeyCollision` gives an instance.

## Model

| member | source | states |
|---|---|---|
| Frame.ApplyResult | sinopsis_dashboard.py:60-74 | `fillna` leaves no missing cell, keeps every present cell, fills a missing one with the given text, and applying it twice changes nothing. `astype(str)` gives only text, keeps text, and turns a missing cell into "nan" |
| Frame.MapColumn | sinopsis_dashboard.py:60-74 | replacing a column by a cellwise function of itself succeeds exactly when the column exists; otherwise it is a KeyError on it. Columns, row count and row keys are unchanged; the named column's cells become the function of themselves, and every other cell is unchanged |
| Frame.GreaterThanZero | sinopsis_dashboard.py:77 | `df[col] > 0` is defined exactly when the column exists and holds no text. An absent column is a KeyError; text is a TypeError. Otherwise there is one flag per row, set exactly when the cell is a number above zero (so a missing price gives false) |
| Frame.SelectRows | sinopsis_dashboard.py:77 | boolean indexing keeps the columns and never adds rows; a row is in the result exactly when some position holding it is flagged |
| Selection.MaskMember | sinopsis_dashboard.py:77 | an element survives the mask exactly when some position holding it is kept |
| Selection.MaskAppend | sinopsis_dashboard.py:77 | the mask keeps order: masking a concatenation gives the mask of the first part followed by the mask of the second |
| Frame.DropDuplicateRows | sinopsis_dashboard.py:80 | after `drop_duplicates` no two rows are equal on all columns (quantity included), the set of rows is unchanged, and the row count is the number of different rows |
| Selection.DropDuplicatesSpec | sinopsis_dashboard.py:80 | dropping duplicates leaves no repeats, keeps exactly the set of elements, and has as many elements as the input has distinct values |
| Selection.DropDuplicatesSnoc | sinopsis_dashboard.py:80 | appending an element appends it to the result exactly when it has not occurred before (the first occurrence is the one kept) |
| Selection.DropDuplicatesAppend | sinopsis_dashboard.py:80 | order is kept: the result on `a + b` is the result on `a` followed by the elements of `b` that are new to `a` and to the earlier part of `b` |
| Selection.DropDuplicatesOfDistinct | sinopsis_dashboard.py:80 | a sequence with no repeats is left as it is |
| Selection.DropDuplicatesIdempotent | sinopsis_dashboard.py:80 | dropping duplicates twice is the same as dropping them once |
| Frame.DropColumn | sinopsis_dashboard.py:83 | `drop(col, axis=1)` succeeds exactly when the column exists, otherwise a KeyError on it. The result has every other column and not this one, column names stay distinct, the row count is unchanged, and each row loses exactly that cell |
| Selection.MaskDistinct | sinopsis_dashboard.py:83 | keeping some of a list of distinct column names gives distinct names |
| Frame.NUnique | sinopsis_dashboard.py:94 | `nunique` is at most the length of the column |
| Frame.NUniqueIsDeduplicatedLength | sinopsis_dashboard.py:94 | on a column with no missing cell, `nunique` is the length of the column after dropping duplicates |
| Frame.AddColumns | sinopsis_dashboard.py:100 | `df[a] + df[b]` is defined exactly when both columns exist and no row adds text to a number. A row with a missing side gives a missing cell, two text cells give their concatenation, and two numbers give their sum. An absent `a` is a KeyError on `a`; otherwise an absent `b` is a KeyError on `b`; otherwise the failure is a TypeError on `a` |
| Selection.ImageCard | sinopsis_dashboard.py:100 | a set has at least as many elements as its image, and exactly as many iff no two elements share an image |
| Cleaning.FillNullsEffect | sinopsis_dashboard.py:60-71 | filling a list of columns succeeds exactly when all are present, and then fills the missing cells of those columns and of no other. A failure is the KeyError of the first listed column that is absent |
| Cleaning.TypeFixedEffect | sinopsis_dashboard.py:60-74 | the in-place part succeeds exactly when the twelve filled columns and the phone column exist. It keeps columns and row count and changes each row as `FixRow`; a failure is the KeyError of the first of those columns, in statement order, that is absent |
| Cleaning.FixRowCells | sinopsis_dashboard.py:60-74 | after lines 60-74 each of the twelve columns holds its own value or "N/A" and none is missing. The phone is text, a missing phone being "nan" and a text phone unchanged. Price and quantity are untouched |
| Cleaning.PhoneNotFilled | sinopsis_dashboard.py:60-74 | the phone column is not among the twelve filled columns |
| Cleaning.CleanErrors | sinopsis_dashboard.py:59-83 | which error the cleaning block raises: with a column read through line 77 absent, the KeyError of the first such column; with those present and text in the price, the TypeError of line 77; with those present, no text price and no quantity column, the KeyError of line 83 |
| Cleaning.CleanSucceeds | sinopsis_dashboard.py:59-83 | the cleaning block succeeds exactly when every column it reads exists and the price column holds no text. Otherwise it fails at the first statement that fails: a KeyError on the first absent column read through line 77, else the TypeError of the price comparison, else the KeyError on the quantity at line 83 |
| Cleaning.KeepPositiveRows | sinopsis_dashboard.py:77 | the price filter succeeds exactly when the price column exists and holds no text. It keeps the columns, never adds rows, and keeps exactly the rows whose price is a number above zero |
| Cleaning.KeepPositiveAppend | sinopsis_dashboard.py:77 | survivors keep their relative order: filtering `a + b` gives the survivors of `a` followed by those of `b` |
| Cleaning.DedupThenDropRows | sinopsis_dashboard.py:80-83 | after the duplicate drop and the column drop, a row is present exactly when it is some input row without that column, and there are no more rows than before |
| Cleaning.RepeatsDifferOnlyInDropped | sinopsis_dashboard.py:80-83 | two equal rows of the result come from rows that differed in the dropped column |
| Cleaning.RepeatAfterDrop | sinopsis_dashboard.py:80-83 | a two-row table whose rows differ only in quantity gives two equal rows after the duplicate drop and the column drop |
| Cleaning.CleanedRows | sinopsis_dashboard.py:59-83 | the cleaned table has no more rows than the raw one. A row is in it exactly when it is a raw row with a positive price, filled, with the phone as text, and without the quantity. Its columns are the raw ones except the quantity |
| Cleaning.CleanedInvariants | sinopsis_dashboard.py:59-83 | the cleaned table has no quantity column, and every row has a price above zero, none of the twelve columns missing, the phone as text and no quantity cell |
| Summary.StoreCount | sinopsis_dashboard.py:100 | the store count exists exactly when the name and address columns exist and every row's name and address can be added; it is then at most the row count. An absent name is a KeyError on it; otherwise an absent address is a KeyError on it; otherwise the failure is a TypeError on the name |
| Summary.Summarize | sinopsis_dashboard.py:91-113 | the four counts exist exactly when the category, name, address, description and price columns exist and every row's name and address can be added. The price count is then the row count, and the other three are at most it. Failures follow the script's order: a KeyError on the category (line 94); a KeyError on the name or address, or a TypeError on the name (line 100); a KeyError on the description (line 106); a KeyError on the price (line 112) |
| Summary.NUniqueOfColumn | sinopsis_dashboard.py:94 | on a column with no missing cell, `nunique` is the number of different values in it |
| Summary.StoreKeysOfText | sinopsis_dashboard.py:100 | with every name and address text, name plus address is defined, and its different values are the run-together (name, address) pairs |
| Summary.StoreCountByPairs | sinopsis_dashboard.py:100 | with every name and address text, the store count is the number of different name-plus-address strings. This is at most the number of different (name, address) pairs, with equality exactly when no two pairs run together into the same string |
| Summary.StoreKeyCollision | sinopsis_dashboard.py:100 | stores ("ab", "c") and ("a", "bc") are two pairs but are counted as one point of sale |
| Summary.CleanedStoresAreText | sinopsis_dashboard.py:59-83 | names and addresses that were text or missing in the raw table are all text after cleaning |
| Summary.CleanedStoreKeys | sinopsis_dashboard.py:59-100 | every name and address of the cleaned table can be added exactly when they can in every raw row with a positive price after lines 60-74 |
| Summary.CountsOfCleaned | sinopsis_dashboard.py:91-113 | whenever the counts of a cleaned table exist, the price count is its row count, and the category and product counts are the numbers of different values in their columns |
| Summary.SummaryOfCleaned | sinopsis_dashboard.py:91-113 | on a cleaned table whose raw names and addresses were all text or missing, the counts exist. The price count is the row count; the category and product counts are the numbers of different values in their columns; the store count is the number of different name-plus-address strings, at most the number of (name, address) pairs. Without that condition a numeric name next to a text address makes line 100 a TypeError (`Summary.Summarize`) |
| Dashboard.DataFrame.constructor | sinopsis_dashboard.py:57 | the frame holds the loaded table |
| Dashboard.DataFrame.SetColumn | sinopsis_dashboard.py:60-74 | the in-place column assignment: the frame's new table is the cellwise replacement of the column, or, when the column is absent, a KeyError on it with the frame unchanged |
| Dashboard.FillNullColumns | sinopsis_dashboard.py:60-71 | filling the twelve columns in place, in source order, leaves the frame at the table the fill function describes, and fails with the same KeyError when a column is absent |
| Dashboard.RunDashboard | sinopsis_dashboard.py:57-113 | running the script on a frame (in-place fills and conversion, then filter, duplicate drop, column drop and counts) gives exactly the cleaned table and counts of the functional model, or its first error |
| Dashboard.PageShown | sinopsis_dashboard.py:57-113 | a raw table with every column the script reads, no text price, and text or missing names and addresses always yields a page. Its price count is the cleaned row count, at most the raw row count; the category and product counts are at most that, and the store count is at most the number of (name, address) pairs |
| Dashboard.PageShownExactly | sinopsis_dashboard.py:57-113 | the page appears exactly when every column the script reads exists, no price is text, and in every raw row with a positive price the filled name and address can be added. Otherwise the error is the cleaning block's, or the TypeError of line 100 |

## Left out

- The page itself (title, CSS, headers, markdown, questions and answers, metric tiles): it is display only. The counts are modelled as naturals; `round` of an integer count changes nothing.
- Reading the CSV file (`get_data`, `read_csv`) and its caching: this is file I/O and framework memoisation. The model takes the loaded table as its input, and a well-formed table (distinct column names, every row with every column) stands for what the reader produces.
- The interactive filter widget and the grid's column formatting: the widget's filtering logic is third-party code that is not part of this model.
- The CSV export (`convert_df`, `to_csv`, the download button): the serialiser is not part of this model, and the step is cached I/O. The round trip of the export is therefore not stated.
- The latitude/longitude sample table: it is built and never used.
- The exact text `astype(str)` writes for a numeric phone: it is the parameter `numText`, not float formatting.
- The row index the library keeps alongside the rows: the cleaning steps never read it, and the model's rows carry only their cells.
- Column dtypes: a column is modelled by its cells. The library's type rules appear only where the script can fail: comparing text with a number, and adding text to a number.
- Floating point: a number cell holds an exact real. This agrees with the library's comparisons and equality tests on the values the script compares, but two float behaviours are not captured: the sum of two numeric cells (line 100, only reached when name and address are both numbers) is not rounded, and a price read as infinity cannot be represented, although line 77 would keep its row.
- The twelve separate fill statements: the model runs them as one loop (`Dashboard.FillNullColumns`) over the list of the twelve columns, in the same order and with the same effect.
