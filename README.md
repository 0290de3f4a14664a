# Video-game sales pipeline: a Dafny model

The pipeline has three scripts:

- `src/scraped_data.py` crawls the paginated VGChartz games listing. It keeps the text of the useful cells of every results row and builds one labelled table per page. It concatenates the page tables in page order.
- `src/update_database.py` loads the cleaned records into the MySQL table `games`. It turns NaN into NULL and runs one `INSERT ... ON DUPLICATE KEY UPDATE` per record, keyed on `(Pos, Game, Publisher)`. It commits after every record.
- `src/dashboard.py` is a Streamlit dashboard. Its `load_data` keeps the records with a usable positive release year. Its sidebar selects the records of a year range and, optionally, of one publisher. Two tiles count the distinct games and publishers shown.

The model has four modules, one file each.

- `Wrappers` (`wrappers.dfy`) holds `Option` and `Result`.
- `Scraper` (`scraper.dfy`) is imperative, as the script is.
  - `Crawl` is the page loop, with its `break`. It accumulates the result through `AppendPage`.
  - `CleanPage` and `CleanRow` are the two nested loops that build the cleaned rows.
  - Each method is proved against a specification function: `Crawled`, `Aggregate`, `CleanedRows` and `KeptCells`.
  - The lemmas state what those functions promise: which cells are kept, the width and labels of a page table, and where every cell of a page lands in the final table.
  - A data frame is a `Frame`: its column labels and its rows of optional strings. `None` is a missing cell. A page table is labelled with the first `width` expected columns.
  - `Concat` is `pd.concat` aligned by label. The result carries the first frame's labels, then the second frame's labels the first lacks. Every row is realigned to those labels. `ConcatAlignsByPosition` proves that for frames labelled with leading expected labels this is the same as concatenating by position.
- `Sync` (`sync.dfy`) models the database side.
  - `GamesDatabase` is a class. Its field `table` is the table the connection sees, and its field `committed` is the table as last committed.
  - `Execute` runs the upsert statement and `Commit` is `db.commit()`.
  - `SyncRows` is the loop. It is specified by the function `ApplyAll` over the rows the loop gets through.
  - `ApplyAll` is related to `LastWrites`, the map from each input key to its last row's columns. `LastWrites` is the same fold started from no rows. The statements that do not depend on either definition are `LastWritesKeys` and `LastWriteAt`: which keys are present, and which row wrote each. The lemmas also state last-writer-wins, nothing deleted and idempotence.
- `Dashboard` (`dashboard.dfy`) models the row filters, the selection and the distinct-count tiles as functions over sequences of rows.

The web server, the HTML parser, the CSV files and the MySQL server are not modelled. They are parameters or inputs:

- a page is `Option<seq<seq<Cell>>>`, the result of fetching the page and selecting its results table;
- the data frame read from the CSV file is a sequence of rows;
- the numeric coercion of `release_year` is a function parameter;
- the year range and the chosen publisher are plain parameters.

## Model

| member | source | states |
|---|---|---|
| Scraper.KeptCellsAt | src/scraped_data.py:47-60 | A cleaned row of n cells has n − \|{1,3} ∩ [0,n)\| entries. Entry j is the text of the cell at the j-th position other than 1 and 3, and positions stay in increasing order. Every cell not at position 1 or 3 appears, at its position minus the skipped positions below it. |
| Scraper.KeptCellsSnoc | src/scraped_data.py:47-60 | Taking one more cell adds its text to the cleaned row, unless the cell is at position 1 or 3, in which case nothing is added. |
| Scraper.KeptCellsIgnoreLinks | src/scraped_data.py:49-60 | The cleaned row depends only on the cells' texts, never on their links. Every emitted entry is the text of a kept cell. |
| Scraper.CleanRow | src/scraped_data.py:46-60 | The cell loop, with its `continue` and its game-link branch, builds exactly the cleaned row `KeptCells`. So the link branch, with its empty-string placeholder, never adds a cell. |
| Scraper.CleanedRowsAppend | src/scraped_data.py:40-63 | Cleaning two runs of rows gives the two results one after the other, so row order is kept. |
| Scraper.CleanedRowsCount | src/scraped_data.py:40-63 | A page yields one cleaned row per row that has `td` cells. It yields none exactly when every row has no `td`. |
| Scraper.CleanPage | src/scraped_data.py:37-63 | The row loop skips rows without `td` and collects the cleaned rows, giving exactly `CleanedRows`. |
| Scraper.LongestRowIsMax | src/scraped_data.py:66 | The frame width before truncation is the length of the longest cleaned row: no row is longer, some row has that length, and it is 0 for no rows. |
| Scraper.ExpectedColumnsDistinct | src/scraped_data.py:12-15 | No expected column name occurs twice. |
| Scraper.PageFrame | src/scraped_data.py:66-73 | A page table has at most 14 columns, labelled with the first that many expected names in order. Every row has one cell per column, and there is one row per cleaned row. |
| Scraper.PageFrameShape | src/scraped_data.py:66-70 | A page table's width is min(longest cleaned row, 14), and 0 for no rows. A longer row keeps its first 14 cells; a shorter row has missing values in the trailing columns. |
| Scraper.PageCell | src/scraped_data.py:66-70 | Cell c of row j of a page table is entry c of cleaned row j when that exists, otherwise missing. |
| Scraper.NewLabelsSplit | src/scraped_data.py:76 | When the first k labels of the second table occur in the first and the rest do not, the union adds exactly the rest, in order. |
| Scraper.Concat | src/scraped_data.py:76 | Concatenating two tables gives as many rows as both have together. |
| Scraper.PrefixIndex | src/scraped_data.py:73-76 | Among the first v expected names, expected name c is found at position c when c < v, and is absent otherwise. |
| Scraper.UnionOfPrefixes | src/scraped_data.py:73-76 | The column union of two tables labelled with leading expected names is the longer of the two label lists. |
| Scraper.AlignPrefix | src/scraped_data.py:73-76 | Realigning a row labelled with the first v expected names to the first w ≥ v keeps every cell in its column and adds missing cells after them. |
| Scraper.ConcatLabelled | src/scraped_data.py:73-76 | Concatenating two labelled tables gives a labelled table as wide as the wider one: its labels are the leading expected names, and every row has one cell per column. |
| Scraper.ConcatAlignsByPosition | src/scraped_data.py:73-76 | For labelled tables, concatenation by label equals concatenation by position. Labels are the longer list; the first table's rows come first, then the second's, each keeping its cells in place with missing values beyond its own width. |
| Scraper.ConcatFirstPrefix | src/scraped_data.py:76 | The concatenation of the first n tables depends only on those n tables. |
| Scraper.ConcatFirstLabelled | src/scraped_data.py:76 | Concatenating labelled tables in order gives a labelled table. |
| Scraper.ConcatFirstAlignsByPosition | src/scraped_data.py:73-76 | Concatenating labelled tables one after another by label gives the same table as doing so by position. |
| Scraper.PositionalFirstRows | src/scraped_data.py:76 | Concatenating a sequence of tables gives as many rows as they have together. |
| Scraper.PositionalFirstWidth | src/scraped_data.py:76 | The concatenation's width is the largest width among the tables, and 0 for none. |
| Scraper.PositionalFirstRow | src/scraped_data.py:76 | Row j of table p sits at row RowsBefore(p) + j of the concatenation. It keeps its cells in place and has missing values beyond its own width. |
| Scraper.PageFramesLabelled | src/scraped_data.py:66-73 | Every page table is labelled. |
| Scraper.AggregateLabelled | src/scraped_data.py:69-76 | The accumulated table has at most 14 columns, labelled with the leading expected names, and every row has one cell per column. |
| Scraper.AggregateSnoc | src/scraped_data.py:76 | Crawling one more page appends that page's table to the accumulated table. |
| Scraper.HeaderOnlyPageAddsNothing | src/scraped_data.py:40-76 | A page with a table whose rows all lack `td` leaves the accumulated table exactly as it was. |
| Scraper.PageRowCount | src/scraped_data.py:40-66 | A page table has one row per row of the page that has `td` cells. |
| Scraper.DataRowsBeforePages | src/scraped_data.py:40-76 | The rows contributed by the pages before page p are the rows with `td` cells on those pages. |
| Scraper.AggregateByPosition | src/scraped_data.py:66-76 | The accumulated table, built by label, equals the positional concatenation of the page tables. |
| Scraper.AggregateRowCount | src/scraped_data.py:63-79 | The final table has as many rows as there are rows with `td` cells over all crawled pages. |
| Scraper.AggregateWidth | src/scraped_data.py:69-76 | The final table's width is the largest page-table width, and 0 when no page was crawled. |
| Scraper.AggregateCell | src/scraped_data.py:66-76 | Cleaned row j of page p is row DataRowsBefore(p) + j of the final table. Its cell c is entry c of that row when c < min(row length, 14), otherwise missing. |
| Scraper.CrawledPages | src/scraped_data.py:18-31 | The crawled tables are those of consecutive pages, each of which had a table. The page after them had none, or the limit was reached. |
| Scraper.CrawledUnique | src/scraped_data.py:18-31 | The crawl is the only run of consecutive pages that each have a table and end at the limit or at a page without one. |
| Scraper.AppendPage | src/scraped_data.py:34-76 | Processing a page with a table turns the accumulated table of the earlier pages into that of the earlier pages plus this one. |
| Scraper.Crawl | src/scraped_data.py:18-76 | Pages are requested as 1, 2, 3, … with at most 199 requests. Every page before the last request had a table. The loop stops at the first page without one or after page 199. The result is the aggregate of the crawled pages' tables in page order. |
| Sync.Params | src/update_database.py:9 | A parameter is NULL exactly when its cell was NaN. Every other cell is passed unchanged. |
| Sync.ParamRows | src/update_database.py:9 | Every data-frame row becomes its parameter row, in order. |
| Sync.NonKey | src/update_database.py:57-76 | The update assigns all 19 non-key columns. |
| Sync.Upsert | src/update_database.py:54-78 | The statement fails exactly for a wrong parameter count or a NULL key column, and then the table is unchanged. Otherwise the key's row holds the 19 new values, NULLs included. No other row changes and no row is removed. |
| Sync.FirstRejected | src/update_database.py:53-78 | The loop gets through every row before the first one the statement refuses. |
| Sync.FirstRejectedIs | src/update_database.py:53-78 | The first refused row is unique: any index with all earlier rows accepted and itself refused, or the end, is it. |
| Sync.ApplyAll | src/update_database.py:53-79 | Upserting the rows keeps well-formedness and deletes no key. Every input key ends up present. |
| Sync.ApplyAllIsOverlay | src/update_database.py:53-78 | Upserting the rows one by one equals laying each key's last write over the prior table. |
| Sync.LastWritesKeys | src/update_database.py:48 | The last writes hold one entry per distinct key among the rows. |
| Sync.LastWriteAt | src/update_database.py:57-78 | A key's last write is the non-key columns of the last row with that key. |
| Sync.ApplyAllKeys | src/update_database.py:48-78 | After the loop the table holds exactly one row per distinct key of the prior contents and the input. |
| Sync.LastWriterWins | src/update_database.py:57-78 | A key's stored columns are those of the last input row carrying it. |
| Sync.UntouchedRowsKept | src/update_database.py:53-79 | A stored row whose key no input row carries is unchanged. |
| Sync.ApplyAllIdempotent | src/update_database.py:53-79 | Upserting the same rows a second time changes nothing. |
| Sync.LaterRunWins | src/update_database.py:53-79 | After two runs, every key the later run supplies holds the later run's values, whatever the earlier run wrote. |
| Sync.SyncTwiceSameAsOnce | src/update_database.py:53-79 | Running the whole loop twice over the same data frame commits the same table as running it once. |
| Sync.GamesDatabase.constructor | src/update_database.py:24-49 | CREATE TABLE IF NOT EXISTS keeps the existing rows as both the visible and the committed table. |
| Sync.GamesDatabase.Execute | src/update_database.py:78 | Executing the statement reports the statement's error and leaves the table unchanged on error. Otherwise the table becomes the upserted one. |
| Sync.GamesDatabase.Commit | src/update_database.py:79 | After a commit the committed table is the visible table. |
| Sync.ApplyAllStep | src/update_database.py:53-79 | Each pass of the loop upserts one more accepted row onto the table left by the earlier ones. |
| Sync.SyncRows | src/update_database.py:53-79 | The loop applies and commits rows 0..k−1, where k is the first refused row. It reports row k's error, or none when every row was applied. The committed table is the upsert of exactly those rows over the prior table. |
| Dashboard.LoadData | src/dashboard.py:17-23 | load_data returns no more rows than it read, and each has a release year > 0. |
| Dashboard.LoadDataMembers | src/dashboard.py:20-22 | A row is loaded exactly when some file row's release_year coerces to a number whose integer part is positive. The loaded row has that year and every other column unchanged. |
| Dashboard.LoadDataAppend | src/dashboard.py:20-23 | Loading two runs of rows gives the two results one after the other, so surviving rows keep their order. |
| Dashboard.Where | src/dashboard.py:49 | A boolean-mask selection has no more rows than its input, and its mask accepts every row it holds. `WhereSpec` states that these rows come from the input. |
| Dashboard.WhereSpec | src/dashboard.py:49-51 | A boolean-mask selection is a subsequence of its input. A row is in it exactly when the row is in the input and the mask accepts it. |
| Dashboard.WhereCounts | src/dashboard.py:49-51 | A boolean-mask selection keeps every copy of an accepted row: each accepted row occurs as often as in the input, a refused row not at all. |
| Dashboard.WhereAppend | src/dashboard.py:49-51 | Selecting from two parts of a table gives the two selections one after the other, so the selected rows keep their order. |
| Dashboard.SelectSpec | src/dashboard.py:49-51 | Every shown row has start ≤ release_year ≤ end, and the chosen publisher unless the choice is All. A row value is shown exactly when the data has it and it meets those conditions, so All removes nothing. The shown rows are a subsequence of the data. |
| Dashboard.SelectCounts | src/dashboard.py:49-51 | A row meeting the year range and the publisher choice is shown as many times as it occurs in the data. Any other row is not shown at all. |
| Dashboard.NUnique | src/dashboard.py:64 | nunique is at most the row count, and 0 exactly when every value is missing. |
| Dashboard.TilesCountDistinct | src/dashboard.py:59-101 | Total Games and Total Publishers are the numbers of distinct non-missing game titles and publishers among the shown rows. Neither exceeds the number of rows shown. |
| Dashboard.OnePublisherTile | src/dashboard.py:97 | With one publisher chosen, Total Publishers is 1 when any row is shown and 0 otherwise. |

## Left out

- Fetching a page over HTTP, parsing its HTML and selecting `#generalBody table`. A page is the abstract value `fetch(page)`: no table, or rows of cells with their text already stripped.
- The progress and final `print` messages, including the message naming a different file than the one written. They are console output.
- Writing `games_data_2.csv`, and reading `cleaned_games_data.csv` in the loader and in the dashboard. This is file I/O; the data frame is an input.
- The column union of `pd.concat` is modelled for label lists without repeats, as every page table has. Column dtypes after concatenation are not modelled.
- pandas' dtype inference. Cells are modelled as strings in the scraper and as opaque values in the loader.
- The MySQL connection, `CREATE DATABASE`, `USE`, and closing the cursor and connection. This is server I/O.
- Sync.GamesDatabase.constructor: it does not model a pre-existing `games` table with a different schema.
- Column types and widths of `games`: FLOAT and DATE conversion and the VARCHAR(255) limit. These are server behaviour. Their errors are covered under `Sync.SyncRows` below.
- Key comparison under the server's collation. Keys are compared for exact equality.
- Sync.SyncRows: it does not model a failure of the connection itself, or any server error besides the two statement errors modelled. Among these are a text longer than its VARCHAR(255) column and a value the server cannot convert to FLOAT or DATE. Under MySQL's default strict SQL mode these are refused with an error ("Data too long" for the first), which would end the loop at that row. The model lets such rows through.
- `pd.to_numeric(..., errors='coerce')` followed by `astype(int)`. Both are abstracted as one function parameter, `toYear`, giving the truncated integer or nothing.
- Dashboard.LoadData: it does not model `astype(int)` raising on a numeric-looking string with a fractional part.
- The Streamlit page, widgets, HTML tiles and charts. Of the widgets, only the year range (two integers) and the chosen publisher are kept.
- Dashboard.SelectSpec: it does not model choosing a missing publisher, which would show no rows.
- A publisher literally named "All" cannot be selected, as in the script.
- The sales, shipped and score sums, means and correlations. They are floating-point aggregates.
