# Daily stock workflow: a Dafny model of its data shaping

`workflow_prefect.py` is a Prefect flow that runs once a day over a fixed list
of B3 tickers. It downloads each ticker's daily price table, adds a 50-day
moving average, draws and uploads reports, and records the day's three top
gainers and three top losers. This project models the three steps that shape
the data. Each step is proved against a specification.

- **Fetch** (`download_stock_data`, module `Download`). The loop goes over the
  ticker list and stores each downloaded frame in a dict. A ticker whose
  download raises is skipped, and the loop carries on. The provider is
  abstract: `responses[i]` is what the call for `tickers[i]` produced, either a
  table of rows (possibly empty) or an exception.
- **Indicators** (`calculate_indicators`, module `Indicators`). Each frame gets
  an `SMA_50` column. Row `i` has a value only when `i >= 49`, and that value
  is the mean of the closes of rows `i-49..i`. Frames are objects (`class
  Frame`). The column is added in place, and the returned dict holds the same
  frame objects under the same tickers, as in the Python code.
- **Top movers** (`record_top_movers`, modules `RecordMovers` and `Ranking`).
  Only tickers whose frame has a row for the given day are ranked. The change
  is that row's `Close - Open`, an absolute difference. `sorted(...,
  reverse=True)` is stable, so ties keep the dict's order, which is the
  ticker-list order. `[:3]` gives the gainers and `[-3:]` the losers. Both
  lists stay in descending order, and they share entries when one to five
  tickers are ranked.

Python's `dict` keeps insertion order, and that order decides ties in the
ranking. It is modelled as `OrderedDicts.Dict`: a key sequence plus a map, with
Python's rule that assigning to an existing key keeps its position.

Points of the code worth knowing:
- the change is `Close - Open`, not a percentage;
- a zero `Open` is not excluded;
- ties are not broken by ticker name;
- with fewer than three ranked tickers the losers are not reversed (lemma
  `Ranking.TwoTickerMovers`);
- an empty download is kept in the batch, not dropped.

The definitions that carry the model are the subjects of the lemmas in the
table below: `OrderedDicts.Empty` and `OrderedDicts.Dict.Items` are `{}`
and `.items()` (workflow_prefect.py:49, 62, 110, 111, 114);
`RecordMovers.DayChange` is `Close - Open` (workflow_prefect.py:113);
`RecordMovers.DailyChanges` is `changes.items()` after the loop
(workflow_prefect.py:110-113); `Ranking.SliceBound`, `Ranking.SliceTo` and
`Ranking.SliceFrom` are Python's slice rules, and `Ranking.Select` is
`sorted_changes[:3]` with `sorted_changes[-3:]` (workflow_prefect.py:115-116);
`Ranking.Movers` is the sort followed by the two slices
(workflow_prefect.py:114-116). `Frames.Closes` is `df['Close']` and
`Indicators.HasSma50` describes a frame after `df['SMA_50'] = ...`
(workflow_prefect.py:64); `OrderedDicts.Prefix` is the `indicators` dict
partway through its loop (workflow_prefect.py:62-66); `RecordMovers.RowsOf`
gives each frame's rows by ticker, as `df.loc` reads them
(workflow_prefect.py:111-113).

## Model

| member | source | states |
|---|---|---|
| `OrderedDicts.Dict.Insert` | workflow_prefect.py:53 | `d[k] = v` keeps the dict well formed: the new key is appended at the end, and an existing key keeps its place and gets the new value |
| `Frames.Frame.constructor` | workflow_prefect.py:52 | a downloaded frame holds the provider's rows and no `SMA_50` column yet |
| `Download.Downloaded` | workflow_prefect.py:49-57 | the batch built by the fetch loop is a well-formed dict |
| `Download.DownloadStockData` | workflow_prefect.py:48-57 | the loop returns exactly the `Downloaded` batch: same key order, and each frame is new, holds its ticker's rows and has no derived column |
| `Download.DownloadedKeys` | workflow_prefect.py:49-57 | a ticker is in the batch if and only if at least one of its fetches did not raise; a raising fetch drops nothing else |
| `Download.DownloadedValue` | workflow_prefect.py:52-53 | a ticker's stored rows are those of its last fetch that did not raise |
| `Download.EmptySeriesKept` | workflow_prefect.py:52-53 | an empty table returned without raising is stored under its ticker; nothing filters out empty tables |
| `Download.DownloadedOrder` | workflow_prefect.py:49-53 | with distinct tickers, of two fetched tickers the one earlier in the list is earlier in the batch |
| `Indicators.Sma50` | workflow_prefect.py:64 | the rolling mean column has one entry per close |
| `Indicators.SmaDefinedness` | workflow_prefect.py:64 | row `i` has an `SMA_50` value if and only if `i >= 49`, and the value is the sum of closes `i-49..i` divided by 50 |
| `Indicators.ShortSeriesHasNoSma` | workflow_prefect.py:64 | a series of fewer than 50 rows has no `SMA_50` value on any row |
| `Indicators.SmaSlide` | workflow_prefect.py:64 | from row 50 on, each value is the previous value plus (entering close minus leaving close) / 50 |
| `Indicators.SmaWithinWindow` | workflow_prefect.py:64 | each defined value lies between any lower and upper bound of the 50 closes in its window |
| `Indicators.AddSma50` | workflow_prefect.py:64 | assigning the column changes only that frame's `SMA_50`; its rows stay the same |
| `Indicators.CalculateIndicators` | workflow_prefect.py:61-68 | the result has the input's keys in the input's order and holds the same frame objects; every frame keeps its rows and gains the `SMA_50` column of its own closes |
| `Ranking.InsertDesc` | workflow_prefect.py:114 | inserting an entry yields one more element and the same multiset plus that entry |
| `Ranking.SortDesc` | workflow_prefect.py:114 | the sorted changes are a permutation of the input, with the same length, in non-increasing order of change |
| `Ranking.SortDescStable` | workflow_prefect.py:114 | for every change value, the entries with that value appear in the sorted output in the same order as in the input |
| `Ranking.SortDescIsStableSort` | workflow_prefect.py:114 | `SortDesc` meets the stable-descending-sort specification `IsStableSortDesc` |
| `Ranking.StableSortUnique` | workflow_prefect.py:114 | every output meeting that specification equals `SortDesc`, so the model does not depend on the sorting algorithm |
| `Ranking.SortDescTiesKeepOrder` | workflow_prefect.py:114 | of two sorted entries with equal change, the first one also comes first in the input |
| `Ranking.SelectShape` | workflow_prefect.py:115-116 | `[:3]` is the first `min(3, n)` entries and `[-3:]` the last `min(3, n)` entries, taken in place and never reversed |
| `Ranking.SelectSorted` | workflow_prefect.py:115-116 | both slices of a non-increasing sequence are non-increasing |
| `Ranking.SelectTop` | workflow_prefect.py:115 | the gainers are a sub-multiset of the sorted entries, and no entry left out has a larger change than a gainer |
| `Ranking.SelectBottom` | workflow_prefect.py:116 | the losers are a sub-multiset of the sorted entries, and no entry left out has a smaller change than a loser |
| `Ranking.SelectOverlap` | workflow_prefect.py:115-116 | for `0 < n < 6` some entry is in both slices; for `n >= 6` gainers, middle and losers concatenate back to the sorted sequence |
| `Ranking.MoversSorted` | workflow_prefect.py:114-116 | gainers and losers each hold `min(3, n)` entries in descending order of change |
| `Ranking.MoversAreExtremes` | workflow_prefect.py:114-116 | with respect to the unsorted changes, gainers are the largest changes and losers the smallest |
| `Ranking.SmallBatchMovers` | workflow_prefect.py:114-116 | with at most three ranked tickers, gainers and losers are the same list, holding every ranked entry |
| `Ranking.MoversOverlap` | workflow_prefect.py:114-116 | with one to five ranked tickers some entry is both a gainer and a loser; six or more means no entry is counted twice |
| `Ranking.NoMoversWhenNoChanges` | workflow_prefect.py:114-116 | with no ranked ticker, both lists are empty and nothing fails |
| `Ranking.TwoTickerMovers` | workflow_prefect.py:114-116 | with `A: +1.5` and `B: -2.0`, both gainers and losers are `[A, B]`; the losers are not reversed |
| `RecordMovers.RowOn` | workflow_prefect.py:112-113 | `last_day in df.index` holds if and only if some row has that date, and then the row found has that date |
| `RecordMovers.RowOnUnique` | workflow_prefect.py:112-113 | when dates are unique, the row found for a date is the row with that date |
| `RecordMovers.DailyChangesMember` | workflow_prefect.py:110-113 | `(t, c)` is ranked if and only if `t` is in the batch, its frame has a row for the day, and `c` is that row's `Close - Open` |
| `RecordMovers.DailyChangesOrder` | workflow_prefect.py:111-113 | the ranked entries follow the batch's ticker order |
| `RecordMovers.TiesFollowTickerOrder` | workflow_prefect.py:111-114 | two tickers ranked with equal change appear in the sorted ranking in batch order, with no tie-break by name |
| `RecordMovers.NoRowForDay` | workflow_prefect.py:110-116 | if no frame has a row for the day, nothing is ranked and both lists are empty |
| `RecordMovers.RecordTopMovers` | workflow_prefect.py:108-116 | the loop over the batch and the sort and slices give exactly `Movers(DailyChanges(...))` for the batch's rows on `last_day` |

## Left out

- The `yfinance` download is a network call. It is replaced by the list of provider outcomes, one per call. So the start and end dates and the shape of yfinance's frames are not modelled.
- Google Drive mounting, `os.makedirs`, `to_csv` and file paths are filesystem I/O.
- `generate_reports` (matplotlib charts) is rendering.
- `upload_to_drive_and_create_link` writes files. It is also not runnable as written: `create_link_artifact` is never imported, so the first ticker raises `NameError`. The flow calls this task before `record_top_movers` (workflow_prefect.py:136-137), so for a non-empty batch the flow stops once the retries are spent, and `record_top_movers` is reached only with an empty batch. The model treats `RecordTopMovers` on its own and does not model this ordering.
- The flow `stock_workflow`, the deployment and cron schedule, secret loading, `os.system` login, `asyncio`/`nest_asyncio` and the `!pip` line are scheduler and infrastructure plumbing.
- Prefect's `retries=3, retry_delay_seconds=10` are carried out by the framework, not by this code.
- `set_variable`/`get_variable`, `create_table_artifact` and the `print` logging are foreign calls. `RecordTopMovers` returns the gainers and losers instead of posting them.
- The `Volatility` column (a rolling sample standard deviation) needs a square root and floating point.
- The `:.2f` string formatting of the table entries is float formatting.
- `datetime.now()` is a clock. `last_day` is a parameter of `RecordTopMovers`, and days are plain integers.
- Prices are exact reals. NaN cells, float rounding in the rolling mean and NaN comparisons in the sort are not modelled.
- `RecordMovers.RowOn`: takes the first row with the date. With a duplicated date pandas would return several rows, which the code does not expect. `RowOnUnique` covers the case where dates are unique.
- `Indicators.CalculateIndicators`: every frame is assumed to have a `Close` column. A frame without one would make pandas raise `KeyError` and fail the whole task, and that case is not modelled.
