# Mac Everything — a verified model of the search window's logic

Mac Everything is a small desktop file finder for macOS. The user types a
query, the window waits 300 ms for typing to pause, runs Spotlight's `mdfind
-name <query>`, and lists the hits in a four-column table: name, directory,
size in KB and modification time. A hit that no longer exists or may not be
read is left out of the table. Any other error reading a hit's attributes
stops the listing and shows that error. Selecting a row puts the file's full size
in the status line. Double-clicking a row reveals the file in Finder.

This project models the deterministic layer of `mac_everything.py` in Dafny
and proves what it promises:

- `format_size_kb` and `format_size_full` (module `SizeFormat`). They are
  built on exact models of Python's integer formatting (`f"{n}"` and
  `f"{n:,}"`) and of its `.Nf` formatting of a quotient, which rounds half to
  even; the quotient is taken exactly (module `Decimal`).
- The comparison written in `FileTreeWidget.__lt__` (module `Rows`). It is a
  free predicate `Less(column, a, b)` over a `Row` value, proved to be a
  strict weak order.
- The search window's state (module `Search`, class `SearchWindow`):
  - the debounce of the search box
  - `perform_search`: stripping the query, the external search, keeping the
    non-blank output lines, the population loop that stats each path and
    splits it into base name and directory, and the status line
  - the handlers that put a row's full size or an error in the status line
- The Python library behaviour these rely on, modelled as Python defines it:
  - `str.strip()` with Python's whitespace set, `str.splitlines()` with its
    line boundaries, and `<` on strings by code point (module `PyText`)
  - `os.path.basename` and `os.path.dirname` (module `PosixPath`)

The outside world becomes parameters of the methods:

- `mdfind` is a function from the query to a `SearchRun`: the exit code, the
  standard output and the standard error, or a launch failure.
- `os.stat` is a function from a path to a `StatOutcome`: size and mtime,
  `FileNotFoundError`, `PermissionError`, or any other `OSError` with its
  message.
- `format_time` is a function from a timestamp to its text.
- `open -R` is a function from a path to the message of the error it raised,
  if any.

The QTimer becomes a `timerPending` flag, which firing clears
(`OnTimerTimeout`). A ghost field `queries` records every query handed to
`mdfind`, so that "runs no search" can be stated.

The status count is `len(results)`: the non-blank output lines, including
paths that could not be stat'ed and were skipped. It is not the number of
rows shown (`SearchOutcomeMeaning`, `DroppedPathsStillCount`).

## Model

| member | source | states |
|---|---|---|
| Decimal.ReadGrouped | mac_everything.py:46 | `f"{n:,}"` is well-grouped text (a comma exactly at every fourth position from the right, digits elsewhere). It starts with a zero only for `n = 0`. Dropping the commas parses back to `n` |
| Decimal.RoundHalfEven | mac_everything.py:53-57 | the `.Nf` rounding of a quotient: the result lies within half a unit of `num/den`, and a tie gives an even result |
| Decimal.RoundIsNearest | mac_everything.py:53-57 | no other multiple of the denominator is nearer to the numerator than the rounded quotient |
| Decimal.FixedShape | mac_everything.py:53-57 | fixed-point text has no comma. Its integer part is a numeral with no leading zero other than a lone "0". With places, the point sits exactly `places` characters from the right and only digits follow it. With the point removed it reads back as the scaled value |
| SizeFormat.KbTextReadsBack | mac_everything.py:43-46 | `format_size_kb(n)` is well-grouped digits with no leading zero, followed by " KB", reading back as `max(1, n // 1024)` |
| SizeFormat.KbTextSmall | mac_everything.py:45 | every size below 2048 bytes, zero included, shows "1 KB" |
| SizeFormat.KbTextMonotone | mac_everything.py:45-46 | the number in the KB column never decreases as the size grows |
| SizeFormat.UnitThresholds | mac_everything.py:50-57 | the unit chosen is bytes below 1024, otherwise the largest of KB, MB and GB whose scale does not exceed the size |
| SizeFormat.UnitMonotone | mac_everything.py:50-57 | the unit never decreases as the size grows |
| SizeFormat.FullTextReadsBack | mac_everything.py:48-57 | `format_size_full(n)` reads back with the chosen unit. Below 1024 it is the exact comma-grouped byte count. Above, it is the size in that unit, rounded half to even to 0, 1 or 2 places. That number has no comma and no leading zero other than a lone "0", and it has the point in place with only digits on both sides |
| Rows.LessIsStrictWeakOrder | mac_everything.py:34-41 | for every column the comparator is irreflexive, transitive and asymmetric, and incomparability is transitive |
| Rows.IncomparableIsSameKey | mac_everything.py:34-41 | two rows are incomparable exactly when they have the same sort key: the stored number (missing counts as 0) for columns 2 and 3, the display text otherwise |
| Rows.NumericColumnsIgnoreText | mac_everything.py:37-40 | the size and time columns order rows by the stored numbers alone, whatever their display texts |
| Rows.LessExamples | mac_everything.py:34-41 | sizes 100, 500 and 2000 all show "1 KB" yet sort in numeric order; names compare case-sensitively by code point ("B.txt" before "a.txt") |
| Rows.LessIrreflexive | mac_everything.py:34-41 | no row is less than itself under any column |
| Rows.LessTransitive | mac_everything.py:34-41 | the comparator is transitive under every column |
| PyText.LexTotal | mac_everything.py:41 | Python's `<` on strings orders any two different strings one way or the other |
| PyText.StripShape | mac_everything.py:211 | `str.strip()` is an infix with only whitespace around it and no whitespace at its ends; it is empty exactly when the line is all whitespace |
| PyText.SplitTerminated | mac_everything.py:211 | `splitlines()` of newline-terminated lines (with an optional unterminated last line) gives exactly those lines, with no empty line for a trailing newline |
| PosixPath.SplitPath | mac_everything.py:217-218 | `basename` holds no slash and follows the head, which is empty or ends in a slash; head and base name rebuild the path; `dirname` is the head without trailing slashes, except that a head of slashes only is kept as it is; it is empty exactly when the path has no slash |
| Search.StatusTextInjective | mac_everything.py:240-245 | different status-line states never show the same text |
| Search.FilterAppend | mac_everything.py:211 | the list comprehension keeps or drops each output line on its own and keeps their order |
| Search.HasTextSingle | mac_everything.py:211 | a line is kept exactly when it is not all whitespace, and it is kept unstripped |
| Search.RowsForMembers | mac_everything.py:214-235 | every row belongs to a listed path that could be stat'ed, and every such path has its row |
| Search.MakeRowShape | mac_everything.py:216-231 | a row shows its path's base name (what follows the last slash) and directory, a KB text reading back as `max(1, size // 1024)`, and the formatted mtime, and it stores path, size and mtime for sorting |
| Search.RowsForAll | mac_everything.py:214-235 | the table has a row for every path exactly when every path could be stat'ed |
| Search.PopulateMeaning | mac_everything.py:214-245 | the population loop adds, in order, the rows of the readable paths before the first unexpected stat error, and reports that error |
| Search.PopulateFailure | mac_everything.py:214-245 | the loop ends with the message of the first stat error that is neither `FileNotFoundError` nor `PermissionError`, and with none if there is no such error |
| Search.PopulateRows | mac_everything.py:214-235 | the rows the loop adds are those of the readable paths before that first error |
| Search.PopulateStops | mac_everything.py:214-245 | once the loop has stopped on an error, later paths change nothing |
| Search.FailureIndex | mac_everything.py:214-235 | the first path whose stat raises an error other than `FileNotFoundError` or `PermissionError`: every earlier path stat'ed or failed in one of those two ways |
| Search.SearchOutcomeMeaning | mac_everything.py:203-245 | a failed or unstartable `mdfind` leaves an empty table and "搜索出错: …". Otherwise the table holds the rows of the readable paths before the first stat error other than `FileNotFoundError` or `PermissionError`, and of all readable paths when there is none. The status is the stat error, or "找到 N 个结果" with N the number of non-blank lines, or "未找到结果" exactly when there are none. The table never holds more rows than the count |
| Search.DroppedPathsStillCount | mac_everything.py:234-242 | for any successful `mdfind` run in which no stat fails unexpectedly, skipped paths are still counted in the status; the table has a row per path exactly when all could be stat'ed |
| Search.SizeTextMisorders | mac_everything.py:34-38 | the rows of a 9 KiB and a 10 KiB file show "9 KB" and "10 KB". Their texts order them one way and the numeric comparison the other |
| Search.TextChanged | mac_everything.py:186-189 | the debounce step: the same text keeps the timer as it was; new text is remembered and the timer is pending |
| Search.TextChangedIdempotent | mac_everything.py:186-189 | a second notification with the same text has no further effect |
| Search.SearchWindow.constructor | mac_everything.py:145-161 | an empty search box, remembered text "", no timer pending, an empty table and a blank status line |
| Search.SearchWindow.OnSearchTextChanged | mac_everything.py:184-189 | applies the debounce step to the remembered text and the timer and changes nothing else |
| Search.SearchWindow.EditText | mac_everything.py:151 | the box notifies only on an actual change of its text; table and status are untouched |
| Search.SearchWindow.ClearSearch | mac_everything.py:179-181 | the box is emptied, which restarts the search timer unless the box or the remembered text was already empty |
| Search.SearchWindow.PerformSearch | mac_everything.py:191-245 | a query that strips to empty clears the table and status and runs no search. Otherwise `mdfind` runs once with the stripped query, and table and status become `SearchOutcome`. The table stays consistent with the status |
| Search.SearchWindow.AddResultRows | mac_everything.py:214-235 | the population loop leaves exactly the rows and error of `Populate` |
| Search.SearchWindow.OnTimerTimeout | mac_everything.py:145-148 | the timer fires once: no longer pending, and the search is performed |
| Search.SearchWindow.UpdateStatusForItem | mac_everything.py:258-266 | a row with a path and a stored size shows "文件大小: " with its full size text; any other row leaves the status line as it was |
| Search.SearchWindow.OnItemClicked | mac_everything.py:248-250 | a click updates the status line for the clicked row |
| Search.SearchWindow.OnCurrentItemChanged | mac_everything.py:253-256 | only a current row updates the status line |
| Search.SearchWindow.OnItemDoubleClicked | mac_everything.py:269-276 | a row with a path is revealed; only an error from that call reaches the status line, as "打开文件失败: …"; the table never changes |

## Left out

- Window construction, layout, fonts, palette, the scrollbar stylesheet, `center_on_screen`, `focus_search` and the keyboard shortcuts are not modelled. They are presentation only and decide nothing about the window's state.
- `mdfind`, `os.stat`, `open -R` and `format_time` are not modelled. They are external processes, file-system queries or host-timezone conversions, and they enter the model as function parameters. Their exceptions are modelled as the outcomes listed above.
- `format_time` raising an error (an out-of-range timestamp) is not modelled. The parameter is total.
- The 300 ms delay and Qt's signal dispatch are not modelled. The timer is a flag that `OnTimerTimeout` clears.
- The transient "正在搜索..." status is not modelled. It is overwritten before `perform_search` returns.
- Rows.Less: `st_mtime` is modelled as whole seconds, and `float()` on the stored numbers as exact. Sub-second timestamps and sizes above 2^53 bytes, which the source compares as floats, are not distinguished.
- SizeFormat.FormatSizeFull: the KB, MB and GB branches round the exact quotient, where Python divides in binary floating point. The KB and MB branches hold sizes below 1 GiB, so Python's division by a power of two is exact there too. In the GB branch the two agree for sizes below 2^53 bytes; above that `float(n)` itself rounds, which the model does not capture.
- Qt's own sorting of the table is not modelled. `Rows.TextLess` states only the comparison by display text that Qt's item ordering performs (see Findings).
- Rows.TextLess: compares display texts by code point. Qt's `QString::compare` orders by UTF-16 code unit, which is the same within the Basic Multilingual Plane and differs only between characters above U+FFFF and those in U+E000–U+FFFF.

## Findings

| source | as written | input that shows it | evidently intended | confidence | as-written member | corrected member |
|---|---|---|---|---|---|---|
| mac_everything.py:34-41 | `__lt__` is defined on the `QTreeWidget` subclass, not on its items, so Qt sorts the size and time columns by their display texts | files of 9216 and 10240 bytes show "9 KB" and "10 KB"; by text, "10 KB" sorts before "9 KB" | rows compared by the stored size and mtime, as `__lt__` writes it | medium, not executed (assumes Qt's default item order compares display text by UTF-16 code unit, the same as by code point for these texts) | Search.SizeTextMisorders | Rows.LessIsStrictWeakOrder |
