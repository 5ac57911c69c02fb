# DataFrame: a verified model of a small in-memory table

The repository provides `DataFrame`, a teaching-scale table. It holds an
ordered list of column names (`columns`) and a list of rows (`data`), each
row a list of cells. Construction pads short rows with empty strings. Rows
are appended, replaced and removed in place. Columns are added (in a new
frame) or removed (in place). A frame can be projected onto chosen columns,
and sliced with `head` and `tail`. This project models that class in Dafny
and proves what each operation does, including the error it raises first
and the fact that a failed call changes nothing.

Layout:

- `wrappers.dfy` (`Wrappers`): `Option` and `Result`.
- `pylist.dfy` (`PyList`): the Python list behaviour the class relies on.
  This covers subscripting with negative indices, clamped slicing,
  `list.index`, `list.remove`, and the two filtering comprehensions.
- `table.dfy` (`Table`): each operation as a function on values, from the
  old columns and rows to the new ones or to the exception raised. The
  lemmas about those functions live here too.
- `dataframe.dfy` (`Frame`): the class `DataFrame` with the fields `columns`
  and `data`. Its methods change those fields, and each method is specified
  by the matching `Table` function.

Modelling decisions:

- Cells are `string`. Python exceptions are `Table.Error` values returned
  in a `Result`: `ValueError` for a row of the wrong length, a missing
  column or `max()` of nothing; `IndexError` for a bad row index or a short
  row.
- Rows are values. In the original, `add_column`, `head` and `tail` give
  this frame's row objects to the constructor of the new frame, and that
  constructor pads them in place. The model writes this padding out as an
  update of the receiver's `data`. So `AddColumn` widens the receiver's
  rows, and `Head` and `Tail` pad the receiver's rows inside the window.
- The row-length invariant holds after construction. It is not a class
  invariant, because `add_row` appends without checking.
- `tail(n)` is modelled as written: `data[-1-n:]`, so for `n >= 0` it
  returns `n + 1` rows (`Table.TailRows`).
- `remove_row` is modelled as written. It removes the first row equal to
  the indexed one, which may be an earlier duplicate
  (`Table.RemoveRowPosition`, `Table.RemoveRowDuplicateExample`).
- `add_column` builds the new frame through the constructor, which pads
  the shared rows to the new column count.
- `add_row_data` raises its own IndexError, distinct from the IndexError
  of list subscripting. The model keeps the two apart as `RowIndexMissing`
  and `IndexOutOfRange`.

## Model

| member | source | states |
|---|---|---|
| `Frame.DataFrame.constructor` | dataframe.py:36-44 | columns are stored as given; data is the input rows padded to the column count |
| `Table.PadRow` | dataframe.py:41-42 | a short row is extended with "" to exactly the width; a longer row is unchanged; the original cells stay as a prefix |
| `Table.PadRows` | dataframe.py:40-44 | after padding, every row has at least `len(columns)` cells; a row that was not longer has exactly that many; rows of that width or more are unchanged; each row keeps its prefix and gains only "" |
| `Table.PadRowsWiden` | dataframe.py:40-42 | padding to a width and then to a larger one equals padding to the larger one (padding twice is idempotent) |
| `Table.PadRowsWideEnough` | dataframe.py:150-151 | rows already as wide as the columns (the zipped rows of `get_columns`) are not padded |
| `Table.PadRowsExample` | dataframe.py:40-42 | rows ("a","1"), ("b") under two columns become ("a","1"), ("b","") |
| `Frame.DataFrame.AddRow` | dataframe.py:82-87 | exactly one row is appended at the end without any check; earlier rows and columns are unchanged; nothing is returned |
| `Table.ReplaceRow` | dataframe.py:94-100 | the length check fails first (ValueError), then the index check `0 <= index < len(data)` (IndexError); it succeeds exactly when both pass, and then only row `index` is replaced, wholesale |
| `Table.ReplaceRowKeepsWidth` | dataframe.py:94-100 | a successful replacement keeps rows exactly as wide as the columns |
| `Frame.DataFrame.AddRowData` | dataframe.py:89-101 | on failure the error is returned and nothing changes; on success the row is replaced and the frame itself is returned |
| `PyList.NormIndex` | dataframe.py:158 | `s[i]` is defined exactly for `-len <= i < len`, and names the position congruent to `i` modulo `len` |
| `Table.RemoveRowAt` | dataframe.py:111 | an index outside `-len .. len-1` raises IndexError; otherwise the count drops by exactly one and the multiset of rows loses exactly one copy of the indexed row |
| `Table.RemoveRowPosition` | dataframe.py:111 | the removed position is the first row equal to the indexed one, at or before it, and equals it exactly when no earlier duplicate exists; the rest keep their order |
| `Table.RemoveRowDuplicateExample` | dataframe.py:111 | with rows a, b, a, `remove_row(2)` deletes the a at position 0 |
| `Frame.DataFrame.RemoveRow` | dataframe.py:103-112 | on a bad index nothing changes; otherwise data becomes the rows with the first equal row removed and the frame itself is returned |
| `PyList.RemoveFirst` | dataframe.py:111 | `list.remove(x)` gives the list with the first occurrence of `x` cut out, one element shorter |
| `PyList.IndexOf` | dataframe.py:128 | `list.index` fails exactly when the element is absent; otherwise it gives a position holding the element with no earlier occurrence |
| `PyList.IndexOfDistinct` | dataframe.py:146 | in a list without repeats, `.index` of the element at `j` is `j` |
| `Table.Lookup` | dataframe.py:128 | looking up all names succeeds exactly when every name is a column, giving each name's first-match position; otherwise it fails with ColumnNotFound for the first missing name |
| `Table.Zip` | dataframe.py:150 | zipping no columns gives no rows; otherwise every zipped row has one cell per column, and taking column `j` of the zipped rows gives back `cols[j]` (transpose round trip) |
| `Table.Project` | dataframe.py:141-151 | ColumnNotFound for the first requested name that is not a column; IndexError exactly when all names exist but some row is too short; otherwise the result has `len(data)` rows (none if `req` is empty), and row `i`, cell `j` is `data[i][columns.index(req[j])]` |
| `Table.ProjectOk` | dataframe.py:141-151 | when every name exists and every row is wide enough, projection succeeds with the position-by-position rows |
| `Table.ProjectOfProjection` | dataframe.py:141-151 | projecting a projection on names drawn from it equals projecting the original on those names; with a permutation this is the round trip back to the original column order |
| `Table.ProjectAllColumns` | dataframe.py:141-151 | with distinct names and rows of exactly that width, projecting on all columns returns the rows unchanged |
| `Table.ProjectSwapExample` | dataframe.py:141-151 | columns x, y with rows (1,2), (3,4), (5,6), projected on y, x, give (2,1), (4,3), (6,5) |
| `Frame.DataFrame.GetColumns` | dataframe.py:136-151 | on failure the error is returned; on success a new frame has columns `req` and the projected rows; the receiver is not modified |
| `Frame.DataFrame.GetRow` | dataframe.py:153-158 | succeeds exactly for `-len <= index < len`; a non-negative index reads that row, a negative one counts from the end; otherwise IndexError |
| `PyList.Keep` | dataframe.py:131 | the comprehension over unlisted positions has one cell per position not listed |
| `PyList.KeepAt` | dataframe.py:131 | the cell at each kept position lands in the slot given by the number of kept positions before it |
| `PyList.KeepFrom` | dataframe.py:131 | every slot of the result holds the cell of some kept position |
| `PyList.KeepOrder` | dataframe.py:131 | a later kept position lands in a later slot, so the kept cells stay in their original order |
| `PyList.KeptBeforeMono` | dataframe.py:131 | the number of kept positions below a bound grows with the bound |
| `PyList.FilterOut` | dataframe.py:129 | no surviving name is to be removed, and every name not to be removed survives |
| `PyList.Matching` | dataframe.py:129 | lists exactly the positions whose name is to be removed |
| `PyList.FilterOutIsKeep` | dataframe.py:129 | filtering names by value is the positional filter on matching positions, so survivors keep their order |
| `Table.DropColumns` | dataframe.py:128-133 | a missing name gives ColumnNotFound for the first one; otherwise the surviving names are exactly those not removed, in order, and every row keeps exactly its cells at positions that are not the first match of a removed name |
| `Table.FirstMatchesAreMatching` | dataframe.py:128-131 | with distinct names, the first-match positions are exactly the positions of the removed names |
| `Table.DropColumnsAligned` | dataframe.py:128-133 | with distinct names and a row as wide as the columns, the new row is as wide as the new columns, and each surviving name sits at the same position as its old cell |
| `Table.DropColumnsRepeatedNameExample` | dataframe.py:128-133 | with columns a, a, removing a drops both names but only the first cell |
| `Frame.DataFrame.RemoveColumn` | dataframe.py:124-134 | on a missing name the error is returned and neither field changes; otherwise both fields take the DropColumns result and the frame itself is returned |
| `Frame.DataFrame.AddColumn` | dataframe.py:114-122 | the new frame has columns `columns + cols` and shares the rows; those rows, the receiver's too, are padded to the new width; the receiver's columns are unchanged |
| `PyList.SliceSplit` | dataframe.py:166 | for every integer bound `b`, `s[:b] + s[b:] == s` under Python's slice clamping |
| `Table.HeadRows` | dataframe.py:160-166 | `data[0:n]` is a prefix: the first `min(n, len)` rows for `n >= 0`; a negative `n` drops the last `abs(n)` rows, clamped to none |
| `Table.TailRows` | dataframe.py:168-174 | `data[-1-n:]` is a suffix: the last `min(n+1, len)` rows for `n >= 0` (one more than asked); every row for `n = -1`; for `n < -1` the first `-1-n` rows are skipped |
| `Frame.DataFrame.Head` | dataframe.py:160-166 | the new frame has the same columns and the padded head rows; the receiver's rows in that window are replaced by their padded form |
| `Frame.DataFrame.Tail` | dataframe.py:168-174 | the new frame has the same columns and the padded tail rows; the receiver's rows in that window are replaced by their padded form |
| `Frame.DataFrame.ColumnWidths` | dataframe.py:52-61 | no columns gives no widths; columns without rows raise ValueError (max of nothing); otherwise IndexError exactly when a displayed row (first 50) is shorter than the columns; else each width is the maximum of the header length and the column's displayed cell lengths |

## Left out

- `read_csv` (dataframe.py:15-26): file I/O through the `csv` module, with no logic of its own.
- The text layout of `__str__` (dataframe.py:46-80): the index column, separator and justified cells. Only the column-width rule is modelled (`ColumnWidths`), for string cells, where `len(str(cell))` is the string's length.
- Cell types other than text: Python cells may be any value, and `str()` of them is not modelled.
- Object identity: rows are values. The model does not capture the following:
  - a row object held twice in `data` being padded at both positions;
  - `get_row` returning the live row;
  - the frame from `add_column` sharing the very list `data` with the receiver, so that later appends show in both frames.
- Default arguments: `DataFrame()` with `None` arguments, and `remove_row(None)`, fail with Python `TypeError`s. Neither is modelled.
- Tuple rows: a row without `.extend` that later needs padding makes the constructor fail with `AttributeError` (dataframe.py:42). Such rows come from `add_row` with a tuple, and from `get_columns`, whose rows are always tuples (dataframe.py:150); so `get_columns(...).add_column([...])` on a frame with rows raises, where `AddColumn` pads. This is not modelled. List-versus-tuple inequality in `list.remove` is not modelled either.
- The `len(columns) == 1` branch of `add_column` (dataframe.py:119-120) does the same as the general case, so it is modelled once.
- The separate membership check of `get_columns` (dataframe.py:141-143) reports the same first missing name as `.index` would. Both are modelled by `Table.Lookup`.
