# Volleyball table: categorical cleaning, in Dafny

This project models how `clean_data.py` cleans, in place, the `volleyball`
table whose schema `load_data.py` creates. Two routines update that table:

- `standardize_columns` visits nine categorical text columns (team,
  pass_rating, set_type, serve_type, block_touch, hit_type, win_reason,
  lose_reason, winning_team). Each one has a fixed allow-list of lower-case
  tokens. One `UPDATE` per column rewrites every row. If `LOWER(TRIM(v))` is
  on the list, the cell stores that form. Otherwise the cell becomes NULL:
  text that is not on the list, empty text, space-only text, and NULL itself.
- `replace_empty_strings` visits ten text columns: the nine above plus
  set_location, which has no allow-list. One `UPDATE` per column sets a cell
  to NULL when it is non-NULL and `TRIM(v) = ''`. It leaves every other cell
  alone.

Files:

- `sql_text.dfy`, module `SqlText`. It holds the nullable value `Option`,
  PostgreSQL `TRIM` and `LOWER`, and `Normalize` = `LOWER(TRIM(.))`.
  `TRIM` is given both as recursive functions and through a characterization:
  `TrimUnique` and `TrimSplits` say the result is the one middle part of the
  value with only spaces around it.
- `cleaning.dfy`, module `Cleaning`. It holds the table columns as a
  datatype, the allow-lists, and the visit orders of the two routines. It
  defines what each routine computes on a cell, a row and a whole table, and
  proves the properties of those computations.
- `clean_data.dfy`, module `CleanData`. Class `VolleyballTable` keeps the
  rows in an `array<Row>`. Its methods run the two routines as the source
  does: an outer loop over the columns, and for each column an inner loop
  over the rows that rewrites the cells its `UPDATE` selects. Each method is proved equal to the
  `Cleaning` function for the same step.

Semantic assumptions:

- `TRIM(x)` with no characters given strips only the space character
  `' '` from both ends.
- `LOWER` folds the ASCII letters A-Z and nothing else.
- `LOWER(TRIM(NULL)) IN (...)` is not true, so a NULL cell stays NULL under
  `standardize_columns`.
- A row maps every column to a nullable value. The integer columns are
  carried as opaque values, because neither routine reads or writes them.

`TRIM` strips the space character only, so a value made of tabs or newlines
is not blank to `replace_empty_strings`. In the nine allow-listed columns
such a value still ends up NULL after `standardize_columns`, because it is
on no list. In set_location it survives.

## Model

| member | source | states |
|---|---|---|
| SqlText.TrimLeading | clean_data.py:25 | The result is a suffix of the input, everything removed is a space, and the result does not start with a space |
| SqlText.TrimTrailing | clean_data.py:25 | The result is a prefix of the input, everything removed is a space, and the result does not end with a space |
| SqlText.Trim | clean_data.py:25 | `TRIM(s)` is no longer than s and neither starts nor ends with a space |
| SqlText.TrimLeadingSkips | clean_data.py:25 | Stripping leading spaces from spaces followed by t, where t does not start with a space, gives back t |
| SqlText.TrimTrailingSkips | clean_data.py:25 | Stripping trailing spaces from t followed by spaces, where t does not end with a space, gives back t |
| SqlText.TrimUnique | clean_data.py:25 | For any spaces p and q and any trimmed m, `TRIM(p + m + q) = m`, so the result of TRIM is determined uniquely |
| SqlText.TrimSplits | clean_data.py:25 | Every s is p + `TRIM(s)` + q, where p and q are made of spaces only |
| SqlText.TrimBlank | clean_data.py:42 | `TRIM(s) = ''` exactly when s is empty or all spaces (both directions) |
| SqlText.TrimOfTrimmed | clean_data.py:25 | A value with no leading or trailing space is its own TRIM |
| SqlText.LowerChar | clean_data.py:25 | The result is never an upper-case letter; an upper-case letter maps to the matching lower-case letter; any other character is kept |
| SqlText.Lower | clean_data.py:25 | `LOWER(s)` has the length of s; each upper-case letter becomes the matching lower-case letter at the same position; every other character is kept |
| SqlText.LowerPreservesTrimmed | clean_data.py:25 | LOWER keeps a trimmed value trimmed, and keeps a value space-only exactly when it was space-only |
| SqlText.LowerIdempotent | clean_data.py:25 | `LOWER(LOWER(s)) = LOWER(s)` |
| SqlText.Normalize | clean_data.py:25 | `LOWER(TRIM(s))` is trimmed, holds no upper-case letter, and is no longer than s |
| SqlText.NormalizeFixesCanonical | clean_data.py:25 | A trimmed lower-case value is its own `LOWER(TRIM(.))` |
| SqlText.NormalizeIdempotent | clean_data.py:25 | `LOWER(TRIM(.))` applied twice equals applied once |
| SqlText.NormalizeBlank | clean_data.py:26 | `LOWER(TRIM(s)) = ''` exactly when s is empty or all spaces |
| SqlText.TrimKillExample | clean_data.py:25 | `TRIM('  KILL ') = 'KILL'` |
| SqlText.LowerKillExample | clean_data.py:25 | `LOWER('KILL') = 'kill'` |
| SqlText.NormalizeKillExample | clean_data.py:25 | `LOWER(TRIM('  KILL ')) = 'kill'` |
| Cleaning.Column | load_data.py:8-27 | The eighteen columns of the volleyball table, in schema order and spelling (recieve_location) |
| Cleaning.AllowedValues | clean_data.py:8-18 | The allow-list of each of the nine standardized columns, token for token; no list for any other column |
| Cleaning.StandardizedColumns | clean_data.py:20 | The order in which standardize_columns visits the allow-listed columns, which is the order of the dict's keys |
| Cleaning.TextColumns | clean_data.py:32-36 | The ten columns replace_empty_strings visits, in the list's order |
| Cleaning.StandardizedColumnsShape | clean_data.py:8-20 | standardize_columns visits each of the nine allow-listed columns exactly once and visits no other column |
| Cleaning.TextColumnsShape | clean_data.py:32-38 | replace_empty_strings visits ten distinct columns: the nine allow-listed ones and set_location |
| Cleaning.NoBlankAllowed | clean_data.py:8-18 | No allow-list contains the empty string |
| Cleaning.StandardizeCell | clean_data.py:24-27 | A non-NULL result is on the column's list, is trimmed and lower-case, and equals `LOWER(TRIM(v))` of a non-NULL input |
| Cleaning.BlankToNull | clean_data.py:41-42 | The result is NULL exactly when the input is NULL, empty or all spaces; a non-NULL result is the input unchanged |
| Cleaning.StandardizeCellKept | clean_data.py:25 | A cell ends up holding w exactly when it was non-NULL, its `LOWER(TRIM(.))` is w, and w is on the list (both directions) |
| Cleaning.StandardizeCellNull | clean_data.py:26 | A cell ends up NULL exactly when it was NULL or its `LOWER(TRIM(.))` is not on the list; blank text always ends up NULL |
| Cleaning.StandardizeCellIdempotent | clean_data.py:24-27 | Applying the CASE expression to its own result changes nothing |
| Cleaning.KillListed | clean_data.py:15 | 'kill' is on the win_reason allow-list |
| Cleaning.StandardizeKillExample | clean_data.py:15 | `'  KILL '` in win_reason is stored as `'kill'` |
| Cleaning.CellPassesCommute | clean_data.py:24-42 | On a cell whose list has no '', blanking first does not change what standardizing gives, and blanking after standardizing changes nothing |
| Cleaning.StandardizeRowOn | clean_data.py:20-29 | Standardizing some of a row's columns keeps the row's set of columns |
| Cleaning.BlankRowOn | clean_data.py:38-44 | Blanking some of a row's columns keeps the row's set of columns |
| Cleaning.Standardized | clean_data.py:20-29 | standardize_columns keeps the number of rows and each row's set of columns |
| Cleaning.BlanksNulled | clean_data.py:38-44 | replace_empty_strings keeps the number of rows and each row's set of columns |
| Cleaning.StandardizedCell | clean_data.py:24-27 | After standardize_columns, an allow-listed cell is non-NULL exactly when its old `LOWER(TRIM(.))` is listed, and then holds that form; set_location and the integer columns are unchanged |
| Cleaning.StandardizedClosed | clean_data.py:8-27 | Vocabulary closure: after standardize_columns, every non-NULL value in an allow-listed column is on that column's list |
| Cleaning.StandardizedLocal | clean_data.py:24-27 | A cell's new value depends only on that cell's old value, not on other columns or rows |
| Cleaning.StandardizedIdempotent | clean_data.py:20-29 | Running standardize_columns twice gives the same table as running it once |
| Cleaning.BlanksNulledCell | clean_data.py:38-43 | A text-column cell becomes NULL exactly when it is non-NULL and blank; every other cell, in any column, keeps its value |
| Cleaning.BlanksNulledIdempotent | clean_data.py:38-44 | Running replace_empty_strings twice gives the same table as running it once |
| Cleaning.RowPassesCommute | clean_data.py:7-44 | On one row, blanking then standardizing equals standardizing then blanking |
| Cleaning.PassesCommute | clean_data.py:7-44 | On a whole table, the two routines commute |
| Cleaning.StandardizedAbsorbsBlanks | clean_data.py:24-42 | In an allow-listed column, running replace_empty_strings before standardize_columns does not change the result, and running it afterwards changes nothing |
| Cleaning.StandardizeRowStep | clean_data.py:20-29 | Standardizing one more column of a partly standardized row gives the row standardized on the larger set of columns |
| Cleaning.BlankRowStep | clean_data.py:38-44 | Blanking one more column of a partly blanked row gives the row blanked on the larger set of columns |
| CleanData.VolleyballTable.constructor | load_data.py:8-27 | The table starts out holding the given rows, each with a value for every column |
| CleanData.VolleyballTable.StandardizeColumn | clean_data.py:21-29 | One UPDATE: each row's cell in that column is replaced by the CASE result over its old value; nothing else changes; no row is added or removed |
| CleanData.VolleyballTable.StandardizeColumns | clean_data.py:7-29 | After the column loop, the rows equal `Standardized` of the old rows, and every row still has every column |
| CleanData.VolleyballTable.ReplaceEmptyString | clean_data.py:39-44 | One UPDATE: each row's cell in that column becomes NULL exactly when it is non-NULL and trims to ''; nothing else changes |
| CleanData.VolleyballTable.ReplaceEmptyStrings | clean_data.py:31-44 | After the column loop, the rows equal `BlanksNulled` of the old rows, and every row still has every column |

## Left out

- The SQL text itself is not modelled: the f-string that builds each query and the quoted value list. The model covers the effect of each `UPDATE` on the rows.
- Database access through the cursor is left out. Each `UPDATE` is modelled as its effect on the rows held by `VolleyballTable`. Statement-level transactions and concurrent writers are not modelled.
- `LOWER` is modelled on the ASCII letters only. Locale-dependent case folding of other letters is not captured.
- Table creation, the CSV bulk load (`COPY ... FROM STDIN`) and the derived tables are left out: they are DDL and I/O with no row logic. The team and player tables have no code to model.
- Connection setup, credential prompting and the never-completed driver are left out, and so is plotting and report rendering: they are I/O and floating-point statistics outside the cleaning core.
- Row order and row identity are not modelled beyond position in the array. SQL tables are unordered, and neither routine depends on order.
