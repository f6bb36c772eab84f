# Raw CPS ASEC dataset: derived tables and file names

This project models the core of the raw CPS dataset of `openfisca_us_data`
(`openfisca_us_data/datasets/cps/raw_cps.py`). For one survey year it covers
four things:

- **Naming.** The two-character year code is `str(year)[-2:]`. The download
  address is `.../{year}/march/asecpub{YY}csv.zip`. The archive members are
  `pppub{YY}.csv` (persons), `ffpub{YY}.csv` (families) and `hhpub{YY}.csv`
  (households).
- **Tax-unit table.** `create_tax_unit_table` keeps twelve person columns and
  sums them per `TAX_ID`.
- **SPM-unit table.** `create_SPM_unit_table` puts `SPM_` in front of 38 field
  names, keeps those columns and takes, per `SPM_ID`, the first person's
  values.
- **Derivation step of `generate`.** It looks up the three members in the
  unpacked archive and fills missing cells with 0 (`fillna(0)`). Then it
  derives the two unit tables from the person table.

Modules:

- `Frames`: data frames as a column set and a sequence of rows
  (`map<Column, int>`). It holds `fillna(0)` (`FillNa`) and column selection
  `frame[cols]` (`Select`). Selection fails naming the absent columns, as
  pandas raises `KeyError`.
- `Grouping`: `groupby(key).sum()` and `groupby(key).first()`. Each is a
  one-pass fold of the rows into a map from group key to row. Each is
  specified against a reference definition that does not fold:
  - `KeySet`: the distinct keys;
  - `GroupTotal`: a group's total of one column;
  - `FirstIndex`: the position of a group's first member.
- `GroupLaws`: what the reductions guarantee beyond one call:
  - the order of the rows does not matter to a sum;
  - a row of zeros adds nothing;
  - `fillna(0)` then sum equals the sum of the present values;
  - a group that agrees on a field gives that field whatever the order;
  - grouping a selection equals grouping the whole frame.
- `Tables`: selection followed by either reduction, for any column list.
- `Decimal`: Python's `str` of an integer, and reading digits back.
- `RawCps`:
  - the constants of the source (the twelve tax-unit columns, the 38 SPM
    fields, the URL prefix);
  - the naming functions;
  - `CreateTaxUnitTable`, `CreateSpmUnitTable` and `Generate`.

The output of a grouped reduction is a map from group key to row. So each key
appears once, and the number of rows is the number of distinct keys.

## Model

| member | source | states |
|---|---|---|
| `RawCps.YearCode` | openfisca_us_data/datasets/cps/raw_cps.py:30 | `str(year)[-2:]`. For a year of two or more digits, the tens and units digits of `abs(year) % 100`. For a one-digit year, its whole string, with the minus sign when negative. |
| `RawCps.YearCodeIdentifiesYear` | openfisca_us_data/datasets/cps/raw_cps.py:14 | For years of two or more digits, the code is all digits and reads back as `abs(year) % 100`. Two such years share a code exactly when their absolute values agree modulo 100, so `-2020` and `2020` share `20`. |
| `RawCps.NamesIdentifyYearCode` | openfisca_us_data/datasets/cps/raw_cps.py:41-45 | The archive name and each member name are equal for two years exactly when the year codes are equal. |
| `RawCps.MemberNamesDistinct` | openfisca_us_data/datasets/cps/raw_cps.py:41-46 | The person, family and household members of one archive have three different names. |
| `RawCps.DigitsThenStop` | openfisca_us_data/datasets/cps/raw_cps.py:14 | A digit string followed by a non-digit fixes where the digits end. Two such splits of one string have the same digit part. |
| `RawCps.ArchiveUrlIdentifiesYear` | openfisca_us_data/datasets/cps/raw_cps.py:14 | The download address carries the full year. Two non-negative years have the same address exactly when they are equal, although their archive names repeat every 100 years. |
| `RawCps.Names2020` | openfisca_us_data/datasets/cps/raw_cps.py:14 | For 2020: code `20`, archive `asecpub20csv.zip`, members `pppub20.csv`, `ffpub20.csv`, `hhpub20.csv`. |
| `RawCps.LastTwo` | openfisca_us_data/datasets/cps/raw_cps.py:30 | Python's `s[-2:]`: the suffix of `s` of length two, or all of `s` when it is shorter. |
| `Decimal.IntString` | openfisca_us_data/datasets/cps/raw_cps.py:14 | `str(n)`: for `n >= 0`, a non-empty digit string, with no leading zero unless `n` is 0, reading back as `n`. For a negative `n`, a `-` followed by such a string reading back as `-n`. |
| `RawCps.ArchiveName` | openfisca_us_data/datasets/cps/raw_cps.py:14 | For every year, the text `asecpub`, then the year code, then `csv.zip`. For a year of two or more digits, 16 characters, of which the 8th and 9th are digits reading back as `abs(year) % 100`. Equal for two years exactly when their codes are (`NamesIdentifyYearCode`). |
| `RawCps.ArchiveUrl` | openfisca_us_data/datasets/cps/raw_cps.py:14 | For every year, the fixed prefix, then `str(year)`, then `/march/`, then the archive name. For a non-negative year, the digits after the prefix read back as the whole year and are followed by `/` (so `ArchiveUrlIdentifiesYear`). |
| `RawCps.FramedParts` | openfisca_us_data/datasets/cps/raw_cps.py:41-45 | A name is the text `p`, then the code, then the text `q` exactly when it has their total length, starts with `p`, ends with `q` and holds the code in between. |
| `RawCps.PersonMember` | openfisca_us_data/datasets/cps/raw_cps.py:41 | For every year, the text `pppub`, then the year code, then `.csv`. For a year of two or more digits, 11 characters, of which the 6th and 7th are digits reading back as `abs(year) % 100`. |
| `RawCps.FamilyMember` | openfisca_us_data/datasets/cps/raw_cps.py:43 | For every year, `ffpub`, then the year code, then `.csv`, with the same layout as the person member. |
| `RawCps.HouseholdMember` | openfisca_us_data/datasets/cps/raw_cps.py:45 | For every year, `hhpub`, then the year code, then `.csv`, with the same layout as the person member. |
| `RawCps.Prefixed` | openfisca_us_data/datasets/cps/raw_cps.py:115 | `[prefix + name for name in names]`: one column per name, each starting with the prefix, and taking the prefix off gives the names back. |
| `RawCps.SpmUnitColumns` | openfisca_us_data/datasets/cps/raw_cps.py:74-115 | The 38 kept SPM columns, the last being the key `SPM_ID` (all of them: `SpmUnitColumnsListed`). |
| `RawCps.CreateTaxUnitTable` | openfisca_us_data/datasets/cps/raw_cps.py:55-70 | Fails with exactly the missing kept columns, in list order, iff the person table lacks one. Otherwise its keys are exactly the distinct `TAX_ID` values, so there is one row per tax unit. Every row holds the same columns: the eleven summed columns, and `TAX_ID` at most besides. |
| `RawCps.TaxUnitTotals` | openfisca_us_data/datasets/cps/raw_cps.py:70 | Each cell of the tax-unit table is that column's total over the persons of the unit. |
| `RawCps.TaxUnitTableOrderIndependent` | openfisca_us_data/datasets/cps/raw_cps.py:70 | Reordering the persons gives the same tax-unit table, including the same error. |
| `RawCps.TaxUnitTwoPersons` | openfisca_us_data/datasets/cps/raw_cps.py:70 | Two persons of one unit make a one-row table. Each summed column is the sum of their two values. |
| `RawCps.SpmUnitColumnsListed` | openfisca_us_data/datasets/cps/raw_cps.py:74-115 | The kept SPM columns are the 38 fields with `SPM_` in front, in order. They are pairwise different, the last is `SPM_ID`, and removing the prefix gives the fields back. |
| `RawCps.FieldsDistinct` | openfisca_us_data/datasets/cps/raw_cps.py:74-113 | The 38 SPM field names are pairwise different. |
| `RawCps.CreateSpmUnitTable` | openfisca_us_data/datasets/cps/raw_cps.py:73-118 | Fails with exactly the missing kept columns iff the person table lacks one. Otherwise it has one row per distinct `SPM_ID`, all holding the same columns: the 37 kept columns other than `SPM_ID`, and `SPM_ID` at most besides. Each cell is copied from the unit's first person in input order. An `SPM_ID` cell, when present, is the key. |
| `RawCps.SpmUnitUniformField` | openfisca_us_data/datasets/cps/raw_cps.py:114-118 | When all members of an SPM unit share a value in a kept column, the unit's row holds that value, in any order of the persons. |
| `RawCps.Unpack` | openfisca_us_data/datasets/cps/raw_cps.py:40-48 | For any three member names: a missing person, family or household member fails naming it, checked in that order. Then a person member lacking a kept tax-unit column fails naming those columns, and then one lacking a kept SPM column fails naming those. The result is stored iff all three exist and the person member has every kept column. The stored tables are the filled members and the two unit tables derived from the filled persons. |
| `RawCps.Generate` | openfisca_us_data/datasets/cps/raw_cps.py:40-48 | A missing person, family or household member fails naming it, checked in that order. Then a person member lacking a kept tax-unit column fails naming those columns, and then one lacking a kept SPM column fails naming those. The result is stored iff all three members exist and the person member has every kept column. The stored tables are the filled members and the two unit tables derived from the filled persons. |
| `RawCps.GenerateTaxUnitTotals` | openfisca_us_data/datasets/cps/raw_cps.py:42 | In a stored tax-unit table, each total counts only the values present in the person member. A missing cell adds nothing. |
| `Frames.FillNa` | openfisca_us_data/datasets/cps/raw_cps.py:42 | `fillna(0)` keeps the shape and every present value, and sets every missing cell to 0. |
| `Frames.MissingFrom` | openfisca_us_data/datasets/cps/raw_cps.py:70 | The listed columns not present, and only those. |
| `Frames.Select` | openfisca_us_data/datasets/cps/raw_cps.py:70 | `frame[cols]` fails iff a listed column is absent, naming those columns. Otherwise it keeps every row and exactly the listed columns, with their values. |
| `Grouping.FirstIndex` | openfisca_us_data/datasets/cps/raw_cps.py:116-117 | The first row in input order whose key is `k`: it has key `k`, and no earlier row does. |
| `Grouping.KeySetTail` | openfisca_us_data/datasets/cps/raw_cps.py:70 | The keys of a table are the first row's key plus the keys of the rest. |
| `Grouping.GroupSum` | openfisca_us_data/datasets/cps/raw_cps.py:70 | The folded `groupby(key).sum()` has exactly the distinct keys, one row each, with exactly the summed columns. Each cell equals the reference total `GroupTotal`. |
| `Grouping.GroupSumFromSpec` | openfisca_us_data/datasets/cps/raw_cps.py:70 | Folding rows into running totals adds each group's reference total to what was there. |
| `Grouping.GroupFirst` | openfisca_us_data/datasets/cps/raw_cps.py:116-117 | The folded `groupby(key).first()` has exactly the distinct keys. Each row is the group's first row in input order. |
| `Grouping.GroupFirstFromSpec` | openfisca_us_data/datasets/cps/raw_cps.py:116-117 | Folding rows keeps a group's row once seen. Otherwise it takes the first row of that group. |
| `GroupLaws.GroupTotalAppend` | openfisca_us_data/datasets/cps/raw_cps.py:70 | A group's total over two concatenated tables is the sum of the two totals. |
| `GroupLaws.GroupTotalRemove` | openfisca_us_data/datasets/cps/raw_cps.py:70 | Removing one row takes exactly that row's share out of its group's total. |
| `GroupLaws.HasColumnsPermutation` | openfisca_us_data/datasets/cps/raw_cps.py:70 | A reordering of rows that carry some columns still carries them. |
| `GroupLaws.KeySetPermutation` | openfisca_us_data/datasets/cps/raw_cps.py:70 | A reordering of the rows has the same distinct keys. |
| `GroupLaws.GroupTotalPermutation` | openfisca_us_data/datasets/cps/raw_cps.py:70 | A reordering of the rows has the same group totals. |
| `GroupLaws.GroupSumPermutation` | openfisca_us_data/datasets/cps/raw_cps.py:70 | A reordering of the rows gives the same grouped sum. |
| `GroupLaws.GroupTotalZeroRow` | openfisca_us_data/datasets/cps/raw_cps.py:42 | A row whose value in a column is 0 changes no group's total of that column, wherever it is inserted. |
| `GroupLaws.GroupSumZeroRow` | openfisca_us_data/datasets/cps/raw_cps.py:42 | Inserting a row whose summed columns are all 0 leaves the grouped sum unchanged when its unit exists. Otherwise it only adds that unit, with all totals 0. |
| `GroupLaws.GroupSumSameTotals` | openfisca_us_data/datasets/cps/raw_cps.py:70 | Two tables with the same keys and the same group totals have the same grouped sum. |
| `GroupLaws.GroupSumNewZeroKey` | openfisca_us_data/datasets/cps/raw_cps.py:42 | When a table adds one new key and no total changes, its grouped sum is the old one plus a row of zeros for that key. |
| `GroupLaws.GroupTotalOutsideKeys` | openfisca_us_data/datasets/cps/raw_cps.py:70 | A key no row carries has total 0. |
| `GroupLaws.FilledTotalIsPresentTotal` | openfisca_us_data/datasets/cps/raw_cps.py:42 | After `fillna(0)`, a group total equals the total of the values that were present. |
| `GroupLaws.GroupFirstUniform` | openfisca_us_data/datasets/cps/raw_cps.py:116-117 | When a group agrees on a column, its first row holds the common value. |
| `GroupLaws.UniformPermutation` | openfisca_us_data/datasets/cps/raw_cps.py:116-117 | A group that agrees on a column still has that key and still agrees after the rows are reordered. |
| `GroupLaws.GroupFirstOrderIndependent` | openfisca_us_data/datasets/cps/raw_cps.py:116-117 | Under that agreement, a reordering gives the same keys and the same value. |
| `GroupLaws.FirstDependsOnOrder` | openfisca_us_data/datasets/cps/raw_cps.py:116-117 | Without agreement the order matters. Two members of unit 7 with different weights give different unit rows in the two orders. |
| `GroupLaws.GroupTotalAgree` | openfisca_us_data/datasets/cps/raw_cps.py:70 | Tables that agree row by row on the key and a column have the same totals of that column. |
| `GroupLaws.KeySetAgree` | openfisca_us_data/datasets/cps/raw_cps.py:70 | Tables that agree row by row on the key have the same distinct keys. |
| `GroupLaws.FirstIndexAgree` | openfisca_us_data/datasets/cps/raw_cps.py:116-117 | Tables that agree row by row on the key have each group's first member at the same position. |
| `Tables.SelectGroupSum` | openfisca_us_data/datasets/cps/raw_cps.py:70 | `f[cols].groupby(f[key]).sum()` fails as the selection does. Otherwise its keys are the keys of `f`. Every row holds the same columns: the selected columns other than the key, and the key at most besides. |
| `Tables.SelectGroupSumCell` | openfisca_us_data/datasets/cps/raw_cps.py:70 | Each cell of the selected and summed table is its column's total over the unit's rows of the original frame. |
| `Tables.SelectGroupFirst` | openfisca_us_data/datasets/cps/raw_cps.py:114-117 | `f[cols].groupby(f[key]).first()` fails as the selection does. Otherwise its keys are the keys of `f`. Every row holds the same columns: the selected columns other than the key, and the key at most besides. They hold the values of the group's first row of `f`. A key cell, when present, is the key. |
| `Tables.SelectGroupSumPermutation` | openfisca_us_data/datasets/cps/raw_cps.py:70 | Selecting and summing a reordering of `f` gives the same result. |
| `Tables.GroupSumAgreePermutation` | openfisca_us_data/datasets/cps/raw_cps.py:70 | Two tables that agree on the grouped columns with two reorderings of one another have the same grouped sum. |
| `Tables.SelectGroupSumTwoRows` | openfisca_us_data/datasets/cps/raw_cps.py:70 | Two rows with one key make one group, whose totals are the pairwise sums. |
| `Tables.SelectGroupFirstUniform` | openfisca_us_data/datasets/cps/raw_cps.py:114-117 | When a group of `f` agrees on a kept column, the first-of-group value is the common one, in `f` and in every reordering. The column is there unless it is the key. |
| `Decimal.NatString` | openfisca_us_data/datasets/cps/raw_cps.py:14 | `str(n)` is a non-empty digit string with no leading zero unless `n` is 0. |
| `Decimal.NatStringRoundTrip` | openfisca_us_data/datasets/cps/raw_cps.py:14 | Reading `str(n)` back gives `n`. |
| `Decimal.NatStringInjective` | openfisca_us_data/datasets/cps/raw_cps.py:14 | Different numbers have different decimal strings. |
| `Decimal.NatStringLastTwo` | openfisca_us_data/datasets/cps/raw_cps.py:30 | For `n >= 10`, the last two characters of `str(n)` are the tens and units digits of `n`. |
| `Decimal.TwoDigitsRoundTrip` | openfisca_us_data/datasets/cps/raw_cps.py:30 | A two-digit code reads back as the number below 100 it was made from. |

## Left out

- Downloading is not modelled: the HTTP request, the content length, the
  progress bar, the one-megabyte chunk loop and the in-memory buffer (lines
  14-39). `Generate` takes the unpacked archive as a map from member name to
  parsed table.
- Unzipping, CSV parsing and the HDF store are not modelled. Writing to the
  store is modelled as returning all five tables at once. So the partial
  store left behind by a failure part-way is not captured.
- The dataset registry decorator and the storage path `RawCPS.file(year)` are
  not modelled.
- The re-raising handlers (lines 25-28 and 49-52) are not modelled. Each calls
  `with_traceback()` without its required argument, so the handler itself
  raises a `TypeError` in place of the intended error. The model reports the
  original failure (`MissingColumns` or `MissingMember`).
- Cell values are integers. The CSV columns of real data may be floats,
  which are not modelled.
- The output of a grouped reduction is a map. The key order of the pandas
  index (sorted) is not modelled.
- `RawCps.CreateTaxUnitTable`, `RawCps.CreateSpmUnitTable`,
  `Tables.SelectGroupSum`, `Tables.SelectGroupFirst`: both tables group a
  selection by a series of the person table whose name is a selected column.
  Whether the output keeps that key column depends on the pandas version:
  one that takes the series for a column of the selection drops it, one that
  does not keeps it. So the contracts fix every other column and allow the
  key column without requiring it, for the whole table at once. They say nothing of the `TAX_ID` cell,
  which would be a sum of identifiers. An `SPM_ID` cell, when present, is the
  key. The definitions keep the key column in both tables.
- `Frames.Select`: the error names the missing columns in list order, but not
  the wording of the pandas `KeyError` message.
- `RawCps.ArchiveUrlIdentifiesYear`: the statement is for non-negative years
  only.
