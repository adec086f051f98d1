# Section database queries of the seismic design advisor

This project models the section property store of the seismic design advisor
(`design/sections.py`, class `Sections`). The store holds a table of steel
sections, normally one row per size name such as "W14X730", loaded once from a
csv or jsonl file and only read afterwards. Nothing enforces one row per size:
the model allows duplicated sizes, and the lookup of one size refuses them. It answers four queries:

- the property row of one size, checked for being the only row of that size;
- the depth and linear weight encoded in a wide-flange size name;
- the sizes whose names start with a depth prefix such as "W14";
- the most economical size among a candidate list whose property (e.g. `Zx`)
  reaches a threshold, with a silent fallback when none does.

The table is a value: `Table(columns, rows)`. `columns` holds the property
column names, the key column `section size` is always present, and each
`Row(size, props)` maps property names to `real` values. A missing cell (NaN
in the loaded table) is a name absent from `props`, and it never meets a
threshold. Every query is a function over this value, with lemmas beside it.

Files:

- `results.dfy`: module `Results`, the `Option` and `Result` datatypes.
- `size_pattern.dfy`: module `SizePattern`. Python's `re.search(r'W(\d+)X(\d+)', s)`:
  one attempt per start position (`MatchAt`), tried left to right (`SearchFrom`).
  It is specified by `PatternAt` (a substring 'W', digits, 'X', digits) and
  `LeftmostMaximal` (the earliest start, with a greedy second group). A match is
  a `Match(start, a, b)`: its start and the digit counts of its two groups.
  `DecimalString` spells a natural the way Python's `str()` does, and `DecimalValue`
  reads a run of digits the way `int()` does. CPython's `int()` refuses a digit
  string longer than 4300 digits (`MaxStrDigits`), and `GetSectionDepthWeight`
  checks that limit on the group lengths before converting them.
- `sections.dfy`: module `Sections`, the queries of the class and what is proved about them.

The three error conditions of `search_member_size` follow the code. Besides the
two `ValueError` checks, there is a third error, `NotComparable`. It covers a
property name equal to the key column `section size`: that column passes the
column check, but comparing its strings with a number raises a `TypeError` in
pandas. This comes after "unknown column" and "no candidate row", in the
order the code reaches them. The fallback when no candidate row meets the
threshold is kept as written: it returns the first candidate row in table
order. That row is not necessarily the largest section, although the comment
at line 120 says so (`FallbackIsNotTheLargest`).

## Model

| member | source | states |
|---|---|---|
| `Sections.LoadFormat` | design/sections.py:32-37 | the csv reader is chosen exactly when the path text ends in "csv", the jsonl reader exactly when it ends in "jsonl", and every other path is an unsupported-file-type error |
| `Sections.SuffixesExclusive` | design/sections.py:32-34 | no path ends in both "csv" and "jsonl", so testing csv first never hides a jsonl file |
| `Sections.LoadFormatOfFileNames` | design/sections.py:32-37 | ".csv" and ".jsonl" files load, ".json" is refused, and the test is on the raw suffix ("x_csv" counts as csv) |
| `Sections.SizeCountOne` | design/sections.py:49-51 | the mask of rows equal to the size sums to one exactly when a single row has that size |
| `Sections.SizeCountZero` | design/sections.py:49-51 | the mask sums to zero exactly when no row has the size |
| `Sections.FirstWithSize` | design/sections.py:53 | idxmax of the mask is the first row of that size, and no earlier row has it |
| `Sections.GetSectionProperty` | design/sections.py:49-54 | succeeds exactly when one row has the size (zero or several rows: not-found error), and then returns a table row whose size is the one asked for |
| `Sections.GetSectionPropertyIsTheRow` | design/sections.py:49-54 | on success the returned row is the table's row of that size |
| `Sections.GetSectionDepthWeight` | design/sections.py:70-77 | the only errors are the naming-convention error and the `ValueError` of `int()` on a group of more than 4300 digits |
| `Sections.DepthWeightFailsIffNoPattern` | design/sections.py:71-77 | the naming-convention error is raised exactly when the name has no substring 'W', one or more digits, 'X', one or more digits |
| `Sections.DepthWeightIsLeftmostMatch` | design/sections.py:71-75 | a successful parse returns the two groups of the leftmost match, whose weight digits run as far as they go, and neither group has more than 4300 digits |
| `Sections.DepthWeightOfLeftmostMatch` | design/sections.py:71-75 | the leftmost greedy match decides the result, whatever text surrounds it: its two groups, or the digit-limit error when one of them has more than 4300 digits |
| `Sections.DepthWeightRoundTrip` | design/sections.py:70-75 | for all naturals d and w, "W" + str(d) + "X" + str(w) parses to (d, w), unless one of the spellings has more than 4300 digits, which is the digit-limit error |
| `Sections.DepthWeightIgnoresJunk` | design/sections.py:70-75 | text before and after a size name is ignored when the text in front holds no match and the text behind does not start with a digit; the digit limit applies as in the round trip |
| `Sections.DepthWeightDigitLimit` | design/sections.py:73-74 | a name whose depth group has 4300 digits parses, and one with 4301 digits is refused by `int()` although it follows the naming convention |
| `Sections.DepthWeightExample` | design/sections.py:70-75 | "AW14X730z" parses to (14, 730) |
| `SizePattern.SearchFromSound` | design/sections.py:71 | whatever the scan returns is the leftmost greedy match from its start position |
| `SizePattern.SearchFromComplete` | design/sections.py:71-72 | the scan finds a match whenever the pattern occurs at or after its start position |
| `SizePattern.SearchFromFinds` | design/sections.py:71-75 | the scan returns exactly the leftmost greedy match |
| `SizePattern.MatchAtComplete` | design/sections.py:70-71 | one attempt at a position succeeds whenever the pattern occurs there |
| `SizePattern.MatchAtMaximal` | design/sections.py:70-75 | an attempt at a position where a greedy match starts returns that match |
| `SizePattern.DigitRun` | design/sections.py:70 | the greedy digit run at a position is all digits and is followed by the end of the text or a non-digit |
| `SizePattern.DecimalString` | design/sections.py:73-74 | str() of a natural is a non-empty run of digits with a leading zero only for 0 |
| `SizePattern.DecimalStringValue` | design/sections.py:73-74 | int() reads back the number str() wrote |
| `SizePattern.DigitsNameMatches` | design/sections.py:70-74 | "W" + ds + "X" + ws, for non-empty digit strings ds and ws followed by text not starting with a digit, is a greedy match at its start whose groups read as int(ds) and int(ws) |
| `SizePattern.EmbeddedSizeName` | design/sections.py:70-75 | "W" + str(d) + "X" + str(w), between text holding no match and text not starting with a digit, is found where it starts with groups (d, w) |
| `Sections.SizesWithPrefix` | design/sections.py:89-90 | every kept size starts with the prefix, and there are no more of them than rows |
| `Sections.SizesWithPrefixSelects` | design/sections.py:89-91 | the kept sizes are those of an increasing list of row positions holding exactly the rows whose size starts with the prefix |
| `Sections.CandidatesInTableOrder` | design/sections.py:89-91 | the candidates are the size column filtered by the prefix, in table order, with no matching row left out |
| `Sections.CandidatesExact` | design/sections.py:89-91 | a name is a candidate exactly when it is the size of some row and starts with the prefix |
| `Sections.CandidatesExample` | design/sections.py:89-91 | the candidates of "W27" include W27X94 and exclude W14X730 |
| `Sections.FirstCandidate` | design/sections.py:113-122 | the fallback is the first row whose size is in the candidate list |
| `Sections.LeastSurplus` | design/sections.py:117-123 | idxmin of the surplus is a row meeting the threshold with the least surplus, and every earlier such row has a larger surplus; there is none exactly when no candidate row meets the threshold |
| `Sections.SearchMemberSize` | design/sections.py:110-124 | unknown column errors first, then no candidate row, then the key column; otherwise, when a candidate row meets the threshold, the result is the size of the row with the least value at or above it (the earliest such row on ties), and when none does, the size of the first candidate row in table order |
| `Sections.SearchReturnsCandidateRow` | design/sections.py:113-124 | a successful search names a size in the candidate list that is the size of a table row |
| `Sections.MostEconomicalUnique` | design/sections.py:123 | the tie-break to the earliest row makes the most economical row unique |
| `Sections.SearchIgnoresCandidateOrder` | design/sections.py:113 | the order and repetitions of the candidate list do not change the answer |
| `Sections.FallbackIgnoresPropertyAndThreshold` | design/sections.py:120-122 | when no candidate row meets the threshold, the answer is the same for every property column and threshold |
| `Sections.FallbackIsNotTheLargest` | design/sections.py:120-123 | a threshold above every candidate's value returns the first row (W14X90), not the largest (W14X730); lower thresholds return the most economical size |
| `Sections.EndsWith` | design/sections.py:32-34 | `str.endswith`: the last characters of the path are the suffix (meaning used by LoadFormat and its lemmas) |
| `Sections.SizeCount` | design/sections.py:49-51 | `target_idx.sum()`: the number of rows from a position on whose size is the one asked for, at most the number of those rows (its meaning is stated by SizeCountOne and SizeCountZero) |
| `SizePattern.MatchAt` | design/sections.py:70-71 | one attempt of `re.search` at a start position: a match it reports starts there, is an occurrence of the pattern and has a greedy second group (MatchAtComplete and MatchAtMaximal give the converse) |
| `SizePattern.SearchFrom` | design/sections.py:71 | `re.search` scanning the start positions left to right: a match it reports starts at or after its start position and is a greedy occurrence of the pattern (SearchFromSound, SearchFromComplete and SearchFromFinds make it the leftmost one) |
| `SizePattern.SearchPattern` | design/sections.py:71 | `re.search(r'W(\d+)X(\d+)', size)`: the scan from the first position (meaning stated by DepthWeightFailsIffNoPattern and DepthWeightIsLeftmostMatch) |
| `SizePattern.DecimalValue` | design/sections.py:73-74 | `int()` of a run of digits, leading zeros allowed (DecimalStringValue states that it reads back `str()`) |
| `SizePattern.Groups` | design/sections.py:73-74 | `int(match.group(1))` and `int(match.group(2))` of a match within the digit limit (the limit itself is checked by GetSectionDepthWeight) |
| `Sections.GetSectionCandidates` | design/sections.py:89-91 | the candidates all start with the prefix and are no more than the rows; that they are the size column filtered by startswith, in table order, is stated by CandidatesInTableOrder and CandidatesExact |
| `Sections.HasColumn` | design/sections.py:110 | `property_name in self.dataframe.columns`: the key column or a property column |
| `Sections.IsCandidate` | design/sections.py:113 | the `isin(candidates)` mask at one row |
| `Sections.MeetsThreshold` | design/sections.py:113-119 | both masks at one row: a candidate whose value is present and at least the threshold (a NaN cell never is) |

## Left out

- Parsing the file in `load_data` (`pd.read_csv`, `pd.read_json` at design/sections.py:33-35) is left out. It is pandas I/O, so the model takes the loaded table as a given value.
- The error message of `load_data` at line 37 reads `.suffix` of what may be a plain string. That would be an `AttributeError` instead of the `ValueError`. Both are errors, and the model has one error value for both.
- The constructor `__init__` is not modelled, because it only stores the loaded table.
- The messages of the raised exceptions are left out. Each error is a constructor of `Error`.
- `SizePattern.DigitRun`: `\d` is modelled as the ASCII digits 0-9 only. Python's `\d` and `int()` accept other Unicode decimal digits too.
- `Sections.GetSectionDepthWeight`: the digit limit is fixed at CPython's default of 4300 (`sys.int_info.default_max_str_digits`). `sys.set_int_max_str_digits`, `PYTHONINTMAXSTRDIGITS` and `-X int_max_str_digits` can change it or switch it off, and interpreters older than 3.11 and the 2022 security releases (3.7.14, 3.8.14, 3.9.14, 3.10.7) have no limit.
- `Sections.DepthWeightFailsIffNoPattern`: it characterises only the naming-convention error; the digit-limit error is characterised by `Sections.DepthWeightOfLeftmostMatch`.
- `SizePattern.DecimalValue`: it reads a digit run of any length. The 4300-digit limit of `int()` is checked by `Sections.GetSectionDepthWeight` on the group lengths before this conversion.
- `SizePattern.Groups`: it converts groups of any length; only `Sections.GetSectionDepthWeight`, which checks the limit first, models the `ValueError` of `int()`.
- `SizePattern.DecimalString`: it spells every natural. CPython's `str()` raises `ValueError` on a natural of more than 4300 digits, and the round-trip lemmas then give the digit-limit error for the name instead.
- `Sections.GetSectionCandidates`: it returns the size names in table order, not the pandas `Series` with its index labels.
- `Sections.GetSectionProperty`: it returns the row value, not the `to_dict()` dictionary. That dictionary also lists the key column and NaN for missing cells.
- `Sections.SearchMemberSize`: values are exact reals, not floats, so it does not model floating-point rounding in the surplus `value - threshold`. Under rounding, two different values could tie.
- `Sections.SearchMemberSize`: the threshold is a real, so a NaN or infinite `property_value` cannot be passed. In Python a NaN threshold makes every `>=` at line 117 false, so line 122 returns the fallback row.
- The key column `section size` is taken to have no missing cells, so every row has a size name: in pandas a blank key cell is NaN, `str.startswith` at line 89 then yields NaN, and the `.loc` selection at line 90 raises.
- Property columns are real-valued. Text columns other than `section size` are not modelled.
- The `__main__` demonstration (design/sections.py:127-132) prints to the console, so it is left out.
