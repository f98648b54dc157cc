# Formula normaliser and column-uniqueness validator

This project models two small pieces of logic from a mass-spectrometry compound database, and proves properties of them.

- **`parse_formula`** (database/chem.py) normalises a molecular formula such as `[13]CH4O` or `C2H5OH`. It sweeps the string with the regular expression `(\[\d+\])?([A-Z][a-z]*)(\d*)` the way `re.finditer` does. Each match is rewritten as element symbol, then the isotope bracket (if any), then the count, where a missing count becomes `1`. The rewritten matches are then joined. `parse_and_compute_mass` passes the result to a mass calculator.
- **`check_unique_cols`** (ms/utils.py) checks a pandas DataFrame. It collects, in the order given, the named columns whose number of distinct values differs from their length. It raises `ValueError` if that list is non-empty, and otherwise returns `True`. `DataHolder.read_in` (ms/io.py) applies the same rule to the frame it has just read.

The project has five modules:

- `Wrappers` (wrappers.dfy): `Option` and `Result`.
- `Chem` (chem.dfy): the regular expression and the sweep as functions on strings. `ParseFormula` is the loop of `parse_formula`, and its contract is that it returns the `Normalize` of its input.
  - `MatchPrefix` is the regular expression tried at the start of a string. That includes the backtracking case where `[n]` is not followed by an upper-case letter.
  - `Scan` is `finditer`: leftmost, non-overlapping matches, skipping one character where no match starts.
- `ChemProperties` (chem_properties.dfy): lemmas about the sweep and the rewrite.
- `UniqueCols` (unique_cols.dfy): a DataFrame as `map<string, seq<T>>`, and the comprehension and the check as functions.
- `DataHolder` (data_holder.dfy): the guard of `read_in`.

Characters are ASCII: `\d` is `0`-`9`, `[A-Z]` and `[a-z]` are the ASCII letters.

Counts are kept verbatim: any digit run stays as written, including `0` and `01`; a missing count becomes `1` (`ChemProperties.NormalizeSingle`).

## Model

| member | source | states |
|---|---|---|
| Chem.DigitsEnd | database/chem.py:7 | `\d*` is greedy: the run it delimits is all digits and is followed by a non-digit or the end |
| Chem.LowerEnd | database/chem.py:7 | `[a-z]*` is greedy: the run it delimits is all lower-case and is followed by a character that is not a lower-case letter, or the end |
| Chem.InPattern | database/chem.py:7 | the language of the pattern: an optional `[digits]`, a symbol `[A-Z][a-z]*`, then digits; `ChemProperties.MatchPrefixSpec` relates the match to it |
| Chem.IsotopeLen | database/chem.py:7 | the length of the `[digits]` group at the start, never longer than the input; `ChemProperties.IsotopeLenSound` and `ChemProperties.IsotopeLenIs` say what it measures |
| Chem.ElementMatch | database/chem.py:7 | the match whose symbol starts at a given position consumes at least that symbol's letter and no more than the input |
| Chem.MatchPrefix | database/chem.py:7 | no match of the pattern is empty, and none reaches past the input |
| Chem.Scan | database/chem.py:11 | `finditer`: leftmost non-overlapping matches, skipping one character where none starts; never more matches than characters, since no match is empty |
| Chem.ExplicitCount | database/chem.py:14 | `match.group(3) or '1'`: a digit group gives a non-empty digit string, a given count is kept as written |
| Chem.Rewrite | database/chem.py:12-19 | the rewrite of a well-formed match starts with an upper-case letter, ends with a digit, and has at least two characters |
| Chem.RewriteAll | database/chem.py:11-19 | one rewritten part per match |
| Chem.Concat | database/chem.py:21 | `''.join`: the parts in order; `ChemProperties.ConcatEmpty` gives when the result is empty |
| Chem.Normalize | database/chem.py:5-23 | what `parse_formula` returns: the joined rewrites of the sweep's matches; its properties are the `ChemProperties` lemmas |
| Chem.ParseFormula | database/chem.py:5-23 | the loop over the matches, appending each rewrite to `parsed` and joining, returns exactly `Normalize(formula)` |
| Chem.ParseAndComputeMass | database/chem.py:26-30 | the mass is the calculator applied to the normalised formula, not to the raw one |
| ChemProperties.IsotopeLenSound | database/chem.py:7 | a non-zero isotope length covers a `[digits]` group |
| ChemProperties.IsotopeLenIs | database/chem.py:7 | an isotope group at the start of the input is found with its exact length |
| ChemProperties.ElementMatchSound | database/chem.py:7 | the match at an upper-case letter has well-formed groups, and its text is the consumed input |
| ChemProperties.MatchPrefixSound | database/chem.py:7 | every match has well-formed groups: an optional `[digits]`, a symbol, and digits, spelling out the consumed text |
| ChemProperties.MatchPrefixAt | database/chem.py:7 | at an upper-case letter, possibly after an isotope group, the pattern matches starting there |
| ChemProperties.MatchPrefixSpec | database/chem.py:7 | the match is a word of the pattern and no longer prefix is one, so the lower-case tail and the digits are greedy; no match means no non-empty prefix is a word of the pattern |
| ChemProperties.ScanWellFormed | database/chem.py:11 | every match the sweep yields is well formed |
| ChemProperties.ScanInitials | database/chem.py:9-21 | there is exactly one match per upper-case letter of the input, in input order, so repeated symbols stay separate matches |
| ChemProperties.JunkDropped | database/chem.py:11 | characters that are neither upper-case letters nor `[` start no match and are dropped |
| ChemProperties.DanglingIsotopeDropped | database/chem.py:7 | a `[n]` not followed by an upper-case letter is dropped with its digits |
| ChemProperties.ConcatEmpty | database/chem.py:21 | the joined rewrites of well-formed matches are empty exactly when there are no matches |
| ChemProperties.NormalizeEmptyIff | database/chem.py:5-23 | the result is empty if and only if the input has no upper-case letter |
| ChemProperties.EmittedShape | database/chem.py:13-19 | every emitted part starts with an upper-case letter and ends with a digit |
| ChemProperties.ElementMatchIs | database/chem.py:7 | the groups of the match at an upper-case letter are fixed by where the lower-case tail and the digits stop |
| ChemProperties.LayoutMatch | database/chem.py:7 | a symbol and digits laid out at the start of the input, each run stopped by what follows, are the match the pattern finds |
| ChemProperties.TextLayout | database/chem.py:7 | the text of a well-formed match followed by a character that cannot extend it has exactly that layout |
| ChemProperties.MatchText | database/chem.py:7 | the text of a match, followed by a character that cannot extend it, is matched back as the same groups |
| ChemProperties.ScanToken | database/chem.py:11 | such a text contributes exactly that one match, and the sweep resumes right after it |
| ChemProperties.NormalizeToken | database/chem.py:11-21 | the output is the rewrite of the first match followed by the normal form of the rest, so the matches are emitted in input order |
| ChemProperties.NormalizeSingle | database/chem.py:12-19 | one match is rewritten as symbol, isotope bracket moved behind it, then count; a missing count becomes `1`, a given count is kept digit for digit |
| ChemProperties.RewriteExplicit | database/chem.py:19 | the rewrite of an isotope-free match is the text of a match with the same symbol and a non-empty count |
| ChemProperties.RewrittenHead | database/chem.py:21 | the joined output of isotope-free matches is the text of the first match with an explicit count, followed by the joined rest, which is empty or starts with an upper-case letter, so it cannot extend that first match |
| ChemProperties.RescanRewritten | database/chem.py:11-21 | sweeping the joined rewrite of isotope-free matches gives back the same parts |
| ChemProperties.NormalizeIdempotent | database/chem.py:5-23 | when no match carries an isotope group, normalising twice equals normalising once |
| ChemProperties.NoBracketNoIsotope | database/chem.py:7 | an input without `[` yields no match with an isotope group |
| ChemProperties.NormalizeIdempotentWithoutBrackets | database/chem.py:5-23 | an input without `[` is normalised to a fixed point in one step |
| ChemProperties.IsotopeTailVanishes | database/chem.py:7 | an isotope group followed only by digits contributes nothing to the output |
| ChemProperties.RenormalizeMoved | database/chem.py:16-17 | the rewrite `E[n]c` of an isotope match normalises to `E1` |
| ChemProperties.IsotopeBreaksIdempotence | database/chem.py:16-17 | with an isotope, a second normalisation reads `E[n]c` as `E` with no count, drops `[n]c`, and yields `E1`, which differs from the first result |
| UniqueCols.DistinctCount | ms/utils.py:36 | `len(df[col].unique())`: never more than the column's length, and equal to it exactly when no value repeats |
| UniqueCols.IsUnique | ms/utils.py:36 | the negation of the comprehension's test `len(df[col].unique()) != len(df[col])`: holds exactly when no value repeats |
| UniqueCols.UniqueIffDistinct | ms/utils.py:36 | a column has as many distinct values as entries exactly when no value occurs twice |
| UniqueCols.NonUniqueCols | ms/utils.py:34-37 | fails on a name that is not a column exactly when some named column is missing; otherwise returns the named columns that are not unique, in order, each as often as it is named |
| UniqueCols.CheckUniqueCols | ms/utils.py:38-42 | the check returns `True` or raises; a raised `ValueError` lists at least one column |
| UniqueCols.CheckPassesIff | ms/utils.py:34-42 | returns `True` exactly when every named column exists and has no repeated value; an empty list of names always passes |
| UniqueCols.RaisesIff | ms/utils.py:38-41 | `ValueError` exactly when all named columns exist and at least one has a repeated value |
| UniqueCols.ReportsExactly | ms/utils.py:34-41 | the reported list keeps the order of the names and holds each named column with a repeated value as often as it is named, and no other |
| UniqueCols.MissingFirst | ms/utils.py:35-36 | `KeyError` exactly when a named column is missing, and it names the first missing name in order |
| UniqueCols.IgnoresUnnamed | ms/utils.py:35-36 | frames that agree on the named columns get the same verdict: other columns are never read |
| DataHolder.ReadIn | ms/io.py:45-53 | without `unique_cols` the frame passes; with them, a raise is exactly the error `check_unique_cols` raises, and a passing frame is returned unchanged |
| DataHolder.ReadInSameRule | ms/io.py:45-53 | `read_in` lets the frame through exactly when `check_unique_cols` would return `True`: every named column exists and has no repeated value |

## Left out

- The mass value of `parse_and_compute_mass` is not modelled. `pyteomics.mass.calculate_mass` is a foreign floating-point routine, so it is a function parameter.
- Python's `\d` also matches non-ASCII decimal digits. The model restricts the alphabet to ASCII.
- `Chem.ParseFormula` walks the not-yet-searched suffix of the formula rather than a position index. The matches and their order are the same.
- `is_valid_json` (ms/utils.py:4-18) is a wrapper over `json.loads`, a foreign parser.
- The file reading of `DataHolder.read_in` is not modelled. This includes `pd.read_json`, `pd.read_excel`, the unsupported-file-type error, and the `where`/`to_dict` conversion to records. `DataHolder.ReadIn` takes the frame that was read and returns it.
- The rest of `DataHolder` is not modelled: `read_compounds` and `insert_compounds_in_db` are file and HTTP glue.
- pandas NaN handling in `unique()` and float equality are not modelled. Column values are compared with the value type's own equality.
- The database helpers (database/io.py), the route handlers (database/fastapi.py), the ORM and validation schemas, the Streamlit app and the driver scripts are not modelled. They are I/O and database glue with no logic of their own.
- `prepare_measured_compounds_create` and any adduct formula rewrite are not modelled. They are called but not defined in this repository's files.
- Concrete strings such as `NaCl` or `C2H5OH` do not appear as lemmas. The general lemmas cover them:
  - `ChemProperties.NormalizeToken` with an upper-case letter after an uncounted symbol;
  - `ChemProperties.ScanInitials` for repeated symbols.
