# Bulk price update: a verified model

`update_prices.py` raises or lowers every price in a set of JSON pricing files
by one percentage. It touches only the fields named in the document's `pricable`
list, and it rounds each new price up to the next whole cent. This project
models the script's logic in Dafny and proves what that logic guarantees:

- **Percentage parsing** (`parse_percentage`). The user's expression, such as
  `"6%"`, `"-1.5"` or `" 6% "`, becomes the multiplier `1 + v / 100`. The
  model works on exact rationals (`real`). A separate module models the
  script's binary64 arithmetic for the price computation and shows where
  the two disagree (see "Findings").
- **Price adjustment and record update** (the row/tier loops of
  `update_pricing_file`). Each eligible field becomes `ceil(p * m * 100) / 100`.
  The update is a method of the `PriceDocument` class that rewrites the rows in
  place, and it is proved against a functional specification.
- **Keyword file matching** (`get_matching_files`), over the list of `*.json`
  names given as input.
- **One answer at the interactive selection prompt**
  (`interactive_file_selection`). The result is `Done(files)` or `Retry`.
  The model also covers the main block's choice between explicit files,
  `--all` and interactive selection.

Modules, one per concern:

| file | module | contents |
|---|---|---|
| `wrappers.dfy` | `Wrappers` | `Option`, `Result` |
| `text.dfy` | `Text` | `str.strip()`, ASCII `lower()`, `count`, `split`/`join`, substring test, decimal digits |
| `sorting.dfy` | `Sorting` | Python's string order and `sorted()`, with uniqueness of the ordered permutation |
| `percentage.dfy` | `Percentage` | `parse_percentage` and its properties |
| `pricing.dfy` | `Pricing` | JSON values, ceiling to the cent, row update, the `PriceDocument` class |
| `selection.dfy` | `FileSelection` | keyword matching, the selection prompt, mode priority |
| `float_pricing.dfy` | `FloatPricing` | positive binary64 doubles, rounded multiplication, `math.ceil`, the price computation as the script performs it |

A JSON value is `Num | Str | Bool | Null | Arr | Obj`. JSON integers and
floats are both `Num(real)`. A row is a `map<string, JsonValue>`, so the
order of its keys is not part of the model. The model takes `rows` to be a
list of objects and `pricable` to be a list of strings; the "Left out"
section says what the script does with other shapes.
Python's `isinstance(v, (int, float))` also accepts `bool`, because `bool`
is a subclass of `int`. The model mirrors this: a `Bool` in a pricable field
is repriced as 0 or 1 and becomes a number.

## Model

| member | source | states |
|---|---|---|
| `Percentage.Multiplier` | update_prices.py:63-64 | The multiplier `m` for a change of `v` percent satisfies `(m - 1) * 100 == v`, which is the inverse the script uses to display the change at line 80. `m > 1` exactly when `v > 0`. |
| `Percentage.ParseNumeral` | update_prices.py:48-66 | Every documented numeral `-?digits(.digits)?`, with or without one trailing `%` and with any surrounding whitespace, is accepted and gives exactly `1 + v / 100`, where `v` is the numeral's value. |
| `Percentage.ParseBody` | update_prices.py:50-64 | Any body that is free of `%`, neither starts nor ends with whitespace, and that the decimal reader reads as `v` (`"5."`, `".5"` and `"+5"` included), padded with whitespace and with or without one trailing `%`, gives `1 + v / 100`. |
| `Percentage.ParsePercentage` | update_prices.py:36-69 | Every failure is `InvalidPercentageFormat` carrying the caller's original, unstripped string, as the `except` clause re-raises it. Which inputs are accepted, and with what value, is stated by `ParseNumeral`, `ParseBody`, `PercentSignOptional`, `PercentOnlyAsSuffix` and `ForeignCharRejected`. |
| `Percentage.ParseDecimalNumeral` | update_prices.py:61 | `float()` reads every numeral `-?digits(.digits)?` as its exact value. |
| `Percentage.ParseDecimalExcludes` | update_prices.py:61 | Text that `float()` accepts holds only whitespace, digits, signs and the decimal point. |
| `Percentage.ParseDecimalNoSeparator` | update_prices.py:61 | On text without the separators U+001C..U+001F, `float()` strips exactly what `str.strip()` strips and reads the rest. |
| `Percentage.ParseDecimalSeparator` | update_prices.py:61 | Text holding a separator U+001C..U+001F anywhere is refused by `float()`, because its own strip keeps those characters. |
| `Percentage.PercentSignOptional` | update_prices.py:50-61 | For an input with no `%` and no separator U+001C..U+001F, adding a `%` changes nothing: either both forms are rejected, or both give the same multiplier. |
| `Percentage.SeparatorBeforePercent` | update_prices.py:50-69 | `"5\u001c"` gives 1.05, because `strip()` removes the separator, but `"5\u001c%"` is rejected, because the separator stays in front of the `%` and `float()` refuses it. |
| `Percentage.PercentOnlyAsSuffix` | update_prices.py:52-61 | An input with more than one `%` is rejected. An accepted input with one `%` has it as its last non-space character, so `"6%5"` and `"%6"` fail. |
| `Percentage.ForeignCharRejected` | update_prices.py:60-69 | An input holding any character other than whitespace, digits, `+`, `-`, `.` and `%` (for example `"abc"`) is rejected with `InvalidPercentageFormat`. |
| `Percentage.ExampleIncrease` | update_prices.py:40-43 | `"6"` and `"6%"` both give 1.06. |
| `Percentage.ExampleDecrease` | update_prices.py:40-43 | `"-6%"` gives 0.94. |
| `Percentage.ExampleFractional` | update_prices.py:40-43 | `"-1.5%"` and `"-1.5"` both give 0.985. |
| `Percentage.ExampleInvalid` | update_prices.py:53-69 | `"6%%"` and `"abc"` are rejected. |
| `Text.TrimPadded` | update_prices.py:50 | `strip()` removes exactly the surrounding whitespace: padding on both sides of a core that neither starts nor ends with whitespace gives the core back. |
| `Text.TrimKeepsCount` | update_prices.py:50-55 | Stripping never changes how often a non-space character occurs, so counting `%` after `strip()` counts the input's `%`. |
| `Text.Trim` | update_prices.py:50 | `strip()` never lengthens its input, its result neither starts nor ends with whitespace, and the result is empty exactly when the input is all whitespace. |
| `Text.FloatTrimAgrees` | update_prices.py:61 | On text without the separators U+001C..U+001F, the strip inside `float()` is `str.strip()`. |
| `Text.FloatTrimKeeps` | update_prices.py:61 | The strip inside `float()` never removes a separator U+001C..U+001F. |
| `Text.Lower` | update_prices.py:146 | `lower()` keeps the length, turns each ASCII capital into its small letter and keeps every other character, so no ASCII capital is left and a string without capitals comes back unchanged. |
| `Text.LowerIdempotent` | update_prices.py:146 | Lower-casing twice is the same as lower-casing once. |
| `Text.Split` | update_prices.py:156 | `split(',')` returns one more piece than there are commas, no piece holds a comma, and joining the pieces with commas restores the input. |
| `Text.SplitJoin` | update_prices.py:156 | Splitting at the separator undoes joining pieces that are free of it. |
| `Text.Contains` | update_prices.py:126 | The scan for `keyword in file` is true exactly when `keyword` occurs in `file` at some position. |
| `Pricing.CeilToCent` | update_prices.py:103 | `ceil(x * 100) / 100` is a whole number of cents, at least `x` and less than `x + 0.01`. |
| `Pricing.CeilToCentLeast` | update_prices.py:103 | No whole-cent amount lies between `x` and its ceiling, so the ceiling is the least whole-cent amount not below `x`. |
| `Pricing.CeilToCentOnCent` | update_prices.py:103 | An amount already on a whole cent is unchanged: there is no spurious extra cent. |
| `Pricing.AdjustPrice` | update_prices.py:99-104 | The new price is a whole number of cents, at least `p * m`, and less than one cent above it. |
| `Pricing.PriceExamples` | update_prices.py:101-103 | 10.00 at +6% is 10.60. 9.995 at 0% rounds up to 10.00, and 10.001 rounds up to 10.01. |
| `Pricing.AdjustTier` | update_prices.py:97-104 | One step of the tier loop keeps the row's field names and every field other than the tier. A tier field that is present but not numeric leaves the row unchanged. |
| `Pricing.AdjustRow` | update_prices.py:97-104 | The tier loop keeps the row's field names. |
| `Pricing.UpdatedRows` | update_prices.py:93-104 | The row loop keeps the number of rows and each row's field names. |
| `Pricing.AdjustRowFieldwise` | update_prices.py:97-104 | The tier loop keeps the row's field names, and each field is repriced once per occurrence of its name in `pricable`, whatever the order of the tiers. |
| `Pricing.UntouchedField` | update_prices.py:97-98 | A field whose name is not a pricable tier, or whose value is not numeric (a string, null, array or object), keeps its value. |
| `Pricing.RepricedField` | update_prices.py:98-104 | A numeric field named once in `pricable` becomes `Num(ceil(p * m * 100) / 100)`, with a boolean priced as 0 or 1. |
| `Pricing.UnitMultiplierKeepsCents` | update_prices.py:101-104 | At a 0% change, a row whose pricable fields hold whole-cent numbers (or non-numeric values) comes out exactly as it went in. |
| `Pricing.UpdatedRowsShape` | update_prices.py:93-104 | The row loop keeps the number and order of rows and each row's field names. With an empty `pricable` list the rows are unchanged. |
| `Pricing.RowExample` | update_prices.py:94-104 | With tiers `small`, `large` at +10%, the row `{size: "S", small: 10.00, large: 20.00, other: 5}` becomes `{size: "S", small: 11.00, large: 22.00, other: 5}`. |
| `Pricing.PriceDocument.constructor` | update_prices.py:88-93 | A loaded document holds `data.get('pricable', [])`, whether `rows` is present, the rows (none when absent) and every other top-level entry. The `pricable` and `rows` keys live only in their own fields, never among the other entries. |
| `Pricing.PriceDocument.UpdatePrices` | update_prices.py:87-104 | The in-place update leaves the rows equal to the specification `UpdatedRows` of the old rows. `pricable`, the other top-level entries and the row count are unchanged. With no tiers or no `rows` key, nothing changes. |
| `Sorting.StrLeTotal` | update_prices.py:121 | Python's string order compares any two names. |
| `Sorting.StrLeTransitive` | update_prices.py:121 | Python's string order is transitive. |
| `Sorting.StrLeAntisymmetric` | update_prices.py:121 | Two names that are each at most the other are equal, so the order is a total order. |
| `Sorting.Sort` | update_prices.py:121 | `sorted()` returns an ordered permutation of its input. |
| `Sorting.Insert` | update_prices.py:130 | Inserting into a sorted list keeps it sorted and adds exactly the one element. |
| `Sorting.SortedUnique` | update_prices.py:121-130 | Two ordered permutations of the same names are equal, so the sorted result is determined by its contents. |
| `FileSelection.Filter` | update_prices.py:123-128 | The matching list is no longer than the listing, and it holds only listed names in which some keyword occurs. |
| `FileSelection.FilterCounts` | update_prices.py:123-128 | The matching loop keeps each matching name as often as it was listed and drops every other name. The `break` means a name matched by several keywords is added once. |
| `FileSelection.GetMatchingFiles` | update_prices.py:113-130 | The result is sorted. A name is in it exactly when it was listed and some keyword occurs in it. With `keywords = None` it is every name, and with `keywords = []` it is empty. Distinct input names stay distinct. |
| `FileSelection.ParseInt` | update_prices.py:156 | A part that `int()` accepts is, once stripped, an optional sign followed by digits only, and a negative number starts with `-`. |
| `FileSelection.ParseIntDigits` | update_prices.py:156 | `int()` reads a run of digits after an optional sign, padded with whitespace: no sign or `+` gives the digits' value, and `-` gives its negation. |
| `FileSelection.ParseIndices` | update_prices.py:156 | The list comprehension gives numbers exactly when every part reads as an integer, and then one number per part, in order. |
| `FileSelection.ParseSelection` | update_prices.py:145-169 | Whatever an answer selects is among the candidates. |
| `FileSelection.SelectFiles` | update_prices.py:145-169 | One prompt iteration computes exactly the decision `ParseSelection` specifies for the line read. `SelectionWords` and `SelectionAllOrNothing` state what that decision is. |
| `FileSelection.PickFiles` | update_prices.py:157-166 | The `for … else` loop returns `Retry` at the first out-of-range number. Otherwise it returns `Done` with the candidate of each number, in order. |
| `FileSelection.SelectionWords` | update_prices.py:146-152 | After stripping and lower-casing, `none`, `quit` and `exit` select nothing and `all` selects every candidate. |
| `FileSelection.ExampleCapitals` | update_prices.py:146-152 | Case and padding do not matter: `" ALL "` selects every candidate and `"Quit"` selects nothing. |
| `FileSelection.SelectionAllOrNothing` | update_prices.py:154-169 | A numeric answer is accepted exactly when every comma-separated part is an integer in `1..n`. It then selects `candidates[i - 1]` for each `i` in the order given, repeats included. Otherwise the answer is `Retry` and nothing is partially selected. |
| `FileSelection.ExampleOutOfRange` | update_prices.py:159-164 | With two candidates, `"1,3"` is refused as a whole (`Retry`); the first file is not selected on its own. |
| `FileSelection.ExampleReordered` | update_prices.py:156-166 | `" 2, 1 "` selects both candidates, in the order typed. |
| `FileSelection.KeepExisting` | update_prices.py:220-227 | The `--files` filter is no longer than the given list and keeps only given paths that exist. |
| `FileSelection.KeepExistingCounts` | update_prices.py:220-227 | The `--files` loop keeps exactly the paths that exist, each as often as it was given, in the order given. |
| `FileSelection.ResolveTargets` | update_prices.py:203-235 | A non-empty `--files` list wins and is filtered by existence. Otherwise `--all` takes every matching file, and otherwise the interactive choice is used. |
| `FloatPricing.Mul` | update_prices.py:101 | Multiplying two normal doubles gives a normal double whose significand, scaled back, lies within half a unit in the last place of the exact product. |
| `FloatPricing.Ceil` | update_prices.py:103 | `math.ceil` of a double is the least integer not below its value. |
| `FloatPricing.ScriptCents` | update_prices.py:101-103 | The script's cent count is the ceiling of `price * multiplier * 100`, each product rounded to binary64. |
| `FloatPricing.ConstantsAreNearest` | update_prices.py:98-101 | The doubles used below are the ones nearest 1.1, 1.06 and 10. |
| `FloatPricing.OnCentPriceGainsACent` | update_prices.py:101-103 | At 0% (multiplier exactly 1.0), the script turns the price 1.10 into 1.11, while the exact computation `Pricing.AdjustPrice` keeps 1.10. |
| `FloatPricing.SixPercentGainsACent` | update_prices.py:101-103 | With the double nearest 1.06 as multiplier, the script turns 10.00 into 10.61, while `Pricing.AdjustPrice` gives 10.60. |

## Left out

- Console output: the `print_*` helpers, the per-row before/after lines and the progress headers. They are output only.
- File I/O. `json.load` and `json.dump` are replaced by the `PriceDocument` constructor and its fields. `glob.glob('*.json')` becomes an input list of names, and `os.path.exists` becomes an input set of existing paths.
- The `input()` calls. The unbounded re-prompt loop is one call of `SelectFiles` per answer, and the y/N confirmation is not modelled.
- `argparse`, `sys.exit` codes, the `--list` early exit and the per-file `try/except` that skips a failing file. These are command-line plumbing.
- IEEE floating point in the main model. Prices and multipliers in `Pricing` are exact rationals, so `Pricing.PriceExamples` (its first clause) and `Pricing.UnitMultiplierKeepsCents` hold for exact arithmetic only, not for the script. In binary64, `10.00 * 1.06` is `10.600000000000001` and the script writes 10.61; a price of 1.10 at 0% becomes 1.11, because `1.1 * 100` is `110.00000000000001`. `FloatPricing` proves both cases (see "Findings"). It models positive normal doubles and multiplication only: zero, subnormals, infinities, overflow and the float addition and division inside `parse_percentage` are not modelled, so `FloatPricing.SixPercentGainsACent` takes the double nearest 1.06 as the multiplier that `1 + 6 / 100` yields.
- The full Python `float()` and `int()` grammars. Exponents, `inf`/`nan`, digit-group underscores and non-ASCII digits are rejected by the model. It accepts an optional sign, ASCII digits and an optional fraction (`5.` and `.5` included). The whitespace `float()` strips is modelled as CPython's: `str.isspace()` characters except the separators U+001C..U+001F.
- Percentage.PercentSignOptional: holds only for inputs without the separators U+001C..U+001F. For such a separator in the trailing whitespace, the script accepts the bare form and rejects the `%` form, as `Percentage.SeparatorBeforePercent` proves for `"5\u001c"`.
- `str.lower()` is modelled for ASCII letters only. Lower-casing other letters cannot produce `none`, `quit`, `exit`, `all`, a digit, a comma or whitespace, so the prompt's decision is unaffected.
- The integer/float distinction of JSON numbers. An integer price that is repriced is written back as a float in Python. The model keeps only the numeric value.
- Documents whose `pricable` is not a list of strings, or whose `rows` is not a list of objects. The script does not reject all of these. A string `pricable` such as `"small"` is walked character by character, by the `join` at line 89 and by the tier loop at line 97, so the one-letter fields `s`, `m`, `a`, `l`, `l` are repriced without error. An object `pricable` or `rows` is walked by its keys, so `"rows": {}` updates nothing. A `rows` list holding a non-object fails at `row.get` (line 95), and a `pricable` list holding a non-string fails at the `join`. Each failure is reported by the caller, which then moves on to the next file. The model types `pricable` as a list of strings and `rows` as a list of objects.
- Key order. `json.dump` (line 109) writes each object's keys in insertion order. Rows and the other top-level entries are maps here, so the written order is not modelled.

## Findings

| source | as written | input that shows it | evidently intended | confidence | as-written member | corrected member |
|---|---|---|---|---|---|---|
| update_prices.py:101-103 | the new price is the ceiling of price times multiplier times 100, with both products rounded to binary64, so a product can land just above a whole number of cents | price 1.10 at `0%` gives 1.11; price 10.00 at `6%` gives 10.61 | rounding up only fractional cents: a price already on a whole cent gets no extra cent, so 1.10 at 0% stays 1.10 and 10.00 at +6% is 10.60 | not executed | `FloatPricing.ScriptCents`, with `FloatPricing.OnCentPriceGainsACent` and `FloatPricing.SixPercentGainsACent` | `Pricing.AdjustPrice`, with `Pricing.CeilToCentOnCent` and `Pricing.UnitMultiplierKeepsCents` |
