# Checkbox test-data generator: a Dafny model

This project models the test-data core of a browser extension's checkbox and
form panel:

- **Form-schema inference** (`ui-checkbox.js`, the "use inspected" handler).
  It takes the form controls of a captured page fragment and produces one
  field spec per distinct control name:
  - a name is derived by a fallback chain, and the first control of a name wins;
  - each control is classified by tag and `type`;
  - checkbox and radio groups are collected by name;
  - every spec is given the generator `auto`.
- **The "Generate" click** (`ui-checkbox.js`):
  - the record count read with `parseInt(…) || 1`;
  - the chooser's include boxes and generator overrides;
  - the single-checkbox spec used when nothing was detected.
- **Row generation** (`checkboxData.js`):
  - `generateCheckboxData`, `generateMultiple` and `generateFormData`;
  - the realistic value generators behind them (name, e-mail, phone, date,
    address, number, random string, `chooseRandom`);
  - the draw-without-replacement loops.
- **CSV serialisation** (`checkboxData.js`): `toCSV` and `toCSVFromObjects`
  with its `escapeCell`.
- **The checkbox page object** (`CheckboxPage.js`): `inspect`,
  `_findLabelText` and `applyRow`.

Every `Math.random()` call is replaced by an injected oracle `rand: nat -> nat`
read at a cursor `k`. Generators return the value and the next cursor
(`Oracle.Drawn`). `Math.floor(Math.random() * n)` becomes `rand(k) % n`.
Every oracle gives an outcome the program can produce, and every draw below
`n` is reached by some oracle. Probabilities are not modelled.

The CSV text is checked against a separate quote-aware reader
(`CsvReader`). Reading each serialiser's output back gives the header and
the cells.

Modules:

| module | what it holds |
|---|---|
| `Wrappers`, `Sequences`, `OrderedMaps`, `Strings`, `Numerals`, `Calendar` | support: `Option`, first/last occurrence, insertion-ordered maps (JavaScript objects), `trim`/`toLowerCase`/`join`, `String(n)` and `parseInt`, ISO dates |
| `Oracle` | the random source, `randomString`, the splice-based draw loop `PickDistinct` |
| `Dom`, `FieldSpecs` | the page (controls and labels) and the field spec / row / cell types |
| `Generators` | the realistic value generators and `chooseRandom` |
| `FormData` | `generateFormData` and its override and type dispatch |
| `CheckboxData` | `generateCheckboxData`, `toCSV`, `generateMultiple` |
| `CsvReader` | the reader the CSV writers are checked against |
| `CsvWriter` | `toCSVFromObjects` and `escapeCell` |
| `SchemaInference` | the spec-inference loop |
| `GenerateAction` | the "Generate" click: record count, chooser, fallback spec |
| `CheckboxPage` | `inspect`, `_findLabelText`, `applyRow` |

## Model

| member | source | states |
|---|---|---|
| Oracle.Below | src/scripts/test-data/checkboxData.js:41 | `Math.floor(Math.random() * n)` costs one call and lands below `n` |
| Oracle.RandomString | src/scripts/test-data/checkboxData.js:92-94 | one call yields the first `len` base-36 digits after the point of the drawn fraction; fewer only when the fraction ends sooner, and then the last digit is not 0; none for the number 0 |
| Oracle.RandomStringLeadingZero | src/scripts/test-data/checkboxData.js:92-94 | a token can start with 0: the draw written `101` in base 36 gives "01" |
| Oracle.RemoveAt | src/scripts/test-data/checkboxData.js:42 | `splice(i, 1)` leaves one element fewer, and the removed element plus the rest is the original multiset |
| Oracle.PickDistinct | src/scripts/test-data/checkboxData.js:195-200 | the pool-splicing loop picks exactly `min(max(count, 0), pool length)` elements, as a sub-multiset of the pool, one call per pick |
| Oracle.SubMultisetDistinct | src/scripts/test-data/checkboxData.js:195-200 | picks from a pool without repetitions are distinct members of the pool |
| Oracle.PickDistinctMap | src/scripts/test-data/checkboxData.js:39-43 | picking positions and reading the elements there gives the same picks and the same calls as picking the elements directly |
| Generators.ChooseRandom | src/scripts/test-data/checkboxData.js:100-103 | "" with no call for an empty list; otherwise an element of the list, one call |
| Generators.RandomNumber | src/scripts/test-data/checkboxData.js:96-98 | the result lies in `min .. max` inclusive, one call |
| Generators.RandomName | src/scripts/test-data/checkboxData.js:106-110 | a first name, a space and a last name from the two pools, two calls |
| Generators.LocalPart | src/scripts/test-data/checkboxData.js:114 | the local part is lower-case ASCII letters only; a call is made only when no name is given, and then it is at most six letters |
| Generators.LocalPartOfName | src/scripts/test-data/checkboxData.js:114 | for a generated name the local part is the lower-cased first name |
| Generators.RandomEmail | src/scripts/test-data/checkboxData.js:112-116 | `local.dddd@domain`, with a four-digit number from 1000 to 9999 and a domain from the pool; the local part is the prefix; three calls without a name, two with one |
| Generators.RandomPhone | src/scripts/test-data/checkboxData.js:118-123 | `ddd-ddd-dddd` with groups in 100..999, 100..999 and 1000..9999 |
| Generators.FixedWidth | src/scripts/test-data/checkboxData.js:119-121 | a number with exactly `w` digits prints as `w` digits and reads back as itself |
| Generators.RandomNumeral | src/scripts/test-data/checkboxData.js:157 | `String(randomNumber(0, hi))` is the decimal text of a number from 0 to `hi` |
| Generators.RandomDate | src/scripts/test-data/checkboxData.js:125-130 | a `YYYY-MM-DD` text naming a valid calendar day from 1970-01-01 up to the last day of the range |
| Generators.RandomAddress | src/scripts/test-data/checkboxData.js:132-135 | `n Street, Suite m` with `n` in 1..9999, a street from the pool and `m` in 100..999 |
| Calendar.FromDayNumber | src/scripts/test-data/checkboxData.js:128-129 | the date `n` days after 1970-01-01 is valid, from 1970 on, and counts back to `n` |
| Calendar.DayNumberInjective | src/scripts/test-data/checkboxData.js:128-129 | different valid dates are different days |
| Calendar.Iso | src/scripts/test-data/checkboxData.js:129 | `toISOString().split('T')[0]` is ten characters, digits with dashes at positions 4 and 7 |
| Calendar.IsoRoundTrip | src/scripts/test-data/checkboxData.js:129 | the date text reads back as the date |
| Numerals.DecimalRoundTrip | src/scripts/test-data/checkboxData.js:157 | `String(n)` is all digits and reads back as `n` |
| Numerals.DecimalInjective | src/scripts/test-data/checkboxData.js:27 | different numbers print differently, so `val_i` names are distinct |
| Numerals.ParseIntOr | src/scripts/test-data/ui-checkbox.js:146 | `parseInt(s, 10) \|\| d` is the parsed value when that is a non-zero number, and `d` when the parse is NaN or 0 |
| Numerals.ParseIntDecimal | src/scripts/test-data/ui-checkbox.js:146 | `parseInt` reads back a printed number, ignoring a non-digit tail |
| Numerals.ParseIntNegative | src/scripts/test-data/ui-checkbox.js:146 | a leading minus negates the value read |
| Numerals.ParseIntSkipsSpace | src/scripts/test-data/ui-checkbox.js:146 | leading white space does not change the value read |
| Numerals.ParseIntNaN | src/scripts/test-data/ui-checkbox.js:146 | text that starts with neither white space, a sign nor a digit is NaN |
| Strings.Trim | src/scripts/pages/CheckboxPage.js:43 | the result is the slice of the input left when the white space at both ends is cut off: only white space lies before and after it, and it neither starts nor ends with white space |
| Strings.Lower | src/scripts/test-data/checkboxData.js:149 | lower-casing keeps the length and maps each character on its own |
| Strings.DoubleQuotes | src/scripts/test-data/checkboxData.js:231 | doubling quotes leaves quote-free text unchanged and never shortens it |
| Strings.KeepLowerLetters | src/scripts/test-data/checkboxData.js:114 | `replace(/[^a-z]/g, '')` keeps only lower-case letters, and each lower-case letter of the input survives |
| Strings.KeepLowerLettersInOrder | src/scripts/test-data/checkboxData.js:114 | the result is the input's characters at exactly the positions holding a lower-case letter, in increasing order |
| Strings.FirstWord | src/scripts/test-data/checkboxData.js:114 | `split(' ')[0]` is the prefix before the first space |
| OrderedMaps.Put | src/scripts/test-data/checkboxData.js:152 | `row[name] = v`: the key now reads `v`, other keys are unchanged, and a new key goes last while an existing one keeps its place |
| OrderedMaps.PutKeepsKeysDistinct | src/scripts/test-data/checkboxData.js:152 | setting a key never repeats a key |
| FormData.OverrideOf | src/scripts/test-data/checkboxData.js:149-151 | the lower-cased generator is no override exactly when it is "" or "auto", `number` is the numeric one, and the others are recognised |
| FormData.KindOf | src/scripts/test-data/checkboxData.js:164 | an absent type counts as text, and any type outside the eight cases reaches the default branch |
| FormData.InferredKindsDispatched | src/scripts/test-data/checkboxData.js:164-209 | every type that schema inference assigns has a branch of its own |
| FormData.NameOf | src/scripts/test-data/checkboxData.js:147 | the row key is the spec's name when it has one, and "field" when it has none |
| FormData.PickSome | src/scripts/test-data/checkboxData.js:172-183 | a multiple select picks at most two options, from distinct pool positions, and at least one exactly when there are options; with one or two options exactly one; one call for the count and one per pick |
| FormData.PickChecked | src/scripts/test-data/checkboxData.js:191-202 | a checkbox group picks from distinct pool positions, exactly `min(max(selectedCount, 0), options)` of them when a count is given |
| FormData.ByKind | src/scripts/test-data/checkboxData.js:164-209 | the type dispatch yields a cell of the type's shape; a button makes no call |
| FormData.ByOverride | src/scripts/test-data/checkboxData.js:150-161 | an override yields a string of the override's shape and makes at least one call |
| FormData.GenerateValue | src/scripts/test-data/checkboxData.js:147-162 | the cell fits the spec: the override's shape when there is one, else the type's |
| FormData.OverrideIgnoresKind | src/scripts/test-data/checkboxData.js:149-161 | with an override, the spec's type has no influence on the cell or the calls made |
| FormData.FillRow | src/scripts/test-data/checkboxData.js:145-210 | one record has a key for every spec name (with "field" for unnamed specs) and no other, and under each key the cell of the last spec of that name |
| FormData.GenerateFormData | src/scripts/test-data/checkboxData.js:142-214 | exactly `records` rows (none when it is not positive), each fitting the specs |
| CheckboxData.ValOptions | src/scripts/test-data/checkboxData.js:26-27 | the options are `val_1` .. `val_n` in order, none when `n` is not positive |
| CheckboxData.ValOptionsDistinct | src/scripts/test-data/checkboxData.js:26-27 | the option values are pairwise different |
| CheckboxData.MakeOptions | src/scripts/test-data/checkboxData.js:14-16 | each option gets its value and a label `prefix_` plus base-36 digits, one call per option |
| CheckboxData.Heads | src/scripts/test-data/checkboxData.js:47-49 | the coin path keeps exactly the positions whose coin came up, in increasing order |
| CheckboxData.SelectOnce | src/scripts/test-data/checkboxData.js:36-50 | one record's selection has exactly `sel` values when `sel > 0`, and uses `sel` calls, or one per option on the coin path |
| CheckboxData.SelectOnceFacts | src/scripts/test-data/checkboxData.js:36-50 | the selection is distinct options; with `sel > 0` it is the without-replacement draw; otherwise an option is selected exactly when its coin came up |
| CheckboxData.CoinFacts | src/scripts/test-data/checkboxData.js:45-49 | on the coin path an option is selected if and only if its coin came up |
| CheckboxData.IndexPickIsDirect | src/scripts/test-data/checkboxData.js:38-43 | drawing indices and reading `options[chosen]` picks the same values as drawing from the options |
| CheckboxData.Records | src/scripts/test-data/checkboxData.js:33-58 | `count` records, each with the field name, all options and a valid selection |
| CheckboxData.Clamped | src/scripts/test-data/checkboxData.js:24-31 | `selectedCount` (default 0) is clamped into `0 .. options`: 0 when not positive, itself when in range, the option count when at or above it |
| CheckboxData.GenerateCheckboxData | src/scripts/test-data/checkboxData.js:23-60 | `records` rows (default 1, none when it is not positive); each is named `name` or "checkbox", lists `val_1..val_n` and selects distinct options, exactly the clamped count of them when it is positive |
| CheckboxData.ToCsv | src/scripts/test-data/checkboxData.js:65-75 | the text is empty exactly when there are no rows |
| CheckboxData.ToCsvReadBack | src/scripts/test-data/checkboxData.js:65-75 | read back, the text is the header `fieldName,options,selected` and one record per row: the name, the `\|`-joined options and the `\|`-joined selection |
| CheckboxData.GeneratedWritable | src/scripts/test-data/checkboxData.js:52-56 | generated rows meet the round trip's condition whenever the group name needs no quoting |
| CheckboxData.GenerateMultiple | src/scripts/test-data/checkboxData.js:80-86 | the result has distinct keys, no more entries than specs, and every named spec's name among its keys |
| CheckboxData.GenerateMultipleNamed | src/scripts/test-data/checkboxData.js:82-84 | under a spec's name sit the rows `generateCheckboxData` draws for that spec, at the cursor the specs before it leave, when no later spec takes the same key |
| CsvReader.ReadFieldBack | src/scripts/test-data/checkboxData.js:229-233 | a cell written as it is, or in quotes with its quotes doubled, reads back as its text |
| CsvReader.ReadCsvBack | src/scripts/test-data/checkboxData.js:236-241 | comma-joined cells in newline-joined lines read back as the table of their texts |
| CsvReader.RenderLinesJoin | src/scripts/test-data/checkboxData.js:241 | the written table is `lines.join('\n')` of the written lines |
| CsvReader.RenderLineJoin | src/scripts/test-data/checkboxData.js:239 | a written line is `rowVals.join(',')` of its written cells |
| CsvWriter.EscapeCell | src/scripts/test-data/checkboxData.js:226-234 | `escapeCell` as written: null is "", a list is its `\|`-join in quotes, and a scalar without comma, newline or quote is unchanged |
| CsvWriter.ListQuoteLost | src/scripts/test-data/checkboxData.js:228 | the list `["a\"b"]` is written `"a"b"`, which reads back as `ab"` |
| CsvWriter.EscapeCellCorrected | src/scripts/test-data/checkboxData.js:226-234 | the cell is quoted exactly when it is a list or a scalar holding a comma, newline or quote, and every cell reads back as its text |
| CsvWriter.EscapeAgrees | src/scripts/test-data/checkboxData.js:226-234 | the written and corrected escapes agree except for a list with a quote in an item |
| CsvWriter.AllKeysMember | src/scripts/test-data/checkboxData.js:224 | a key is collected exactly when some row has it |
| CsvWriter.KeyUnion | src/scripts/test-data/checkboxData.js:224 | the key union holds each key of any row once, in order of first appearance |
| CsvWriter.Headers | src/scripts/test-data/checkboxData.js:222-224 | the header is the spec names in spec order when there are specs, otherwise the key union |
| CsvWriter.ToCsvFromObjects | src/scripts/test-data/checkboxData.js:219-241 | the text is empty exactly when there are no rows |
| CsvWriter.ToCsvFromObjectsAsWritten | src/scripts/test-data/checkboxData.js:219-241 | the text as the source writes it, with `escapeCell` as written, is empty exactly when there are no rows |
| CsvWriter.AsWrittenAgrees | src/scripts/test-data/checkboxData.js:226-240 | the text as written is the same as the corrected one whenever no list value of any row has a quote in an item |
| CsvWriter.AsWrittenAgreesWhen | src/scripts/test-data/checkboxData.js:226-240 | the same agreement, as an implication that holds for every set of rows |
| CsvWriter.ToCsvFromObjectsReadBack | src/scripts/test-data/checkboxData.js:219-241 | read back, the text is the header and one record per row with one cell per header, the row's value under that header (`\|`-joined for lists, "" when missing) |
| Dom.CountChecked | src/scripts/test-data/ui-checkbox.js:92 | the checked count is at most the group size, equal to it exactly when all are checked, and 0 exactly when none is |
| Dom.CountCheckedIsMarked | src/scripts/test-data/ui-checkbox.js:92 | the checked count is the number of positions holding a checked element |
| SchemaInference.ElementNames | src/scripts/test-data/ui-checkbox.js:68-72 | each control's name is its `name`, else `data-name`, else `id`, else `tag_` plus up to four base-36 digits; never empty |
| SchemaInference.Group | src/scripts/test-data/ui-checkbox.js:90 | every member is an input of that type and `name` attribute, and every such input is a member |
| SchemaInference.GroupInOrder | src/scripts/test-data/ui-checkbox.js:90 | the group is the controls at exactly the positions the selector matches, in increasing order |
| SchemaInference.GroupValue | src/scripts/test-data/ui-checkbox.js:91 | a group option value is never empty: the value, else the id, else the `value` attribute, else "on" |
| SchemaInference.OptionTexts | src/scripts/test-data/ui-checkbox.js:80 | one option text per `<option>`, in order |
| SchemaInference.ButtonLabel | src/scripts/test-data/ui-checkbox.js:85 | a button label is never empty: the trimmed text, else the value, else "button" |
| SchemaInference.Describe | src/scripts/test-data/ui-checkbox.js:76-102 | a spec keeps the derived name and always gets one of the seven types |
| SchemaInference.DescribeClassifies | src/scripts/test-data/ui-checkbox.js:77-102 | the type is select, textarea, button, checkbox, radio or number exactly for those controls, and text for any other input; options come only from selects and groups; the selected count is present exactly for checkboxes and is the group's checked count, at most its option count |
| SchemaInference.WithAuto | src/scripts/test-data/ui-checkbox.js:107 | each spec gets the generator "auto" and nothing else changes |
| SchemaInference.Infer | src/scripts/test-data/ui-checkbox.js:61-107 | one spec per distinct name, names pairwise different, in order of first occurrence, each describing the first control of its name |
| SchemaInference.Schema | src/scripts/test-data/ui-checkbox.js:61-104 | the specs built from the drawn names form the schema of the document |
| GenerateAction.Kept | src/scripts/test-data/ui-checkbox.js:157-159 | the kept positions are exactly the included ones, in increasing order |
| GenerateAction.ApplyChooser | src/scripts/test-data/ui-checkbox.js:151-159 | without a chooser the specs are unchanged; with one exactly the included specs are kept, in order, with the generator replaced by a non-empty chosen one and nothing else changed |
| GenerateAction.DefaultChooser | src/scripts/test-data/ui-checkbox.js:118-123 | a chooser left as it was built keeps every spec with the generator "auto" |
| GenerateAction.RecordCount | src/scripts/test-data/ui-checkbox.js:146 | the record count is never 0: the parsed value when that is a non-zero number, else 1 |
| GenerateAction.FallbackSpec | src/scripts/test-data/ui-checkbox.js:192-194 | the trimmed name or "checkbox", options `val_1 .. val_n` for the parsed inspected count (default 1), and the parsed selected count (default 0) |
| GenerateAction.FallbackDefaults | src/scripts/test-data/ui-checkbox.js:192 | counts that are NaN or 0 give the single option `val_1` and a selected count of 0 |
| GenerateAction.OnGenerate | src/scripts/test-data/ui-checkbox.js:145-196 | "no fields selected" exactly when specs were detected and the chooser kept none; otherwise the record count's rows, each fitting the specs, and the CSV text of those rows and specs from the corrected writer, empty exactly when there are no rows, and the text `toCSVFromObjects` writes as long as no list item holds a quote |
| GenerateAction.FallbackRows | src/scripts/test-data/ui-checkbox.js:192-196 | in the fallback every row holds distinct `val_i` values under the spec's name, as many as the clamped selected count |
| CheckboxPage.Checkboxes | src/scripts/pages/CheckboxPage.js:15 | every member is a checkbox of the page, every checkbox is a member, and there are none exactly when the page has no checkbox |
| CheckboxPage.CheckboxesInOrder | src/scripts/pages/CheckboxPage.js:15 | the checkboxes are the controls at exactly the checkbox positions, in document order |
| CheckboxPage.GroupKey | src/scripts/pages/CheckboxPage.js:21 | the group key is the name, else `data-name`, else "checkbox" |
| CheckboxPage.LabelFor | src/scripts/pages/CheckboxPage.js:42 | a label whose `for` is the id, found exactly when one exists |
| CheckboxPage.LabelForFirst | src/scripts/pages/CheckboxPage.js:42 | the label found is the first with that `for` |
| CheckboxPage.FindLabelText | src/scripts/pages/CheckboxPage.js:38-53 | the trimmed text of the `for` label when the control has an id and one exists, else the trimmed text of an enclosing label, else null exactly when neither exists |
| CheckboxPage.LabelOf | src/scripts/pages/CheckboxPage.js:29-32 | the label shown is the label text when it is non-empty, else the value, else the id |
| CheckboxPage.Members | src/scripts/pages/CheckboxPage.js:19-24 | a group holds only checkboxes with its key, and every checkbox with its key |
| CheckboxPage.MembersInOrder | src/scripts/pages/CheckboxPage.js:19-24 | a group is the checkboxes at exactly the positions whose key is its key, in document order |
| CheckboxPage.Inspect | src/scripts/pages/CheckboxPage.js:13-36 | no groups exactly when there are no checkboxes; otherwise one summary per distinct key, in order of first appearance, with the node count, checked count and one label per node |
| CheckboxPage.InspectCounts | src/scripts/pages/CheckboxPage.js:27-32 | each group has at least one node, no more checked nodes than nodes, and one label per node |
| CheckboxPage.InspectTotal | src/scripts/pages/CheckboxPage.js:15-28 | the groups' node counts add up to the number of checkboxes |
| CheckboxPage.ApplyRow | src/scripts/pages/CheckboxPage.js:59-69 | true exactly when some checkbox has the row's name; otherwise nothing changes; each such checkbox ends up checked exactly when its value is selected, and every other control is unchanged |
| CheckboxPage.ApplyRowIdempotent | src/scripts/pages/CheckboxPage.js:64-67 | applying a row twice is the same as applying it once |

## Left out

- DOM parsing and querying are not modelled. `DOMParser` and `querySelectorAll` are replaced by a document given as controls in document order plus its `<label>` elements.
- CSS selector quoting is not modelled. A name or id holding a quote makes the source's selector invalid, which `_findLabelText` swallows in its `catch` and the other call sites throw on.
- Chrome messaging, event listeners, HTML building (`innerHTML`, `renderTable`), the clipboard, the `setTimeout` button resets and the Blob download are left out. They are UI and I/O glue.
- The status messages of the inspect handler (no content, no controls, parse failure) are left out; they only set text.
- The single-field prefill of the inputs (`ui-checkbox.js:130-135`) and the chooser's HTML rows are left out. The chooser is modelled as the values it is read for.
- Floating-point randomness is left out. Only each call's possible outcomes are modelled, through the oracle, not their probabilities.
- CheckboxData.CoinFacts: `randBool(0.3)` is modelled as a coin that can come up either way; the 30% bias is not stated.
- Generators.RandomDate: the local time zone is taken to be UTC. The source's `new Date(y, 0, 1)` is local time, so elsewhere the day may shift by one.
- Oracle.RandomString: a draw may stand for any digit string without a trailing zero. `toString(36)` prints only as many digits as identify the double, so some of these strings are never printed as a whole fraction, and the model allows a few short tokens the program may never yield. The distribution is not stated.
- Strings.Lower: `toLowerCase` is modelled on ASCII letters only.
- Absent attributes, keys and `null` names are modelled as "". The source treats them alike, since all are falsy, except that a spec key left out of the row is `undefined` (modelled as `None`). A key that names an inherited `Object.prototype` member is not `undefined` in the source; see the `CsvWriter.ToCsvFromObjects` line.
- OrderedMaps.Put: JavaScript objects list integer-like keys first. That reordering, and the special `__proto__` key, are not modelled; keys keep insertion order.
- Numerals.ParseIntOr: numbers are unbounded; `parseInt`'s loss of precision beyond 2^53 is not modelled.
- CsvWriter.ToCsvFromObjects: it is built on the corrected `escapeCell`, and the rest of the model uses it. `CsvWriter.ToCsvFromObjectsAsWritten` is the text as written. `CsvWriter.AsWrittenAgrees` proves the two are the same text when no list item of any row holds a quote.
- CsvWriter.ToCsvFromObjects: a header naming an inherited `Object.prototype` member (`toString`, `constructor`, `valueOf`, …) that a row lacks is read as missing and written "". The source's `r[h]` reads the inherited member and writes its text, for example `function toString() { [native code] }`. Both writers and `CsvWriter.ToCsvFromObjectsReadBack` share this gap. The prototype chain is not modelled.
- CsvWriter.ToCsvFromObjectsReadBack: requires header names without comma, newline or quote, because the source joins the header unescaped; a name with a comma shifts every column.
- CheckboxData.ToCsvReadBack: requires a field name that needs no quoting and items without quotes, because `toCSV` escapes nothing.
- CheckboxData.GenerateCheckboxData: the option labels are drawn, so the calls are counted, but the rows do not carry them, as in the source. Non-integer counts are not modelled.
- CheckboxData.GenerateMultipleNamed: states the rows under a spec's name only when no later spec takes that key. Which rows sit under a synthesised `checkbox_n` key is not stated.
- GenerateAction.FallbackSpec: `Array.from({length: n})` throws a `RangeError` when the inspected count is 2^32 or more. The model builds the `val_1 .. val_n` options for any count.
- GenerateAction.OnGenerate: the click's CSV text is built with the corrected writer, `CsvWriter.ToCsvFromObjects`, as the rest of the model is. When a list item of a row holds a quote, the source emits the as-written text `CsvWriter.ToCsvFromObjectsAsWritten` instead (the Finding below). The contract states that the two agree in every other case.
- GenerateAction.OnGenerate: the table view's `key=value` rows are left out (display only).
- `[name=""]` selectors are not modelled separately. An absent name matches like an empty one in `applyRow` and in the group collection.

## Findings

| source | as written | input that shows it | evidently intended | confidence | as-written member | corrected member |
|---|---|---|---|---|---|---|
| src/scripts/test-data/checkboxData.js:228 | a list cell is written as its `\|`-join between quotes, without doubling the quotes inside | the list `["a\"b"]` is written `"a"b"`, which a CSV reader reads as `ab"` | double the quotes of the joined text, as the scalar branch does at line 231 | medium, not executed | CsvWriter.ListQuoteLost | CsvWriter.EscapeCellCorrected |
