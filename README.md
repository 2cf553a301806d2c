# Plant sidebar: code generator and creation workflow

This project models the sidebar of a plant-catalogue app for a headless
content store. The sidebar sits next to a plant card, the entry that holds
a plant's genus and species. It lists the plant entries linked to that card.
It also creates new ones: each new plant gets a code made of a prefix and a
counter, such as `RORU-001`. The prefix is the first two letters of the
genus and of the species, upper-cased.

Two versions of the sidebar are modelled:

- `src/locations/Sidebar.tsx` (module `Sidebar`) is the current one. It
  subscribes to the card's publication state and to the genus and species
  fields, and pads the counter to three digits with `padStart`. It reads the
  counter with `parseInt(…, 10)`.
- `src/components/Sidebar.tsx` (module `LegacySidebar`) is the earlier one.
  It reads the card on every render, pads to two digits by hand, and calls
  `parseInt` without a radix.

What both versions share lives in module `Plants`: the records, the
outcome of the remote steps, the toast, and the reading of the number after
the dash. Module `Js` gives the JavaScript built-ins the code relies on.
These are `slice`, `toUpperCase`, `padStart`, `split`, `Number#toString`
and the whole of `parseInt`: whitespace, sign, the `0x` prefix, the
longest digit prefix, and NaN. Module `CodeOrder` models which code the
"highest code with this prefix" query returns. It proves that the string
order this query uses makes the generator repeat a code once the counter
outgrows its padding, once both sidebars have written codes with the
same prefix, or once a `-NaN` code exists (see Findings). It also proves that selecting by the
number after the dash always yields a new code, as long as every matched
code is the prefix, a dash and digits.

Each component is a class. The current component's fields are its state
hooks: the publication flag, the two field codes, the busy flag and the
plant list. The legacy component holds its two hooks, the busy flag and the
list, plus what the latest render read: the publication flag and the
prefix. `createNewPlant` is split at its first `await`:

- `BeginCreate` raises the busy flag. It captures the list and the prefix
  the click handler closed over.
- `CompleteCreate` runs once the remote calls have settled.
- `CreateNewPlant` composes the two.

The remote calls are inputs to the model. The code query's answer is
`last`. The create and publish steps end in a `CreateOutcome`; a code query
that fails ends in `Failed` as well. The list query's answer is the
sequence of plant entries linked to the card, as its filter on the card's
id returns them.

Three behaviours of the code are modelled as written:

- The code picks the last code by sorting the whole code as a string
  (`order: '-fields.code'`), and the model does the same.
- The code passes any suffix to `parseInt`, so the model carries NaN
  through (`-NaN` codes).
- The legacy version pads to two digits and, calling `parseInt` without a
  radix, reads a `0x` suffix as hexadecimal.

## Model

| member | source | states |
|---|---|---|
| Js.ToUpperCase | src/locations/Sidebar.tsx:27 | upper-casing keeps the length and maps each ASCII character to its upper case; no lower-case letter is left |
| Js.UpperConcat | src/components/Sidebar.tsx:17 | upper-casing a concatenation is concatenating the upper-cased parts |
| Js.Slice | src/locations/Sidebar.tsx:27 | `slice(0, n)` is the prefix of length min(length, n) |
| Js.PadStart | src/locations/Sidebar.tsx:23 | `padStart` gives length max(width, length), ends with the original string and is fill before it |
| Js.Decimal | src/locations/Sidebar.tsx:23 | a number's decimal numeral is a non-empty run of digits with no leading zero except for 0 |
| Js.DecimalReadsBack | src/locations/Sidebar.tsx:23 | reading a number's numeral back gives the number |
| Js.DecimalLength | src/locations/Sidebar.tsx:23 | a numeral has at most k digits exactly when the number is below 10^k |
| Js.Split | src/locations/Sidebar.tsx:118 | `split` gives at least one part and no part holds the separator |
| Js.JoinSplit | src/locations/Sidebar.tsx:118 | joining the parts of `split` with the separator gives the string back |
| Js.SplitField | src/locations/Sidebar.tsx:118 | a present field of `split` holds no separator |
| Js.SplitWithout | src/locations/Sidebar.tsx:118 | a string without the separator splits into itself alone, so field 1 is undefined |
| Js.SplitAtFirst | src/locations/Sidebar.tsx:118 | a split breaks at the first separator |
| Js.SecondField | src/locations/Sidebar.tsx:118 | `(a + '-' + b).split('-')[1]` is b when neither part holds a dash |
| Js.TrimStart | src/locations/Sidebar.tsx:118 | `parseInt` first drops the leading white space: everything dropped is white space, and what remains is a suffix that is empty or starts with another character |
| Js.LeadingDigits | src/locations/Sidebar.tsx:118 | `parseInt` reads the longest prefix of digits of the radix |
| Js.ParseInt | src/locations/Sidebar.tsx:118 | `parseInt` of a text without a minus sign is never negative |
| Js.ParseDecimal | src/components/Sidebar.tsx:52 | a run of decimal digits parses to its value, both with radix 10 and with no radix |
| Js.LeadingZerosValue | src/locations/Sidebar.tsx:23 | zeros put in front by padding do not change the value read back |
| Plants.ToPlants | src/locations/Sidebar.tsx:92-97 | the list has one `{id, code}` per query result, in the query's order |
| Plants.ToPlantsConcat | src/components/Sidebar.tsx:30-33 | mapping the results commutes with concatenation |
| Plants.AfterCreate | src/locations/Sidebar.tsx:159-162 | a successful creation appends the new plant once at the end and keeps the rest; a failure keeps the list |
| Plants.Notify | src/locations/Sidebar.tsx:164-166 | a success toast exactly when the plant was created, the error toast otherwise |
| Plants.SuffixNumber | src/locations/Sidebar.tsx:118 | the number read after the dash is NaN or not negative |
| Plants.SuffixOfCode | src/locations/Sidebar.tsx:118 | the number after the dash of `prefix-digits` is the digits' value, with radix 10 or none |
| Plants.SuffixOfNaN | src/locations/Sidebar.tsx:118 | the number after the dash of `prefix-NaN` is NaN |
| Plants.SuffixWithoutDash | src/locations/Sidebar.tsx:118 | a code without a dash reads as `parseInt(undefined)`, NaN |
| Plants.ParseWord | src/locations/Sidebar.tsx:118 | a text starting with a letter that is no decimal digit parses to NaN |
| Sidebar.GetCode | src/locations/Sidebar.tsx:26-28 | a field code is the upper case of the value's first two characters (fewer for a short value, none for a missing one) |
| Sidebar.CodeStart | src/locations/Sidebar.tsx:75-78 | the prefix has at most four characters and is the upper case of the two two-character heads joined |
| Sidebar.NextPlantCode | src/locations/Sidebar.tsx:101-122 | the next code starts with the prefix and a dash; with no match it is `prefix-001` |
| Sidebar.PaddedOne | src/locations/Sidebar.tsx:114 | the first counter is `001` |
| Sidebar.PaddedNumberReadsBack | src/locations/Sidebar.tsx:20-24 | the padded counter is all digits, three long below 1000 and the plain numeral above, ends with the numeral and reads back as the number |
| Sidebar.NextCodeReadsBack | src/locations/Sidebar.tsx:113-121 | reading back the generated code gives 1 with no match, else one more than the number read from the last code (NaN stays NaN) |
| Sidebar.NextCodeAfterPadded | src/locations/Sidebar.tsx:117-121 | after a code with padded counter k the next code has padded counter k + 1 |
| Sidebar.PaddedOneDigit | src/locations/Sidebar.tsx:22-24 | a one-digit counter gets two zeros in front |
| Sidebar.ConsecutiveCodes | src/locations/Sidebar.tsx:113-121 | two creations in a row give `-001` then `-002` |
| Sidebar.RosaRugosaPrefix | src/locations/Sidebar.tsx:75-78 | Rosa rugosa gives the prefix `RORU` and the first code `RORU-001` |
| Sidebar.NextAfter007 | src/locations/Sidebar.tsx:117-121 | `RORE-007` is followed by `RORE-008` |
| Sidebar.NextAfter099 | src/locations/Sidebar.tsx:117-121 | `-099` is followed by `-100` |
| Sidebar.NextAfter999 | src/locations/Sidebar.tsx:117-121 | `-999` is followed by `-1000`: the padding never cuts a longer numeral |
| Sidebar.CodeWithoutDash | src/locations/Sidebar.tsx:118-121 | after a last code without a dash the next code is `prefix-NaN` |
| Sidebar.Component.constructor | src/locations/Sidebar.tsx:39-43 | the first render: published as the entry says, codes read from the fields, not busy, empty list |
| Sidebar.Component.CurrentCodeStart | src/locations/Sidebar.tsx:75-78 | the memoised prefix is the prefix of the current field values |
| Sidebar.Component.OnSysChanged | src/locations/Sidebar.tsx:45-51 | the publication flag follows the entry's publication date |
| Sidebar.Component.OnGenusChanged | src/locations/Sidebar.tsx:61-66 | the genus code is read again from the new value; the invariant is kept |
| Sidebar.Component.OnSpeciesChanged | src/locations/Sidebar.tsx:68-73 | the species code is read again from the new value; the invariant is kept |
| Sidebar.Component.LoadPlants | src/locations/Sidebar.tsx:80-99 | the list becomes the query's plants in query order |
| Sidebar.Component.BeginCreate | src/locations/Sidebar.tsx:124-125 | the busy flag goes up; the handler keeps this render's list and prefix |
| Sidebar.Component.CompleteCreate | src/locations/Sidebar.tsx:127-169 | on success the captured list plus the new plant replaces the list; on failure it stays; one toast; the flag goes down on both paths |
| Sidebar.Component.CreateNewPlant | src/locations/Sidebar.tsx:124-170 | with nothing interleaved, the list gains exactly the new plant at its end on success, is unchanged on failure, and the flag is down afterwards |
| LegacySidebar.CodeStart | src/components/Sidebar.tsx:14-17 | the prefix has at most four characters and equals the current version's prefix |
| LegacySidebar.NextPlantCode | src/components/Sidebar.tsx:37-57 | the next code starts with the prefix and a dash; with no match it is `prefix-01` |
| LegacySidebar.PadNextNumberReadsBack | src/components/Sidebar.tsx:53-54 | the hand padding is `padStart` to width two: all digits, two long below 100, reads back as the number |
| LegacySidebar.PaddingsAgreeFrom100 | src/components/Sidebar.tsx:53-54 | the two versions write the same counter exactly from 100 on |
| LegacySidebar.NextCodeReadsBack | src/components/Sidebar.tsx:47-56 | reading back the generated code gives 1 with no match, else one more than the number read from the last code |
| LegacySidebar.NextCodeAfterPadded | src/components/Sidebar.tsx:51-56 | after a code with padded counter k the next code has padded counter k + 1 |
| LegacySidebar.ConsecutiveCodes | src/components/Sidebar.tsx:47-56 | two creations in a row give `-01` then `-02` |
| LegacySidebar.NextAfter99 | src/components/Sidebar.tsx:51-56 | `-99` is followed by `-100` |
| LegacySidebar.HexSuffix | src/components/Sidebar.tsx:52 | without a radix a `0x1F` suffix reads as 31, so the next code ends in `-32` |
| LegacySidebar.HexSuffixInBase10 | src/locations/Sidebar.tsx:118 | with radix 10 the same suffix reads as 0, so the current version continues with `-001` |
| LegacySidebar.HexSuffixNumbers | src/components/Sidebar.tsx:52 | the suffix `0x1F` is 31 with no radix and 0 with radix 10 |
| LegacySidebar.Component.constructor | src/components/Sidebar.tsx:13-18 | the first render: published as the entry says, prefix from the fields, not busy, empty list |
| LegacySidebar.Component.Render | src/components/Sidebar.tsx:13-17 | a re-render reads the publication state and the prefix again |
| LegacySidebar.Component.LoadPlants | src/components/Sidebar.tsx:20-35 | the list becomes the query's plants in query order |
| LegacySidebar.Component.BeginCreate | src/components/Sidebar.tsx:59-60 | the busy flag goes up; the handler keeps this render's list and prefix |
| LegacySidebar.Component.CompleteCreate | src/components/Sidebar.tsx:62-91 | on success the captured list plus the new plant replaces the list; on failure it stays; one toast; the flag goes down |
| LegacySidebar.Component.CreateNewPlant | src/components/Sidebar.tsx:59-92 | with nothing interleaved, the list gains exactly the new plant on success, is unchanged on failure, and the flag is down afterwards |
| CodeOrder.LexLeReflexive | src/locations/Sidebar.tsx:105 | string order is reflexive |
| CodeOrder.LexLeTotal | src/locations/Sidebar.tsx:105 | string order is total |
| CodeOrder.LexLeTransitive | src/locations/Sidebar.tsx:105 | string order is transitive |
| CodeOrder.LexLeAntisymmetric | src/locations/Sidebar.tsx:105 | string order is antisymmetric |
| CodeOrder.LexLeCommonHead | src/locations/Sidebar.tsx:104-105 | codes with a common prefix compare as their remainders |
| CodeOrder.TopByCode | src/locations/Sidebar.tsx:102-117 | the first result of the descending query: none exactly when nothing matches, else a matching code that is greatest in string order |
| CodeOrder.LexLeSameWidth | src/locations/Sidebar.tsx:105 | for digit runs of one width, string order is numeric order |
| CodeOrder.SameWidthOrder | src/locations/Sidebar.tsx:105 | for two well-formed codes of one width, string order holds exactly when counter order does |
| CodeOrder.TopByCodeWithinWidth | src/locations/Sidebar.tsx:102-117 | while all counters have one width, the first code in string order has the greatest counter |
| CodeOrder.RepeatsAfter999 | src/locations/Sidebar.tsx:101-122 | with `-999` and `-1000` in use the query returns `-999` and the generator proposes `-1000` again |
| CodeOrder.RepeatsAfter99 | src/components/Sidebar.tsx:37-57 | with `-99` and `-100` in use the legacy generator proposes `-100` again |
| CodeOrder.AsWrittenFreshBelow1000 | src/locations/Sidebar.tsx:101-122 | while every counter in use has three digits, the generated code is new |
| CodeOrder.LegacyAsWrittenFreshBelow100 | src/components/Sidebar.tsx:37-57 | while every counter in use has two digits, the legacy code is new |
| CodeOrder.RepeatsAfterLegacyCode | src/locations/Sidebar.tsx:101-122 | with the legacy `-01` and the current `-002` in use the query returns `-01` and the current generator proposes `-002` again |
| CodeOrder.NextAfterLegacyOne | src/locations/Sidebar.tsx:117-121 | after the legacy code `-01` the current generator writes `-002` |
| CodeOrder.NaNSortsFirst | src/locations/Sidebar.tsx:105 | a `-NaN` code sorts above a numbered code with the same prefix, so the query returns it |
| CodeOrder.NaNIsItsOwnSuccessor | src/locations/Sidebar.tsx:117-121 | after `prefix-NaN` the current generator writes `prefix-NaN` |
| CodeOrder.RepeatsAfterNaN | src/locations/Sidebar.tsx:101-122 | with `-001` and `-NaN` in use the current generator proposes `-NaN`, a code already in use |
| CodeOrder.CheckedNextCode | src/locations/Sidebar.tsx:117-121 | the corrected generator gives no code exactly when the last counter does not parse, and otherwise the current generator's code, which is the prefix, a dash and digits |
| CodeOrder.SuffixKey | src/locations/Sidebar.tsx:118 | the sort key is the counter when it is a number, and -1 exactly when the counter is NaN |
| CodeOrder.TopBy | src/locations/Sidebar.tsx:102-117 | the selection returns a code with the greatest key, none exactly when there are no codes |
| CodeOrder.TopBySuffix | src/locations/Sidebar.tsx:102-117 | the corrected selection returns a code with the greatest counter |
| CodeOrder.WellFormedKey | src/locations/Sidebar.tsx:118 | a generated code's key is the value of its digits |
| CodeOrder.NextIsWellFormed | src/locations/Sidebar.tsx:113-121 | the current generator writes prefix, dash and digits whenever the last counter is a number |
| CodeOrder.LegacyNextIsWellFormed | src/components/Sidebar.tsx:47-56 | the legacy generator does too |
| CodeOrder.NextAfterGreatestIsFresh | src/locations/Sidebar.tsx:113-121 | after the code with the greatest counter the generated code is new and well formed |
| CodeOrder.LegacyNextAfterGreatestIsFresh | src/components/Sidebar.tsx:47-56 | the same for the legacy generator |
| CodeOrder.CorrectedNextIsFresh | src/locations/Sidebar.tsx:101-122 | with the corrected selection the generated code is new and well formed, as long as every matched code is the prefix, a dash and digits |
| CodeOrder.LegacyCorrectedNextIsFresh | src/components/Sidebar.tsx:37-57 | with the corrected selection the legacy code is new and well formed, as long as every matched code is the prefix, a dash and digits |

## Findings

| source | as written | input that shows it | evidently intended | confidence | as-written member | corrected member |
|---|---|---|---|---|---|---|
| src/locations/Sidebar.tsx:101-122 | the last code is the first result of `order: '-fields.code'`, the greatest code in string order | `RORE-999` and `RORE-1000` both exist: `RORE-999` sorts first, and `RORE-1000` is proposed again | continue after the greatest counter, here with `RORE-1001` | not executed; assumes the store orders text fields by character code | CodeOrder.RepeatsAfter999 | CodeOrder.CorrectedNextIsFresh |
| src/components/Sidebar.tsx:37-57 | the same query with a two-digit counter | `RORE-99` and `RORE-100` both exist: `RORE-100` is proposed again | continue with `RORE-101` | not executed; assumes the same order | CodeOrder.RepeatsAfter99 | CodeOrder.LegacyCorrectedNextIsFresh |
| src/locations/Sidebar.tsx:101-122 | the same query over codes written by both sidebars, which share one prefix | `RORE-01` (legacy) and `RORE-002` (current) both exist: `RORE-01` sorts first, and `RORE-002` is proposed again | continue after the greatest counter, here with `RORE-003` | not executed; assumes the same order | CodeOrder.RepeatsAfterLegacyCode | CodeOrder.CorrectedNextIsFresh |
| src/locations/Sidebar.tsx:117-121 | a counter that does not parse becomes NaN, and the code `prefix-NaN` is written | a last code without a dash, or with a non-numeric suffix, gives `RORE-NaN`; with `RORE-001` and `RORE-NaN` in use the query returns `RORE-NaN` (`N` sorts after every digit), and `RORE-NaN` is proposed again | report the unreadable counter instead of writing a code | not executed; assumes the same order | CodeOrder.RepeatsAfterNaN | CodeOrder.CheckedNextCode |

The workflow methods take the query's answer `last` as an input. The
corrected selection, `CodeOrder.TopBySuffix`, is what the freshness
lemmas feed them.

## Left out

- Remote calls (`getMany`, `create`, `publish`, `getEntries`, `createEntry`, `publishEntry`) are not modelled as code. Their results are inputs: `last`, the query items and `CreateOutcome`.
- `fields.code[match]` is a full-text match in the content store. The freshness lemmas assume every matched code is the prefix, a dash and a run of digits. Other matches are not modelled: a lone `prefix-NaN`, for one, is its own successor, so with it the next code is not new.
- Numbers are unbounded integers. JavaScript doubles lose precision above 2^53, and `toString` switches to exponent notation from 1e21 on; neither is modelled.
- `toUpperCase` is modelled for ASCII only. The field heads must be ASCII (`Sidebar.AsciiHead`); locale-dependent and multi-character upper-casing is not modelled.
- Field values that are not strings are not modelled. The `as string` cast is unchecked in the source; a value is an `Option<string>`, and None stands for undefined or null.
- Plant entries without a code are not modelled; `PlantEntry` always carries a code string. In the source this case behaves in three ways:
  - In the mount mapping (src/locations/Sidebar.tsx:95, src/components/Sidebar.tsx:32), a missing `fr` value lists a plant whose code is undefined.
  - In the same mapping, a missing `code` field throws, and that rejection goes unhandled.
  - In `getNextPlantCode` (src/locations/Sidebar.tsx:118, src/components/Sidebar.tsx:52), `.split` on an undefined code throws inside the `try`, and the error toast is shown.
- Interleavings of the asynchronous steps are not enumerated. The stale closure is captured by `BeginCreate`, and `CompleteCreate` may follow any other call; the race between the mount query and a creation is visible only through that split.
- The created entry is assumed to carry the code it was created with. The source reads the code for the list item and the toast back from the create response (src/locations/Sidebar.tsx:161,164; src/components/Sidebar.tsx:84,86).
- Exceptions after the publish step (in `setPlants` or the notifier) are not modelled.
- Rendering is not modelled: JSX, the entity list, `Plural` and `Trans`, navigation on click, the auto-resizer and unsubscribing on unmount. The guard that the button shows only for a published card and is disabled while busy becomes the precondition of `BeginCreate`.
- Toast texts are the untranslated messages. Translation catalogues, `i18n.ts`, `App.tsx`, `index.tsx` and `lingui.config.js` are not part of this model.
- Sidebar.NextCodeAfterPadded: covers suffixes the generator writes (padded numerals). For any other run of digits the step is `Plants.SuffixOfCode` with the definition of `NextPlantCode`, not one lemma.
- LegacySidebar.NextCodeAfterPadded: the same restriction for the legacy padding.
