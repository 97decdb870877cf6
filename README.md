# osstatus-generator, modelled in Dafny

`osstatus-generator` reads Apple's `SecBase.h` and writes `OSStatusError.swift`,
a Swift enum with one case per `OSStatus` error code. This project models the
two halves of that program and the record that passes between them.

- **The record** (`Status.swift`) is the datatype `StatusRecord.Status`. It holds
  a name, a 32-bit code (`OSStatus`, a subset type of `int` bounded by
  -2^31 and 2^31-1) and an optional description. `NoError` and `Unimplemented`
  are the two records of the extractor's documented example.
- **The extractor** (`StatusSequence.swift`) is the module `StatusSequence`. It
  matches the RegexBuilder pattern `statusMatch` with a deterministic scanner:
  - `nameMatch`: a line start, whitespace, a word, whitespace;
  - `codeMatch`: whitespace, an optional `-`, digits, turned into an
    `OSStatus` by `TryCapture`, whitespace;
  - `descriptionMatch`: `/*`, the trimmed text up to the first `*/`, `*/`.

  `matches(of:)` is modelled as leftmost, non-overlapping matching that resumes
  where each match ends. `init(parsing:)` keeps each match's record, in order.
- **The pattern as spans** is the module `StatusPattern`. It states declaratively
  which spans the pattern matches. Its lemmas show the scanner finds exactly
  those matches (sound and complete).
- **Text in the documented form** is the module `HeaderForm`. It writes records
  as unindented lines in the form of the example in `StatusSequence.swift`
  (lines 68-69): the name, spaces, `= `, the code, `,`, then spaces and the
  comment. It proves that the extractor reads a text made of such lines back
  to the records. SecBase.h itself indents its enumerators and mixes them with
  other lines; see "Left out".
- **The renderer** (`Template.swift`) is the module `Template`. The six sections
  are built record by record and joined. `render()` puts them, and the date,
  into the fixed text of lines 99 to 196 of `Template.swift`. The date comes
  from the clock and the locale in the source; here it is a parameter.
- **What the generated code does** is the module `GeneratedSwitch`. It reads the
  rendered `initStatus` and `rawValue` sections back into switch arms, and
  evaluates `init(status:)` and `rawValue` as Swift does: the first matching arm
  wins, and `default` or the `unknown` arm takes everything else.
- **Helper modules.** `Characters` holds the ASCII character classes the pattern
  uses. `Decimal` holds `OSStatus(_:)` (Swift's `Int32.init?(_:)`) and the
  decimal text `"\(code)"`. `Joined` holds `joined(separator:)`, its inverse
  `split`, and text containment.

The template is a raw string (`#"""`). So the `\(rawValue)` in the `unknown`
arms of `description`, `debugDescription` and `localizedDescription` is literal
text, while `\#(…)` interpolates. The model keeps the `??????` of line 105 as
the characters written in the source file.

## Model

| member | source | states |
|---|---|---|
| Decimal.ParseOSStatus | Sources/osstatus-generator/StatusSequence.swift:46-48 | `OSStatus($0)` accepts only an optional `+` or `-` followed by one or more digits; its value is the digits' value, negated after `-`, when that fits in 32 bits; a negative value only comes from a leading `-` |
| Decimal.DecimalText | Sources/osstatus-generator/Template.swift:57 | `"\(code)"` is a signed decimal literal, made of digits and `-`, with `-` exactly for negative codes |
| Decimal.DecimalRoundTrip | Sources/osstatus-generator/StatusSequence.swift:43-48 | every code the renderer writes is read back by `OSStatus(_:)` to the same code |
| Decimal.DecimalInjective | Sources/osstatus-generator/Template.swift:64 | two codes are written the same exactly when they are equal |
| Decimal.ParseMinusFour | Sources/osstatus-generator/StatusSequence.swift:44-45 | the optional `-` keeps its sign: `-4` is -4 |
| Decimal.ParseLimits | Sources/osstatus-generator/StatusSequence.swift:46-48 | the largest and smallest 32-bit values are accepted |
| Decimal.ParseOverflow | Sources/osstatus-generator/StatusSequence.swift:43-48 | one past either end of the 32-bit range is rejected, so `TryCapture` fails |
| StatusSequence.SkipWhile | Sources/osstatus-generator/StatusSequence.swift:33 | the greedy `ZeroOrMore` takes the longest run of the class, which no class character follows |
| StatusSequence.FindClose | Sources/osstatus-generator/StatusSequence.swift:81-84 | finds the first `*/` from a position, and none lies before it |
| StatusSequence.TrimTrailing | Sources/osstatus-generator/StatusSequence.swift:89 | the whitespace before `*/` is left out of the capture, and the capture does not end in whitespace |
| StatusSequence.DescriptionMatch | Sources/osstatus-generator/StatusSequence.swift:74-91 | a match captures a non-empty description without `*/`, neither starting nor ending with whitespace, and ends after the start |
| StatusSequence.NameMatch | Sources/osstatus-generator/StatusSequence.swift:31-38 | a match starts at a line start and captures one or more word characters |
| StatusSequence.CodeMatch | Sources/osstatus-generator/StatusSequence.swift:41-50 | a match consumes at least one character and stays in the text |
| StatusSequence.HeadMatch | Sources/osstatus-generator/StatusSequence.swift:94-98 | `nameMatch "=" codeMatch ","` starts at a line start and captures a name |
| StatusSequence.OptionalDescription | Sources/osstatus-generator/StatusSequence.swift:99-101 | `Optionally` keeps the name and the code, and adds a well-formed description or none |
| StatusSequence.StatusMatch | Sources/osstatus-generator/StatusSequence.swift:94-102 | a match starts at a line start, is non-empty, and yields a record with a word name and a trimmed description |
| StatusSequence.StatusMatchAdvances | Sources/osstatus-generator/StatusSequence.swift:94-102 | every match of `statusMatch` ends after it starts, so scanning advances |
| StatusSequence.Matches | Sources/osstatus-generator/StatusSequence.swift:15 | `matches(of:)` returns real matches in increasing order, without overlaps |
| StatusSequence.MatchesCover | Sources/osstatus-generator/StatusSequence.swift:15 | no match is skipped: wherever the pattern matches, a returned match covers that position |
| StatusSequence.StatusMatches | Sources/osstatus-generator/StatusSequence.swift:15 | the matches of `statusMatch` in the whole text are real matches, ordered and disjoint |
| StatusSequence.Parse | Sources/osstatus-generator/StatusSequence.swift:14-22 | every record `init(parsing:)` yields has a name of word characters and, when present, a description that is trimmed and free of `*/` |
| StatusPattern.SkipWhileUnique | Sources/osstatus-generator/StatusSequence.swift:37 | a maximal whitespace or word run is the one the scanner takes |
| StatusPattern.FindCloseUnique | Sources/osstatus-generator/StatusSequence.swift:90 | the first `*/` is the one the scanner finds |
| StatusPattern.TrimTrailingUnique | Sources/osstatus-generator/StatusSequence.swift:89 | the trailing whitespace run before `*/` is the one the scanner trims |
| StatusPattern.CloseAheadInside | Sources/osstatus-generator/StatusSequence.swift:81-84 | the negative lookahead fails exactly from the start of the trailing whitespace onwards |
| StatusPattern.DescriptionMatchSound | Sources/osstatus-generator/StatusSequence.swift:74-91 | whatever the scanner returns for `descriptionMatch` is a match of the pattern |
| StatusPattern.DescriptionMatchComplete | Sources/osstatus-generator/StatusSequence.swift:75-90 | every match of the pattern is found by the scanner, with the same capture and end |
| StatusPattern.DescriptionMatchIsCommentAt | Sources/osstatus-generator/StatusSequence.swift:58-91 | the scanner returns a capture and end exactly when the pattern matches with them |
| StatusPattern.DescriptionMatchEverywhere | Sources/osstatus-generator/StatusSequence.swift:74-91 | the same equivalence, for all captures and ends at once |
| StatusPattern.NameMatchSound | Sources/osstatus-generator/StatusSequence.swift:31-38 | the scanner's `nameMatch` is a match of the pattern |
| StatusPattern.NameMatchComplete | Sources/osstatus-generator/StatusSequence.swift:31-38 | a match of `nameMatch` followed by `=` is the one the scanner finds |
| StatusPattern.CodeMatchSound | Sources/osstatus-generator/StatusSequence.swift:41-50 | the scanner's `codeMatch` is a match of the pattern whose literal converts to the code |
| StatusPattern.CodeMatchComplete | Sources/osstatus-generator/StatusSequence.swift:41-50 | a match of `codeMatch` followed by `,` is the one the scanner finds |
| StatusPattern.HeadMatchSound | Sources/osstatus-generator/StatusSequence.swift:95-98 | the scanner's required part is a match of `nameMatch "=" codeMatch ","` |
| StatusPattern.HeadMatchComplete | Sources/osstatus-generator/StatusSequence.swift:95-98 | every match of the required part is found by the scanner |
| StatusPattern.OptionalDescriptionIsOptionalCommentAt | Sources/osstatus-generator/StatusSequence.swift:99-101 | `Optionally { descriptionMatch }` takes the comment exactly when it matches |
| StatusPattern.StatusMatchSound | Sources/osstatus-generator/StatusSequence.swift:94-102 | the scanner's `statusMatch` is a match of the whole pattern |
| StatusPattern.StatusMatchComplete | Sources/osstatus-generator/StatusSequence.swift:94-102 | every match of the whole pattern at a position is found by the scanner |
| StatusPattern.StatusMatchIsRecordAt | Sources/osstatus-generator/StatusSequence.swift:94-102 | the scanner returns a match exactly when the pattern matches with it |
| HeaderForm.LineMatch | Sources/osstatus-generator/StatusSequence.swift:94-102 | an unindented line in the documented example's form (StatusSequence.swift:68-69) matches `statusMatch` to its end, and yields the record it was written from |
| HeaderForm.MatchesHeader | Sources/osstatus-generator/StatusSequence.swift:15 | over a text made only of unindented lines in the documented example's form, `matches(of:)` finds one match per line, each yielding its line's record |
| HeaderForm.ParseHeader | Sources/osstatus-generator/StatusSequence.swift:14-22 | `init(parsing:)` reads a text made only of unindented lines in the documented example's form back to the records they were written from |
| HeaderForm.DocExample | Sources/osstatus-generator/StatusSequence.swift:65-73 | the two documented lines give `errSecSuccess`, 0, `No error.` and `errSecUnimplemented`, -4, `Function or operation not implemented.` |
| Template.Cases | Sources/osstatus-generator/Template.swift:48-52 | the cases section is empty exactly when there are no records |
| Template.InitStatus | Sources/osstatus-generator/Template.swift:55-59 | the `init(status:)` section is empty exactly when there are no records |
| Template.RawValue | Sources/osstatus-generator/Template.swift:62-66 | the `rawValue` section is empty exactly when there are no records |
| Template.DescriptionCase | Sources/osstatus-generator/Template.swift:70-74 | the `description` section is empty exactly when there are no records |
| Template.DebugDescription | Sources/osstatus-generator/Template.swift:78-82 | the `debugDescription` section is empty exactly when there are no records |
| Template.LocalizedDescription | Sources/osstatus-generator/Template.swift:86-90 | the `localizedDescription` section is empty exactly when there are no records |
| Template.RenderAroundDate | Sources/osstatus-generator/Template.swift:97-198 | `render()` gives four comment lines, the date line, then the enum and its four extensions, joined by line breaks; nothing after the date line involves the date |
| Template.DateIsolated | Sources/osstatus-generator/Template.swift:103 | the date sits at offset 67, and the text before and after it is the same for any date |
| Template.DateInjective | Sources/osstatus-generator/Template.swift:103 | two dates that render the same text are equal |
| Template.SectionsRendered | Sources/osstatus-generator/Template.swift:97-196 | all six sections appear in the rendered text |
| Template.RecordRendered | Sources/osstatus-generator/Template.swift:48-90 | every record's case and its arms in all five switches appear in the rendered text |
| Template.FallbackShown | Sources/osstatus-generator/Template.swift:50 | a record without a description is documented with the fallback description |
| Template.FallbackUnused | Sources/osstatus-generator/Template.swift:17-19 | when every record has a description, the fallback changes nothing in the rendered text |
| Template.NoRecordsRendered | Sources/osstatus-generator/Template.swift:48-90 | with no records, the rendered text does not depend on the fallback |
| Template.DebugIsLocalized | Sources/osstatus-generator/Template.swift:78-90 | `debugDescription` and `localizedDescription` are separate code but render the same arms |
| Template.SectionsConcat | Sources/osstatus-generator/Template.swift:48-74 | rendering two runs of records gives, in each of the six sections, the first run's section, the separator, then the second's |
| Template.UnknownCaseRendered | Sources/osstatus-generator/Template.swift:111-123 | whatever the records, the file has the enum's documented cases, its `unknown` case and the whole of `init(status:)`: `switch status {`, the `initStatus` arms, then the `default` arm that maps every other code to `unknown` |
| Template.UnknownRawValueRendered | Sources/osstatus-generator/Template.swift:142-148 | whatever the records, the file has the whole of `rawValue`: `switch self {`, the `rawValue` arms, then the `unknown` arm returning the carried code |
| Template.UnknownDescriptionRendered | Sources/osstatus-generator/Template.swift:157-163 | whatever the records, the file has the whole of `description`: `switch self {`, the `descriptionCase` arms, then the `unknown` arm |
| Template.UnknownDebugRendered | Sources/osstatus-generator/Template.swift:165-180 | whatever the records, the `CustomDebugStringConvertible` extension is in the file, and so is the whole of `debugDescription`: `switch self {`, the `debugDescription` arms, then the `unknown` arm |
| Template.UnknownLocalizedRendered | Sources/osstatus-generator/Template.swift:181-196 | whatever the records, the `Error` extension is in the file, with the `unknown` arm in it, and so is the whole of `localizedDescription`: `switch self {`, the `localizedDescription` arms, then the `unknown` arm |
| Template.RecordInSwitches | Sources/osstatus-generator/Template.swift:54-90 | every record's arm is inside the switch of its property, for each of `init(status:)`, `rawValue`, `description`, `debugDescription` and `localizedDescription` |
| GeneratedSwitch.ReadArms | Sources/osstatus-generator/Template.swift:55-59 | reading lines as arms consumes two lines per arm |
| GeneratedSwitch.ReadArmLines | Sources/osstatus-generator/Template.swift:55-66 | reading the lines of any arms gives those arms back |
| GeneratedSwitch.SectionReadsBack | Sources/osstatus-generator/Template.swift:55-66 | a section of arms joined by line breaks reads back to its arms when no piece holds a line break |
| GeneratedSwitch.InitStatusReadsBack | Sources/osstatus-generator/Template.swift:55-59 | the rendered `init(status:)` section reads back to one arm per record, code then name, in order |
| GeneratedSwitch.RawValueReadsBack | Sources/osstatus-generator/Template.swift:62-66 | the rendered `rawValue` section reads back to one arm per record, name then code, in order |
| GeneratedSwitch.InitFirstWins | Sources/osstatus-generator/Template.swift:117-122 | the generated `init(status:)` selects the first record with the code |
| GeneratedSwitch.InitUnknown | Sources/osstatus-generator/Template.swift:120-121 | the generated `init(status:)` gives `unknown(status)` exactly when no record has the code |
| GeneratedSwitch.RawValueFirstWins | Sources/osstatus-generator/Template.swift:142-147 | the generated `rawValue` of a named case is the code of the first record with that name |
| GeneratedSwitch.RawValueOfInit | Sources/osstatus-generator/Template.swift:135-146 | with distinct names, `rawValue` gives back every code that `init(status:)` was given, known or unknown |
| GeneratedSwitch.InitOfRawValue | Sources/osstatus-generator/Template.swift:139-147 | with distinct names and codes, `init(status:)` of a case's `rawValue` is that case |
| GeneratedSwitch.GeneratedInitMeaning | Sources/osstatus-generator/Template.swift:117-122 | read from the rendered `initStatus` section, which `UnknownCaseRendered` places in the switch of `init(status:)` before its `default` arm, `init(status:)` gives the first record with the code, and `unknown` exactly when none has it |
| GeneratedSwitch.GeneratedRoundTrip | Sources/osstatus-generator/Template.swift:117-147 | read from the rendered `initStatus` and `rawValue` sections, which `UnknownCaseRendered` and `UnknownRawValueRendered` place in their switches, `rawValue` undoes `init(status:)` when names are distinct |
| GeneratedSwitch.ExtractedSingleLine | Sources/osstatus-generator/StatusSequence.swift:34-36 | extracted names are word characters, so no name breaks a line of the generated switch |
| GeneratedSwitch.ExtractedRoundTrip | Sources/osstatus-generator/Template.swift:27-35 | for the records extracted from any text, with any fallback, the generated `rawValue` undoes the generated `init(status:)` when names are distinct |
| GeneratedSwitch.DocExampleSwitch | Sources/osstatus-generator/StatusSequence.swift:68-69 | for the two documented records, `-4` selects `errSecUnimplemented`, 1 is `unknown`, and `errSecSuccess` has raw value 0 |

## Left out

- `makeIterator()` (`StatusSequence.swift`, lines 24-26) only hands out the stored records, which `Parse` returns as a sequence.
- The `date` property formats the current date with the locale's short style. The clock and the locale are outside the model, so the date is a parameter of `Render`.
- The command line (`osstatus_generator.swift`) and `URL+ExpressibleByArgument.swift` are not part of this model. They read the file, print the result, and parse arguments.
- Characters are ASCII `char`s. Swift's Unicode classes, grapheme clusters and the `"\r\n"` cluster are not modelled. `\s`, `.word` and line starts use the ASCII members of Swift's classes.
- The generated file is not compiled. `GeneratedSwitch` reads back and evaluates only the `init(status:)` and `rawValue` switches. The three description switches are covered by placement lemmas: `UnknownDescriptionRendered`, `UnknownDebugRendered` and `UnknownLocalizedRendered` place each switch, with its `unknown` arm, in the rendered text, and `RecordInSwitches` places every record's arm inside each switch.
- HeaderForm.LineMatch: proved for unindented lines with exactly one space after `=` and none before `,`, the form of the documented example. The pattern also accepts indentation and any whitespace around `=` and `,`, as SecBase.h's enumerators use, but the model proves nothing about such lines.
- HeaderForm.MatchesHeader: proved for texts made only of such lines, joined by line breaks. SecBase.h puts its enumerators inside enum declarations between comments and other lines; the model does not state what `matches(of:)` finds in such surroundings.
- HeaderForm.ParseHeader: the round trip `Parse(Header(lines)) == Statuses(lines)` has the same two restrictions: unindented lines in the documented form, and nothing else in the text.
- Descriptions are inserted into the generated string literals without escaping, as in the source. A description containing `"` or `\` would give invalid or different Swift; the model keeps this behaviour.
- `Template.init` takes any `Sequence` and wraps it in `AnySequence`. The model takes the records as a finite `seq` and uses the default fallback `"No comment provided in SecBase.h"` as the datatype's default.
