# Recurrence-rule parameters

A recurrence rule of the calendar application (`Rule` in
`schedule/models/rules.py`) stores its extra recurrence options as free text in
its `params` field. `Rule.get_params` decodes this text into the keyword options
of the recurrence engine (`dateutil.rrule`). The text is a `;`-separated list of
`field:value` entries. The value is a `,`-separated list of tokens. Decoding
works entry by entry:

- an entry that does not split into exactly two parts on `:` is dropped;
- the field name is lower-cased, and a name that is not on the allow-list
  `rule_fields` is dropped;
- `until` hands its whole value to a date parser;
- `byday` and `byweekday` turn every token into a weekday constant and always
  store the list under `byweekday`;
- every other allowed field turns every token into an integer, so even a single
  token gives a one-element list;
- the key/value pairs are collected in a list and turned into a dictionary, so
  a later entry for a key overwrites an earlier one;
- a token that cannot be converted (a date the parser rejects, an unknown
  weekday name, a token that is not an integer) makes the whole call fail.

The project has four files:

- `wrappers.dfy` holds `Option` and `Result`.
- `text.dfy` (module `Text`) models the Python built-ins the decoder calls:
  - `str.split(sep)` with one separator character is `Split`, with its inverse
    `Join`;
  - `str.lower()` is `Lower`;
  - `int()` is `ParseInt`; it reads back every spelling `ShowInt` writes, and
    the value of every other spelling (leading zeros, a `+` or `-` sign) is
    fixed by `ParseDigits`, `ParseLeadingZero`, `ParsePlus` and `ParseMinus`.
- `rules.dfy` (module `Rules`) has the data model and the decoder:
  - the data model is `Frequency`, `Weekday`, `Value`, `ParamError` and the
    allow-list `RuleFields`;
  - the specification functions are `ConvertField`, `DecodeEntry`,
    `DecodeEntries`, `ToDict` and `Decode`;
  - the class `Rule` has its stored fields and the loop-based method
    `GetParams`, proved equal to `Decode`.
- `rules_lemmas.dfy` (module `RuleLemmas`) proves what the decoder promises
  about whole parameter texts.

The date parser (`dateutil.parser.parse`) is a parameter
`parseDate: string -> Option<DateTime>`. `None` stands for the exception it
raises, and the decoder reports that as `InvalidDateFormat`. The two other
exceptions of the source become `UnknownWeekdaySymbol` and `InvalidIntegerToken`.
Each of the three errors carries the text that could not be converted.

The doc-comment of `get_params` (`schedule/models/rules.py:58-60`) shows
`"count:1;bysecond:1;byminute:1,2,4,5"` decoding to
`{'count': 1, 'byminute': [1, 2, 4, 5], 'bysecond': 1}`. The code does
otherwise, and the model follows the code:

- `bysecond` is not in `rule_fields`, so it is dropped;
- line 79 always builds a list, so `count` is `[1]`.

`RuleLemmas.DocumentationText` proves what the code actually gives for that
text. `rule_fields` lists `byweekno` twice. The model keeps the repeat, and it
has no effect on membership.

## Model

| member | source | states |
|---|---|---|
| `Rules.FrequencyFromCode` | schedule/models/rules.py:5-11 | a frequency found for a code is the one stored under exactly that code |
| `RuleLemmas.FrequencyCodeRoundTrip` | schedule/models/rules.py:5-11 | each of the seven frequencies is found again from its stored code |
| `Rules.WeekdayFromSymbol` | schedule/models/rules.py:77 | a weekday constant found for a token is the one with exactly that name |
| `RuleLemmas.WeekdaySymbolRoundTrip` | schedule/models/rules.py:77 | each of the seven weekday constants is found again from its name |
| `Text.Split` | schedule/models/rules.py:64 | splitting gives at least one piece, and no piece contains the separator |
| `Text.JoinOfSplit` | schedule/models/rules.py:64 | joining the pieces of a split with the separator gives the text back |
| `Text.JoinAvoids` | schedule/models/rules.py:64 | a character that is neither the separator nor in any piece is not in the joined text |
| `Text.SplitOfJoin` | schedule/models/rules.py:64 | splitting a join of pieces that do not contain the separator gives back exactly those pieces |
| `Text.SplitAppend` | schedule/models/rules.py:64 | splitting `a + sep + b` gives the pieces of `a` followed by the pieces of `b` |
| `Text.SplitWithoutSeparator` | schedule/models/rules.py:67 | text without the separator splits into one piece, itself |
| `Text.Lower` | schedule/models/rules.py:70 | lower-casing keeps the length, maps each character on its own and leaves no capital |
| `Text.LowerIdempotent` | schedule/models/rules.py:70 | lower-casing twice is lower-casing once |
| `Text.LowerOfLowercase` | schedule/models/rules.py:70 | text without capitals is its own lower-case form |
| `Text.ParseInt` | schedule/models/rules.py:79 | `int()` succeeds exactly on an optional sign followed by one or more digits; a negative result comes from a leading `-` |
| `Text.ShowNatDigits` | schedule/models/rules.py:79 | the decimal spelling of a natural number is a non-empty run of digits whose value is that number |
| `Text.ShowIntAvoids` | schedule/models/rules.py:79 | the spelling of an integer contains only digits and a minus sign |
| `Text.ParseDigits` | schedule/models/rules.py:79 | `int()` reads a run of digits as its decimal value |
| `Text.LeadingZero` | schedule/models/rules.py:79 | a leading zero does not change the value of a digit string |
| `Text.ParseLeadingZero` | schedule/models/rules.py:79 | `int()` reads `0` followed by digits as it reads the digits alone |
| `Text.ParsePlus` | schedule/models/rules.py:79 | `int()` reads `+` followed by digits as it reads the digits alone |
| `Text.ParseMinus` | schedule/models/rules.py:79 | `int()` reads `-` followed by digits as the negated value of the digits |
| `Text.ParseShowInt` | schedule/models/rules.py:79 | `int()` reads back every integer from its decimal spelling |
| `Rules.ParseWeekdays` | schedule/models/rules.py:77 | the conversion succeeds exactly when every token names a weekday; it then gives one constant per token, in token order; otherwise it fails with the first unknown token, every earlier token being valid |
| `Rules.ParseInts` | schedule/models/rules.py:79 | the conversion succeeds exactly when every token is an integer literal; it then gives one integer per token, in token order; otherwise it fails with the first bad token, every earlier token being valid |
| `Rules.ConvertField` | schedule/models/rules.py:70-79 | a field not on the allow-list is dropped; a pair produced has an allowed key other than `byday` and a value of the kind its key takes |
| `Rules.DecodeEntry` | schedule/models/rules.py:67-79 | an entry's pair, when it produces one, has an allowed key other than `byday` and a value of the kind that key takes |
| `Rules.DecodeEntries` | schedule/models/rules.py:64-81 | every collected pair has an allowed key other than `byday` and a well-typed value; there are at most as many pairs as entries |
| `Rules.ToDict` | schedule/models/rules.py:82 | the dictionary has exactly the keys of the pairs; each key is bound to the value of its last pair |
| `Rules.LastPairWins` | schedule/models/rules.py:82 | storing one more pair over the dictionary of the earlier pairs keeps both guarantees of `ToDict` |
| `Rules.Decode` | schedule/models/rules.py:56-82 | no text gives the empty dictionary; every key of a result is on the allow-list, is never `byday`, and holds a value of its kind |
| `Rules.Rule.constructor` | schedule/models/rules.py:46-49 | a rule holds the name, description, frequency and params text it was built with |
| `Rules.Rule.GetParams` | schedule/models/rules.py:56-82 | the loop over the entries returns exactly `Decode` of the stored text, and it changes no field |
| `Rules.ConvertEntry` | schedule/models/rules.py:67-79 | the loop body for one entry drops it, converts it, or reports its error, exactly as `DecodeEntry` does |
| `RuleLemmas.DecodeEntriesAppend` | schedule/models/rules.py:66-81 | decoding two runs of entries back to back gives the first error or the pairs of the first run before those of the second |
| `RuleLemmas.DroppedEntryHasNoEffect` | schedule/models/rules.py:66-81 | an entry that contributes nothing can be taken out of the entry list without changing the result |
| `RuleLemmas.DroppedEntryInText` | schedule/models/rules.py:64-82 | an entry that contributes nothing can be cut out of the middle of a text |
| `RuleLemmas.DroppedEntryAtEnd` | schedule/models/rules.py:64-82 | an entry that contributes nothing can be cut off the end of a text |
| `RuleLemmas.DroppedEntryAtStart` | schedule/models/rules.py:64-82 | an entry that contributes nothing can be cut off the start of a text |
| `RuleLemmas.MalformedEntryDropped` | schedule/models/rules.py:67-68 | an entry that does not split into exactly two parts on `:` contributes nothing |
| `RuleLemmas.MalformedEntryIgnored` | schedule/models/rules.py:67-68 | such an entry changes nothing, in the middle of a text, at its end or at its start |
| `RuleLemmas.TrailingSeparatorIgnored` | schedule/models/rules.py:64-68 | a trailing `;` changes nothing |
| `RuleLemmas.EntryParts` | schedule/models/rules.py:67-68 | `field:value` with no `:` in either part splits into exactly its field and its value |
| `RuleLemmas.EntryUsesLowerCasedField` | schedule/models/rules.py:70-79 | a well-formed entry is converted under its lower-cased field name |
| `RuleLemmas.FieldNameCaseInsensitive` | schedule/models/rules.py:70-79 | two field names with the same lower-case form decode the same entry alike |
| `RuleLemmas.EntryHasNoSemicolon` | schedule/models/rules.py:64 | an entry built from a field and a value without `;` contains no `;` |
| `RuleLemmas.UnknownFieldDropped` | schedule/models/rules.py:70-71 | an entry whose lower-cased field is not on the allow-list contributes nothing |
| `RuleLemmas.UnknownFieldIgnored` | schedule/models/rules.py:70-71 | such an entry changes nothing, in the middle of a text, at its end or at its start |
| `RuleLemmas.UntilField` | schedule/models/rules.py:73-75 | `until` stores what the date parser gives for the whole value, and fails with that value when the parser rejects it |
| `RuleLemmas.WeekdayField` | schedule/models/rules.py:76-77 | `byday` and `byweekday` succeed exactly when every token names a weekday; the constants are stored in token order under `byweekday`; otherwise the call fails with the first unknown token |
| `RuleLemmas.IntegerField` | schedule/models/rules.py:78-79 | any other allowed field except `until` succeeds exactly when every token is an integer; the integers are stored in token order under the field's name; otherwise the call fails with the first bad token |
| `RuleLemmas.SingleIntegerGivesList` | schedule/models/rules.py:78-79 | a single integer token still gives a one-element list |
| `RuleLemmas.ToDictAppend` | schedule/models/rules.py:81-82 | one more pair at the end of the list overwrites its key in the dictionary |
| `RuleLemmas.LaterEntryOverrides` | schedule/models/rules.py:65-82 | a decoding entry appended to a text overwrites whatever the text stored under its key |
| `RuleLemmas.FailingEntryAborts` | schedule/models/rules.py:66-82 | an entry that fails makes the whole text fail with its error, whatever follows it |
| `RuleLemmas.FailingEntryAtStart` | schedule/models/rules.py:66-82 | a first entry that fails makes the whole text fail with its error, whatever follows it |
| `RuleLemmas.SingleEntryText` | schedule/models/rules.py:64-82 | a text of one decoding entry gives a dictionary of just that pair |
| `RuleLemmas.IntegerListRoundTrip` | schedule/models/rules.py:78-79 | a comma-separated spelling of a non-empty list of integers converts back to that list under the field's name |
| `RuleLemmas.WeekdayListRoundTrip` | schedule/models/rules.py:76-77 | a comma-separated spelling of a non-empty list of weekdays converts back to that list under `byweekday` |
| `RuleLemmas.FieldNamePlain` | schedule/models/rules.py:13-15 | every allowed field name is lower-case and contains neither `:` nor `;` |
| `RuleLemmas.IntTextPlain` | schedule/models/rules.py:79 | the spelling of a list of integers contains neither `:` nor `;` |
| `RuleLemmas.WeekdayTextPlain` | schedule/models/rules.py:77 | the spelling of a list of weekdays contains neither `:` nor `;` |
| `RuleLemmas.IntegerEntryRoundTrip` | schedule/models/rules.py:67-79 | the entry `name:` followed by a list of integers decodes to that field and list |
| `RuleLemmas.WeekdayEntryRoundTrip` | schedule/models/rules.py:67-77 | the entry `byday:` or `byweekday:` followed by a list of weekdays decodes to that list under `byweekday` |
| `RuleLemmas.ByDayThenByWeekday` | schedule/models/rules.py:76-82 | `byday` followed by `byweekday` leaves only the later list, under `byweekday` |
| `RuleLemmas.BySecondNotAllowed` | schedule/models/rules.py:13-15 | `bysecond` is not on the allow-list |
| `RuleLemmas.DocumentationExample` | schedule/models/rules.py:56-82 | for any count, any `bysecond` value and any list of minutes, the documented text shape gives `count` as a one-element list and `byminute` as its list, and no `bysecond` |
| `RuleLemmas.DocumentationText` | schedule/models/rules.py:58-60 | the doc-comment's own text decodes to `count: [1]` and `byminute: [1, 2, 4, 5]`, not to what the doc-comment shows |
| `RuleLemmas.NonIntegerEntry` | schedule/models/rules.py:78-79 | an integer field with a token that is not an integer, anywhere in its list, fails with the first such token |
| `RuleLemmas.NonIntegerTokenFails` | schedule/models/rules.py:66-82 | after a text that decodes, an integer entry with a bad token anywhere in its list fails the whole text with the first bad token, whatever follows; there is no partial result |
| `RuleLemmas.NonIntegerTokenFailsAtStart` | schedule/models/rules.py:66-82 | an integer entry with a bad token anywhere in its list, at the start of a text, fails the whole text with the first bad token, whatever follows |
| `RuleLemmas.GetParamsTwice` | schedule/models/rules.py:56-82 | two calls of `get_params` on the same rule give equal results, and both equal `Decode` of its text |

## Left out

- The Django model machinery: the field declarations with their widths, `Meta`, `__unicode__` and the `ugettext` labels (schedule/models/rules.py:46-54, 84-86). The model keeps only the four stored values as fields of `Rule`, and `Frequency` keeps only the codes of `freqs`, not the translated labels.
- The schema migration `schedule/migrations/0002_auto_20180215_1458.py` has no logic. It is not part of this model.
- `dateutil.parser.parse` is a foreign library, so it is the parameter `parseDate`. Its formats, its time-zone handling and its default-filling are not modelled. Only "a date or an exception" is.
- `getattr(dateutil.rrule, p)` looks up any attribute of a module. The model narrows it to the seven names `MO` to `SU`, and any other token fails. In the source, other attribute names of the module (such as `DAILY`) would be stored without error.
- `Text.ParseInt` models `int()` on an optional sign and ASCII digits only. It does not model `int()` accepting surrounding whitespace, underscores between digits or non-ASCII decimal digits; the model rejects those.
- `Text.Lower` maps the ASCII capitals only. Python's `str.lower()` also maps non-ASCII capitals (for example the Kelvin sign to `k`), so a non-ASCII field name that lower-cases to an allowed name is dropped by the model.
- RuleLemmas.GetParamsTwice: the equality of two calls holds because `parseDate` is a fixed function. `dateutil.parser.parse` called without a default fills missing date parts from the current date, so in the source two calls on a text such as `until:June 1` made on either side of New Year give different years. The model does not capture that dependence on the clock.
- The exception types are not modelled. The model has one error value per cause, and the exception's message is not kept.
- The recurrence engine that consumes the dictionary is an external library and is not called by this code.
