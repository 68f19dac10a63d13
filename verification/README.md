# cron-builder in Dafny

A model of `cron-builder.js`, a small JavaScript library that assembles cron
expressions of six space-separated fields: minute, hour, dayOfTheMonth,
monthOfTheYear, dayOfTheWeek and year. The model has two parts.

- **The validator**: `valueValidator` and its two wrappers.
  `expressionStringValidator` handles the tokens of a constructor string and
  `expressionObjectValidator` handles the object given to `setAll`. All three
  check values against a fixed bounds table:

  | field | min | max |
  |---|---|---|
  | minute | 0 | 59 |
  | hour | 0 | 23 |
  | dayOfTheMonth | 1 | 31 |
  | monthOfTheYear | 1 | 12 |
  | dayOfTheWeek | 1 | 7 |
  | year | 1900 | 3000 |

- **The builder**: the `CronBuilder` constructor and its methods `build`,
  `addValue`, `removeValue`, `get`, `set`, `getAll` and `setAll`. The
  builder's state, `this.expression`, maps each field to a list of value
  strings.

The state is modelled as an immutable value, `map<Field, seq<string>>`.
Each method becomes a function that takes the current expression. It
returns the expression afterwards together with what the JavaScript method
returns.

Files:

- `outcomes.dfy`: `Option`, `Result`, and the kinds of error the library
  reports.
- `strings.dfy`: `join` and `split` with a one-character separator,
  `parseInt`, and the string-to-number coercion used by `<` and `>`.
- `fields.dfy`: the six fields, their names, their fixed order and their
  bounds.
- `validator.dfy`: the three validators.
- `validator_facts.dfy`: what the validator accepts, stated through decimal
  numbers and range sides instead of through its branches.
- `builder.dfy`: the builder's state and its operations.
- `builder_facts.dfy`: properties that relate the operations to one another.
  - Construction and build round trip.
  - Adding a value twice equals adding it once.
  - Remove undoes add.
  - The getAll/setAll round trip.
  - Each mutator keeps fields non-empty.

Numbers are modelled only over the value alphabet `0-9 * - ,`. Over that
alphabet:

- `parseInt` reads an optional leading `-` followed by the maximal run of
  digits after it. It gives that run's value, negated when the sign is
  there, or NaN when no digit follows. `"-0"` gives 0.
- The coercion `Number(part)` is applied only to the sides of a range. A
  side never holds a `-`, because the range was split at `-`. It is defined
  when the side is all digits, and the empty side gives 0.
- NaN is `None`, and every comparison with it is false.

### Behaviour of the code worth knowing

Each of these follows from the code as written, and the model keeps it.

- **Field names.** They are `dayOfTheMonth`, `monthOfTheYear` and
  `dayOfTheWeek`. The year is always the sixth field; it is not optional.
- **Character check.** Only the first character is checked against
  `[0-9*-]`, so `"5x"` passes.
- **Ranges.**
  - The bottom is compared only with the minimum and the top only with the
    maximum.
  - A reversed range such as `"10-5"` is accepted.
  - Pieces after the second are never read.
  - A side that is not a number never fails.
  - When both sides fail, only one error is reported: the top-of-range
    error.
- **The wildcard with explicit values.** `addValue("*")` on an explicit
  field appends `"*"`, so the wildcard can sit beside explicit values.
- **`removeValue` on a wildcard field.** It returns an "already at the
  default" message and leaves the state unchanged.
- **Arrays in `set` and `setAll`.** Each array is validated as one value,
  namely the comma-joined text, not element by element. In practice only
  the first element's leading integer is bounded:
  - `set(["5","99"], "minute")` is accepted.
  - `addValue("40-5", "dayOfTheMonth")` is accepted, but `setAll` of the
    resulting object is refused.
  - `set(["-5"], "minute")` is refused as below the minimum, because
    `parseInt` reads the sign. The text `"-5"` is a range instead, and it
    fails at its empty bottom.
- **The constructor** splits on a single space, not on any whitespace. A
  double space yields an empty token, and the constructor throws.
- **`setAll` with missing fields.** It accepts an object that lacks some
  fields and installs it, so afterwards some fields can be absent.

## Model

| member | source | states |
|---|---|---|
| Fields.FieldOf | cron-builder.js:55-70 | a name designates a field exactly when it is one of the six keys of the bounds table, and then it designates the field of that name |
| Fields.Index | cron-builder.js:27-34 | each field has a position in the fixed order at which the order lists it |
| Strings.Split | cron-builder.js:114 | `split` yields at least one piece, and more than one exactly when the separator occurs |
| Strings.SplitSound | cron-builder.js:114 | the pieces of a split contain no separator, and joining them with the separator gives the original string |
| Strings.SplitJoin | cron-builder.js:141-151 | splitting the join of separator-free pieces gives the pieces back |
| Strings.AdjacentSeparators | cron-builder.js:114 | two adjacent separators produce an empty piece after the first piece |
| Strings.LeadingDigits | cron-builder.js:95 | the digits `parseInt` reads form a prefix of the text, contain only digits, and are followed by a non-digit or the end |
| Strings.ParseIntStopsAtNonDigit | cron-builder.js:95-102 | `parseInt` ignores everything after the first non-digit |
| Strings.ParseInt | cron-builder.js:95-102 | `parseInt` gives a number exactly when the text starts with a digit, or with `-` and then a digit; the number is at most 0 after a sign and at least 0 without one |
| Strings.ParseIntOfDecimal | cron-builder.js:95-102 | the decimal spelling of n, followed by anything that does not start with a digit, reads as n, and with a leading `-` reads as −n |
| Strings.ParseIntOfPrefix | cron-builder.js:95-102 | text appended after a non-empty prefix, starting with a non-digit, does not change what `parseInt` reads |
| Strings.ToNumber | cron-builder.js:84-89 | a range side compares as a number exactly when it is all digits; the empty side is 0, and a non-empty all-digit side has the same value `parseInt` gives |
| Validator.Validate | cron-builder.js:53-107 | an unknown name is reported first; for a known name a bad first character is reported next; `"*"` always passes; only validation errors are produced; the TypeError path needs an array holding `"-"` |
| Validator.FirstFailure | cron-builder.js:42-48 | a fail-fast loop passes exactly when every check passes, and otherwise returns the first failing check |
| Validator.ValidateTokens | cron-builder.js:24-51 | more than six tokens are refused; otherwise the tokens pass exactly when each passes for the field of its position, and a failure is that of the first failing token |
| Validator.ValidateEntries | cron-builder.js:1-22 | more than six keys are refused; otherwise the object passes exactly when each key/array pair passes, and a failure is that of the first failing pair in enumeration order |
| ValidatorFacts.NumberVerdict | cron-builder.js:93-102 | a decimal number passes exactly when it is within the field's bounds; above the maximum it is reported as above, below the minimum as below |
| ValidatorFacts.PlainText | cron-builder.js:93-102 | a non-range value other than `"*"` fails exactly when its leading integer exists and lies outside the bounds |
| ValidatorFacts.LeadingIntegerDecides | cron-builder.js:95-102 | a number followed by text that starts with a non-digit (`"5*"`, `"5,99"`) is judged as the number alone |
| ValidatorFacts.NoLeadingDigitPasses | cron-builder.js:93-102 | a non-range value starting with `*`, such as `"*5"`, passes for every field |
| ValidatorFacts.RangeVerdictOfPieces | cron-builder.js:80-92 | a range fails at the top when its top side is empty or a number above the maximum; otherwise it fails at the bottom when its bottom side is empty or a number below the minimum; otherwise it passes |
| ValidatorFacts.RangeVerdictOfNumbers | cron-builder.js:80-92 | `lo-hi` passes exactly when lo is at least the minimum and hi at most the maximum, whatever their order; the top error wins when both fail |
| ValidatorFacts.RangeReadsTwoPieces | cron-builder.js:82-92 | `a-b-c` is judged exactly as `a-b` |
| ValidatorFacts.NonNumericSideNeverFails | cron-builder.js:84-92 | a non-empty side that is not all digits never causes its side's error |
| ValidatorFacts.ListJudgedByFirstElement | cron-builder.js:72-102 | an array without a `"-"` element is judged exactly as its first element alone |
| ValidatorFacts.SingletonListAsText | cron-builder.js:72-102 | a one-element array without a dash is judged exactly as its element |
| ValidatorFacts.NegativeListVerdict | cron-builder.js:80-102 | the one-element array `["-n"]` is not a range; it fails below the minimum exactly when −n is below the minimum, and passes otherwise |
| ValidatorFacts.NegativeTextIsRange | cron-builder.js:80-92 | the text `"-n"` is read as a range with an empty bottom: it fails at the top when n is above the maximum and at the bottom otherwise |
| ValidatorFacts.EmptyListRejected | cron-builder.js:72-76 | the empty array fails the character test |
| ValidatorFacts.HourHundredRefused | cron-builder.js:99-102 | `"100"` is above the maximum for hour |
| ValidatorFacts.WeekdayZeroRefused | cron-builder.js:95-98 | `"0"` is below the minimum for dayOfTheWeek |
| ValidatorFacts.BeforeFirstYear | cron-builder.js:95-98 | every year written before 1900 is below the minimum |
| ValidatorFacts.Year1834Refused | cron-builder.js:95-98 | `"1834"` is below the minimum for year |
| ValidatorFacts.MinuteRangeOverTopRefused | cron-builder.js:89-92 | `"20-60"` fails at the top for minute |
| ValidatorFacts.HourRangeOverTopRefused | cron-builder.js:89-92 | `"6-24"` fails at the top for hour |
| ValidatorFacts.WeekdayRangeAccepted | cron-builder.js:84-92 | `"1-5"` passes for dayOfTheWeek |
| ValidatorFacts.ReversedMinuteRangeAccepted | cron-builder.js:84-92 | the reversed range `"10-5"` passes for minute |
| ValidatorFacts.ThirdPieceIgnored | cron-builder.js:82-92 | `"1-2-99"` passes for minute |
| Builder.New | cron-builder.js:109-139 | no argument gives every field the wildcard; otherwise construction succeeds exactly when the split tokens validate, throws that validation's error otherwise, and gives every field exactly one value |
| Builder.Build | cron-builder.js:141-151 | when every field is non-empty and no value holds a space or a comma, the built text splits at spaces into six pieces, and piece i splits at commas into the values of the i-th field in fixed order |
| Builder.Get | cron-builder.js:188-194 | an unknown or absent field is an error; a single-valued field reads back as its value |
| Builder.AddValue | cron-builder.js:154-168 | validation runs first and a failure changes nothing; no other field changes; a wildcard field becomes `[value]`; an explicit field keeps its values in order and gains the value at most once |
| Builder.Without | cron-builder.js:179-181 | the filter drops every occurrence of the value, keeps every other value as often as before, changes nothing when the value is absent, and keeps or drops a single value according to whether it is the one removed |
| Builder.RemoveValue | cron-builder.js:170-186 | an unknown or absent field is an error and a wildcard field is already at the default, with no change in either case; otherwise the field becomes the filter's result, other fields stay, and an emptied field resets to the wildcard |
| Builder.Set | cron-builder.js:196-212 | a non-array is refused; the whole array is validated as one value and a failure changes nothing; on success the field is replaced and the reply equals what `get` then returns |
| Builder.GetAll | cron-builder.js:214-216 | the object names each present field once, under its property name, with that field's list, and nothing else, so the expression it describes is the state itself; a complete state gives the six fields in build order |
| Builder.FromEntries | cron-builder.js:225 | the installed expression holds exactly the fields the object names, each with the object's array |
| Builder.SetAll | cron-builder.js:218-226 | more than six keys are refused; the verdict is the object validator's and a failure changes nothing; on success the expression is exactly the object, with nothing kept from before |
| BuilderFacts.DefaultFields | cron-builder.js:129-137 | every field of a fresh builder is `["*"]` |
| BuilderFacts.DefaultBuild | test/test.js:8-11 | construction without an argument succeeds with every field at the wildcard and builds `"* * * * * *"` |
| BuilderFacts.NewBuildRoundTrip | cron-builder.js:113-151 | k ≤ 6 valid, non-empty, space-free tokens joined by single spaces construct successfully and build back to themselves followed by 6−k wildcards |
| BuilderFacts.NewOfTokens | cron-builder.js:113-128 | such a string constructs an expression that gives each field the token at its position, or the wildcard when the token is missing |
| BuilderFacts.NewRejectsDoubleSpace | cron-builder.js:113-120 | any string containing two adjacent spaces makes construction throw |
| BuilderFacts.NewRejectsTooManyTokens | cron-builder.js:36-40 | more than six tokens make construction throw the field-count error |
| BuilderFacts.GetSplitsBack | cron-builder.js:188-194 | `get`'s text splits at commas back into the field's values |
| BuilderFacts.AddValueIdempotent | cron-builder.js:161-167 | adding the same value twice is the same as adding it once |
| BuilderFacts.AddThenGet | cron-builder.js:154-168 | on a wildcard field, `get` after adding v1 gives `v1`, and after adding v2 too gives `v1,v2` in insertion order |
| BuilderFacts.WildcardJoinsExplicitValues | cron-builder.js:161-167 | `"*"` added to an explicit field is appended beside the explicit values |
| BuilderFacts.AddValueKeepsDistinct | cron-builder.js:164-166 | a field without duplicates has none after addValue |
| BuilderFacts.RemoveUndoesAdd | cron-builder.js:154-186 | removing a value just added (to a wildcard field, or one that lacked it) restores the expression |
| BuilderFacts.WithoutConcat | cron-builder.js:179-181 | filtering a concatenation concatenates the filtered parts, so the survivors keep their order |
| BuilderFacts.RemoveValueKeepsOrder | cron-builder.js:170-186 | removing a value from a field holding a then b leaves the survivors of a ahead of the survivors of b, and changes nothing else |
| BuilderFacts.RemoveFromMinutes | cron-builder.js:170-194 | removing `"5"` from the minutes `5,1,5,2` leaves `1,2`, which `get` then returns |
| BuilderFacts.SetIgnoresLaterElements | cron-builder.js:203-211 | `set(["5","99"], "minute")` is accepted and installs both values |
| BuilderFacts.SetReadsMinusSign | cron-builder.js:196-212 | `set(["-5"], "minute")` and `set(["-0"], "dayOfTheMonth")` are refused as below the minimum and change nothing, while `set(["-0"], "minute")` is accepted |
| BuilderFacts.SetEmptyRejected | cron-builder.js:199-207 | `set([])` is refused with the character error and changes nothing |
| BuilderFacts.AddValueKeepsWellFormed | cron-builder.js:154-168 | addValue keeps every present field non-empty |
| BuilderFacts.RemoveValueKeepsWellFormed | cron-builder.js:179-185 | removeValue keeps every present field non-empty |
| BuilderFacts.SetKeepsWellFormed | cron-builder.js:203-209 | set keeps every present field non-empty |
| BuilderFacts.SetAllKeepsWellFormed | cron-builder.js:219-225 | setAll keeps every present field non-empty |
| BuilderFacts.GetAllSetAllRoundTrip | cron-builder.js:214-226 | setAll of getAll's object reinstalls the same expression, replacing whatever was there, whenever each present field's list passes as a whole array |
| BuilderFacts.ReversedRangeBreaksRoundTrip | cron-builder.js:80-102 | after `addValue("40-5", "dayOfTheMonth")` is accepted, setAll of getAll's object is refused as above the maximum, and nothing changes |

## Left out

- Aliasing: `getAll` returns the live object and `set` stores the caller's
  array. The model uses value semantics, so no mutation through a kept
  reference is represented.
- JavaScript number conversion beyond the alphabet `0-9 * - ,`: hexadecimal,
  exponents, decimals, a `+` sign and whitespace. Outside that alphabet,
  `ParseInt` and `ToNumber` are not faithful.
- Field names inherited from `Object.prototype` (`toString`, `constructor`)
  are treated as unknown names.
- `valueValidator` on an array holding the element `"-"`: the source calls
  `split` on an array and raises a TypeError. The model returns the error
  kind `ArraySplitThrows`.
- `build` after `setAll` installed an object without some fields raises a
  TypeError in the source. The model states it as the precondition
  `Complete`.
- `addValue` of a valid value on a field absent after such a `setAll` also
  raises a TypeError. The model states it as a precondition.
- Messages are modelled as error kinds, not as their text.
- The constructor's throw is modelled as an `Err` result.
- Objects given to `setAll` are modelled as a list of key/array pairs in
  enumeration order with distinct keys. Non-array property values are not
  modelled, and neither are keys that `Object.keys` and `for … in` count
  differently.
- `addValue` and `removeValue` with a non-string value are not modelled.
- Builder.GetAll: lists the properties in the fixed field order. After
  `setAll` installs an object whose keys come in another order, the source
  enumerates them in that order. This changes only which failure a later
  `setAll` of that object reports first.
- The commented-out usage script in `test/test.js` is used only for example
  values. The mocha/chai test runner and `module.exports` are not part of this model.
