# Backbone.Validation 0.1.1, modelled in Dafny

Backbone.Validation attaches declarative validation to a Backbone model seen through a view.
The model's `validation` object declares, per attribute, either a custom check function or a map
from rule names (`required`, `min`, `max`, `minLength`, `maxLength`, `pattern`) to rule parameters.
Such a map may carry a shared `msg`. `bind(view, options)` installs a `validate` hook on the
model. For every changed attribute the hook validates the new value and fires the view's `valid`
or `invalid` callback. It then writes the model's `isValid` flag and returns whether any changed
attribute was invalid. `unbind(view)` removes the hook.

The project has four modules:

- `Values` (`values.dfy`): the JavaScript values the library handles, and the built-ins it relies
  on. These are truthiness, `String(v)`, jQuery's `$.trim`, `parseInt(v, 10)`, and the number
  conversion a relational comparison applies to its right operand.
- `BuiltinRules` (`builtin_rules.dfy`): the shipped rules `required`, `min`, `max`, `minLength`
  and `maxLength`, and the registry `Backbone.Validation.validators`.
- `Resolver` (`resolver.dfy`): `getValidators`, which turns a declaration into a custom check or
  an ordered list of `{fn, val, msg}` entries, and `validateAttr`, which runs them. Both are
  methods with loops, proved against the left folds `RuleEntries` and `RunEntries`.
- `Orchestrator` (`orchestrator.dfy`): the class `Host` models the model object. Its fields are
  the declarations, the attributes, the `isValid` flag, the installed hook, and a ghost log of
  callback invocations. Its methods are `Bind`, `Unbind` and `Validate` (the hook). `Validate`
  is proved against `HookEffect`, a function that gives the callbacks, the return value and the
  flag written. The lemmas about `HookEffect` state the properties of the hook.

Behaviour kept exactly as the code has it:

- When `isValid` is among the changed keys, the hook returns `false`
  (`backbone.validation.js:64-66`). By the hook's own convention `false` means "not invalid", so
  the update is accepted. Callbacks already fired for earlier keys stay fired, and the flag is
  not written.
- With underscore 1.2 or later, `_.isNumber(NaN)` is true, so the `!_.isNumber` test in `min` and
  `max` never fires after `parseInt`. A value without leading digits passes both rules.
- With jQuery 1.5 or later, `$.trim` converts any value with `String` and always yields a string,
  so the `_.isString` test of the length rules always holds. A number is measured by the length
  of its text.
- `value.length` counts UTF-16 code units: a character beyond U+FFFF, such as an emoji, counts
  twice in `minLength` and `maxLength`.
- The `maxLength` message lacks a space before the bound ("shorter than or equal to5
  characters").
- A rule name that is not registered gives an entry with no `fn`. Calling it throws, so
  `validateAttr` and the hook end there. This is modelled as `Fault` and `Threw`.

## Model

| member | source | states |
|---|---|---|
| Values.Show | backbone.validation.js:45 | `String(v)`, the text `result += res` appends; a truthy value has non-empty text |
| Values.NatToDecimal | backbone.validation.js:131 | the decimal text of a number is non-empty, all digits, and has no leading zero |
| Values.DecimalRoundTrip | backbone.validation.js:129 | reading back the decimal text of a number gives the number |
| Values.DigitPrefix | backbone.validation.js:129 | the digits `parseInt` consumes are the longest digit-only prefix of the text |
| Values.LeadingSpaces | backbone.validation.js:141 | the count of leading whitespace: all of it is whitespace and the next character is not |
| Values.TrailingSpaces | backbone.validation.js:141 | the count of trailing whitespace: all of it is whitespace and the character before it is not |
| Values.TrimString | backbone.validation.js:141 | `$.trim` on text: a slice of the input, with whitespace only outside it and at neither end of it; empty exactly when the input is all whitespace |
| Values.TrimPadded | backbone.validation.js:141 | trimming whitespace-padded text with no whitespace at its ends gives that text back |
| Values.TrimValue | backbone.validation.js:121 | `$.trim(v)`: null and undefined give ""; a string trims to "" exactly when it is all whitespace |
| Values.ParseIntReadsPrefix | backbone.validation.js:129 | when `parseInt(v, 10)` gives a number, the text of `v` is whitespace, an optional sign, digits worth that number, then text that does not start with a digit |
| BuiltinRules.NumberParsesBack | backbone.validation.js:135 | `parseInt` of a number gives that number |
| Values.NonNumericParsesToNaN | backbone.validation.js:129 | `parseInt` of undefined, null or a boolean is NaN |
| Values.ToNumberNaNIff | backbone.validation.js:130 | a string bound compares as NaN exactly when its trimmed text is a lone sign or holds a character that is neither a digit nor a leading sign |
| BuiltinRules.ToNumberReadsInteger | backbone.validation.js:130 | a string bound holding an integer's text, with whitespace around it, compares as that integer |
| Values.Utf16Length | backbone.validation.js:142 | `value.length`: between one and two units per character, and one per character exactly when every character is below U+10000 |
| BuiltinRules.Message | backbone.validation.js:125 | the message or its default is truthy, and is `msg` when `msg` is truthy |
| BuiltinRules.Required | backbone.validation.js:120-127 | errors exactly for null, undefined, `false` and all-whitespace strings, with `msg` or "attr is required"; returns undefined otherwise |
| BuiltinRules.Min | backbone.validation.js:128-133 | a value that parses to NaN passes; otherwise it errs exactly when the parsed integer is below the bound; an error carries `msg` or the "larger than or equal to" message; a pass is undefined |
| BuiltinRules.Max | backbone.validation.js:134-139 | a value that parses to NaN passes; otherwise it errs exactly when the parsed integer is above the bound; an error carries `msg` or the "less than or equal to" message; a pass is undefined |
| BuiltinRules.MinLength | backbone.validation.js:140-145 | an error carries `msg` or the "longer than or equal to … characters" message; a pass is undefined |
| BuiltinRules.MaxLength | backbone.validation.js:146-151 | an error carries `msg` or the "shorter than or equal to… characters" message, spaced as in the source; a pass is undefined |
| BuiltinRules.NumberInRange | backbone.validation.js:128-139 | with numeric bounds, a number passes both `min` and `max` exactly when it lies between them |
| BuiltinRules.NumberOutOfRange | backbone.validation.js:128-139 | `min` errs exactly below the lower bound, and `max` exactly above the upper bound |
| BuiltinRules.LeadingIntegerInRange | backbone.validation.js:128-139 | text that starts with an integer after whitespace (" 18 years") passes both `min` and `max` exactly when that integer lies between the bounds |
| BuiltinRules.LeadingIntegerOutOfRange | backbone.validation.js:128-139 | for such text, `min` errs exactly when its integer is below the lower bound, and `max` exactly when it is above the upper bound |
| BuiltinRules.ParseLeadingInteger | backbone.validation.js:129 | `parseInt` skips leading whitespace and ignores whatever text follows the number |
| BuiltinRules.LengthIgnoresPadding | backbone.validation.js:140-151 | padding a string with whitespace changes neither length rule's verdict |
| BuiltinRules.TrimIgnoresPadding | backbone.validation.js:141 | trimming padded text gives what trimming the text gives |
| BuiltinRules.LengthInRange | backbone.validation.js:140-151 | with numeric bounds, a string passes both length rules exactly when the UTF-16 length of its trimmed text lies between them |
| BuiltinRules.SurrogatePairCountsTwice | backbone.validation.js:140-151 | an emoji alone passes `minLength: 2` and fails `maxLength: 1`, as its two code units make it |
| BuiltinRules.DefaultRegistry | backbone.validation.js:118-159 | `Backbone.Validation.validators`: the six rule names, each bound to its rule |
| Resolver.DeclarationOf | backbone.validation.js:15 | `validation[attr]`: absent exactly when no key is `attr`, otherwise the declaration of such a key |
| Resolver.Property | backbone.validation.js:26 | `validation['msg']` is undefined when there is no `msg` key, and a value other than undefined is the parameter of a `msg` key |
| Resolver.PropertyIsFirstMatch | backbone.validation.js:26 | when there is a `msg` key, `validation['msg']` is the parameter of the first one |
| Resolver.RuleEntries | backbone.validation.js:20-30 | at most one entry per key, every entry carrying the shared `msg` |
| Resolver.Resolve | backbone.validation.js:14-32 | what `getValidators` returns: a custom check exactly when the declaration is a function; no entries for an undeclared attribute; no more entries than keys |
| Resolver.GetValidators | backbone.validation.js:14-32 | returns a custom check function as it is; otherwise the entries `RuleEntries` gives, built by the loop |
| Resolver.RuleEntriesPrefix | backbone.validation.js:21-29 | the entries of a prefix of the keys are a prefix of the entries |
| Resolver.RuleKeyHasEntry | backbone.validation.js:22-27 | each own key other than `msg` has an entry holding its rule, its parameter and the shared `msg`, at the position given by the rule keys before it |
| Resolver.NonRuleKeySkipped | backbone.validation.js:22 | the key `msg` and inherited keys add no entry |
| Resolver.RuleEntriesInKeyOrder | backbone.validation.js:21-29 | entries come in the order of their keys |
| Resolver.EntryHasRuleKey | backbone.validation.js:22-27 | every entry comes from an own key other than `msg` |
| Resolver.EvaluateShape | backbone.validation.js:34-50 | what `validateAttr` gives: only a rule map can throw, a result that is not a custom check's is a string, and an undeclared attribute gives "" |
| Resolver.ValidateAttr | backbone.validation.js:34-50 | a custom check's result as it is; "" for an undeclared attribute; otherwise the loop's result, or a throw |
| Resolver.RunChecks | backbone.validation.js:40-48 | the loop over the entries computes `RunEntries` |
| Resolver.RunEntriesStep | backbone.validation.js:41-46 | one turn of the loop appends the entry's error text, or throws when the entry has no `fn` |
| Resolver.RunEntriesFaultStays | backbone.validation.js:43 | once an entry without `fn` throws, the later entries do not matter |
| Resolver.RunEntriesFaultIff | backbone.validation.js:43 | the loop throws exactly when some entry has no `fn` |
| Resolver.RunEntriesConcatenates | backbone.validation.js:40-48 | when the loop does not throw, it returns the in-order concatenation of the texts of the truthy results |
| Resolver.RunEntriesPassIff | backbone.validation.js:40-48 | with every rule registered, the result is "" exactly when no rule returned a truthy value |
| Resolver.RunEntriesPassAll | backbone.validation.js:40-48 | the loop returns "" exactly when every entry has a `fn` and every `fn` returns a falsy value |
| Resolver.KeysPassEntriesPass | backbone.validation.js:20-30 | when every rule key names a registered rule that returns a falsy value, so does every entry |
| Resolver.EntriesPassKeysPass | backbone.validation.js:20-30 | when every entry has a rule that returns a falsy value, so does every rule key |
| Resolver.RuleMapPassIff | backbone.validation.js:34-50 | a rule-map attribute passes exactly when every own non-`msg` key names a registered rule that returns a falsy value |
| Orchestrator.Lookup | backbone.validation.js:82 | `attrs[attr]` is undefined for a key that is not there |
| Orchestrator.LookupFirstMatch | backbone.validation.js:82 | `attrs[attr]` is the value of the first key called `attr`, so an attribute the update sets to a defined value is skipped by the scan |
| Orchestrator.LookupDefinedIsPresent | backbone.validation.js:82 | a value of `attrs[attr]` other than undefined is the value of an entry for `attr` |
| Orchestrator.ChangedPass | backbone.validation.js:63-75 | the loop over the changed attributes fires at most one callback per attribute, and one for each when it runs through |
| Orchestrator.RecheckThrowsOnlyOnFault | backbone.validation.js:80-86 | the scan over the declared attributes throws only where validating an attribute whose entry in `attrs` is undefined (absent, or present with the value undefined) throws on its stored value |
| Orchestrator.HookEffect | backbone.validation.js:60-91 | one call of the hook: a `true` return always writes `false`, a throw writes nothing, a `true` flag comes with a `false` return |
| Orchestrator.Host.Bind | backbone.validation.js:55-60 | installs the hook with the supplied `valid`/`invalid` callbacks, or the defaults where none is supplied |
| Orchestrator.Host.Unbind | backbone.validation.js:94-96 | removes the hook |
| Orchestrator.Host.Validate | backbone.validation.js:60-91 | without a hook, nothing happens; with one, it fires the callbacks, returns the value and writes the flag that `HookEffect` gives, and nothing else changes |
| Orchestrator.Host.CheckChanged | backbone.validation.js:63-75 | the loop over changed attributes fires the callbacks and sets `invalid` as `ChangedPass` gives, and reports where it stopped |
| Orchestrator.Host.CheckUntouched | backbone.validation.js:80-86 | the loop over declared attributes computes `Recheck` |
| Orchestrator.ChangedAdvances | backbone.validation.js:68-74 | a changed attribute that is processed fires `invalidFn` or `validFn` as its result calls for, and sets `invalid` when the result is truthy |
| Orchestrator.ChangedHalts | backbone.validation.js:64-66 | the key `isValid`, or a throw, stops the loop and keeps the callbacks fired before it |
| Orchestrator.ChangedPassStopped | backbone.validation.js:63-66 | once the loop over changed attributes has stopped, later attributes change nothing |
| Orchestrator.ChangedCallbacks | backbone.validation.js:63-75 | one callback per processed changed attribute, in order: `invalidFn` with the error when it is truthy, `validFn` otherwise; the loop stops at the key `isValid` or at a throw |
| Orchestrator.ChangedCompletesIff | backbone.validation.js:63-75 | the loop runs through exactly when no changed key is `isValid` and no validation throws |
| Orchestrator.ChangedInvalidIff | backbone.validation.js:69-71 | `invalid` is set exactly when `invalidFn` was fired |
| Orchestrator.IsValidKeyGuard | backbone.validation.js:64-66 | with `isValid` among the changed keys, the hook returns false, fires callbacks only for the keys before it, and does not write the flag |
| Orchestrator.HookReturnsInvalid | backbone.validation.js:61-90 | outside the guard and throws, the hook returns true exactly when some changed attribute has a truthy error |
| Orchestrator.RecheckValidIff | backbone.validation.js:80-86 | the scan over declared attributes finds the model valid exactly when every one whose entry in `attrs` is undefined (absent, or present with the value undefined) passes on its current value |
| Orchestrator.RecheckInvalidIff | backbone.validation.js:81-85 | the scan finds the model invalid exactly when one attribute whose entry in `attrs` is undefined fails and every such one before it passes, so it stops at the first failure |
| Orchestrator.FlagWritten | backbone.validation.js:77-88 | the flag becomes false when a changed attribute is invalid; otherwise it becomes true exactly when every declared attribute whose entry in `attrs` is undefined passes |
| Orchestrator.SingleChange | backbone.validation.js:63-75 | a one-attribute update fires the one callback its result calls for |
| Orchestrator.EmptyNameScenario | backbone.validation.js:60-91 | `{name: ""}` against `{name: {required: true}}` fires `invalidFn` with "name is required", returns true and writes false |
| Orchestrator.AggregateFlagScenario | backbone.validation.js:77-88 | `{age: 21}` fires `validFn` for `age` and returns false, yet writes false while the stored `name` is still empty |
| Orchestrator.StoredNameFails | backbone.validation.js:81-85 | the scan stops at `name` when the update's entry for `name` is undefined and its stored value is unset or empty |
| Orchestrator.NameRejected | backbone.validation.js:120-126 | with the shipped rules, an undefined or empty `name` declared `required` fails with "name is required" |
| Orchestrator.AgeAccepted | backbone.validation.js:128-133 | with the shipped rules, `21` passes `min: 18` |
| Resolver.SingleRuleResult | backbone.validation.js:34-50 | an attribute declared with one registered rule and no `msg` yields the text of that rule's truthy result, or "" |

## Left out

- The default callbacks (`backbone.validation.js:100-110`) change CSS classes and attributes in
  the page. They are modelled as the `DefaultValid`/`DefaultInvalid` callbacks, and each call is
  recorded in the log. What they do to the page is not modelled.
- The `pattern` rule and the pattern table (`backbone.validation.js:112-116`, `152-157`) use
  regular expressions. The registry takes `pattern` as a parameter of `DefaultRegistry`, and its
  behaviour is not modelled.
- Numbers are integers of any size. Floating point, `NaN` as a stored value, and hexadecimal or
  exponent spellings and `Infinity` in `ToNumber` are not modelled. `NaN` arises only as the result of
  `parseInt`. JavaScript holds integers exactly only below 2^53 in magnitude.
- Values.Show: writes every integer in plain decimal. JavaScript writes a number of magnitude
  10^21 or more in exponent form ("1e+21"), so for such numbers the model's text differs.
- BuiltinRules.NumberParsesBack: holds in JavaScript only for magnitudes below 10^21. From 10^21
  on, `parseInt` reads only the digits before the exponent's "e".
- BuiltinRules.NumberInRange: holds in JavaScript only for numbers below 10^21 in magnitude, for
  the reason given under `NumberParsesBack`.
- BuiltinRules.NumberOutOfRange: holds in JavaScript only for numbers below 10^21 in magnitude,
  for the reason given under `NumberParsesBack`.
- BuiltinRules.Min: assumes underscore 1.2 or later, whose `_.isNumber(NaN)` is true. Under
  underscore 1.1, `_.isNumber(NaN)` is false, and `min` rejects a value with no leading digits.
- BuiltinRules.Max: assumes underscore 1.2 or later, for the reason given under `Min`.
- BuiltinRules.MinLength: assumes jQuery 1.5 or later, whose `$.trim` converts any value with
  `String`. jQuery 1.4's `$.trim` throws on `true` and on a number other than 0.
- BuiltinRules.MaxLength: assumes jQuery 1.5 or later, for the reason given under `MinLength`.
- Values are undefined, null, booleans, numbers and strings. Objects, arrays and functions as
  attribute values, and their `String` conversions, are not modelled.
- Custom check functions are total functions. A check that throws is not modelled, and neither
  is one that reads or changes the view.
- The callbacks receive the view; the model records only the callback, the attribute and the
  error.
- `model.set({isValid: …})` is a direct write of the `isValid` field. Backbone's `set`, which
  calls the hook again and meets the `isValid` guard, is not modelled.
- `model.validation` and `attrs` are sequences of keys in enumeration order. Inherited keys of
  `attrs` and of `model.validation` are not modelled. For rule maps, the own-property test at
  line 22 is modelled with a flag on each key.
- Orchestrator.Host.Validate: requires `attrs` to have distinct keys, as the keys of a JavaScript object are.
- Orchestrator.IsValidKeyGuard: states the guard only when no attribute before the key `isValid`
  throws. When one does, the hook throws first, as `ChangedCallbacks` states.
