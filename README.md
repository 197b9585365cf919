# rest-payload-validator, modelled in Dafny

This project models the core of `rest-payload-validator`, a JavaScript
library that checks a request payload against a declarative rule object:

- **`build({values, rules, messages})`** (src/validator.js) checks the shape
  of its arguments and returns a result object. Its `alright()` clears two
  dictionaries, then walks the rule keys and fills them:
  - `validation_results` maps a raw key such as `name.required` to the
    template's message, or a field to the errors of a nested validation;
  - `validation_alright` maps a field to its accepted value.
- **The three kinds of rule declaration:**
  - a `|`-separated string of rule tokens;
  - an array of element declarations, each re-entering `build` once per
    element of the value;
  - a nested object, re-entering `build` on the sub-values.
- **`errors()`** resolves every raw key through a fixed precedence chain of
  custom messages. `failed()` reports those errors when something was
  recorded.
- **`custom(rule, fn)`** registers a template. **`builder()`** collects the
  three arguments in any order.
- **The rule templates** (src/templates.js): `required`, `integer`, `float`,
  `number`, `string`, `boolean`, `array`, `min`, `max`, `major`, `minor` and
  `email`. Each returns nothing on a pass or a message on a failure.
- **The helpers** (src/utils.js): `getGlobalFields`, the global-message filter
  used for nested message scopes, and the classifiers `isStringField` and
  `isNumericField`.

## Layout

| file | module | what it holds |
|---|---|---|
| wrappers.dfy | `Wrappers` | `Option` |
| js_values.dfy | `JsValues` | the JavaScript values (`JValue`), insertion-ordered dictionaries, property read, `in`, `Object.keys`, spread, truthiness, `String(v)`, `Number(v)`; the `Result`/`Fault` type for thrown errors |
| text.dfy | `Text` | `split`/`join` on one character, decimal texts of indices, JavaScript whitespace trimming, `parseInt`, `Number` on strings |
| templates.dfy | `Templates` | the twelve templates, the template list, a recognizer for the email pattern, and their properties |
| utils.dfy | `Utils` | `getGlobalFields`, `isStringField`, `isNumericField` |
| engine.dfy | `Engine` | the validation algorithm as pure functions: `Shape`, `Run`/`Walk`/`Field`, string, array and object declarations, and the message resolution `Resolve` |
| string_rules.dfy | `StringRules` | properties of a string declaration, proved through an induction principle for the `forEach` |
| nested_rules.dfy | `NestedRules` | properties of array and object declarations |
| resolution.dfy | `Resolution` | properties of `errors()`: its five-step precedence chain and the later-write-wins loop |
| faults.dfy | `Faults` | which errors a validation can throw, and how a throw inside a nested validation ends the caller |
| registries.dfy | `Registries` | the registry `rule_validators` as written and as intended, and the two findings below |
| validator.dfy | `Validator` | the classes: the shared `RuleRegistry` that `custom` mutates, the result object `Validation` whose methods update its two dictionaries step by step, and `Builder` |

### How the model is organised

- **Methods and functions.** Every method of the class `Validation` is
  proved to end exactly where a function of `Engine` says. Each `forEach` is a
  `while` loop whose invariant ties the remaining work to that function. The
  properties are lemmas about the functions.
- **The registry is a parameter.** It maps a rule name to a template, and a
  template is called as `(key, value, param, rule, field_rules)`.
  - `Registries.AsWrittenRegistry` is built the way src/validator.js builds
    and calls it.
  - `Registries.BuiltinRegistry` is the corrected one the class uses (see
    "## Findings").
  - Most `Engine` and `StringRules` lemmas hold for any registry.
- **Thrown errors are values.** Every error the code throws is a `Fault`
  inside a `Result`: `RestPayloadValidatorSyntaxError` and the host
  `TypeError`s. The host errors come from reading a property of undefined or
  null, `in` on a non-object, `Object.keys(null)`, a `forEach` on a non-array,
  and calling a template that is not registered. No error is caught, so a
  fault anywhere ends the whole run with that fault.

## Model

| member | source | states |
|---|---|---|
| Engine.Shape | src/validator.js:7-12 | `build` succeeds exactly when each argument, with an absent one defaulted to `{}`, has typeof 'object' (object, array or null); otherwise it throws the syntax error "value, rules and messages must be object" |
| Engine.TokenList | src/validator.js:21-27 | the `field_rules` array handed to each template has one element per token |
| Engine.TokenListItems | src/validator.js:21-27 | element j of `field_rules` is token j |
| Engine.Wildcard | src/validator.js:52 | the element wildcard faults only on undefined/null messages; a truthy `messages[key.*]` wins; otherwise, with `messages[key]` truthy, its `*` entry when truthy and `{}` when not; with neither truthy it is `{}` |
| Engine.Items | src/validator.js:54 | `(values[key] \|\| []).forEach` visits nothing for a falsy value, the elements of an array, and throws on any other truthy value |
| Engine.ElementSpec | src/validator.js:60 | element i is checked against declaration i, or the last declaration when i is past the end; it is always one of the declarations |
| Engine.ElementScopeSmaller | src/validator.js:55-61 | the rules of an element's nested build are strictly smaller than the array declaration, so the recursion ends |
| Engine.SetIndex | src/validator.js:71 | writing index i of the accepted array gives length i+1, keeps the earlier elements, leaves the gap as holes (undefined) and holds the value at i |
| Engine.ObjectScope | src/validator.js:95-104 | the nested build of an object declaration fails exactly when `values`/`messages` are undefined or null or the value or declaration is not an object-type (throwing a TypeError or the shape error); otherwise it runs on `values[key]` (absent defaulting to `{}`) against the declaration, with the global messages overlaid by the spread of `messages[key]` |
| Engine.ResolveKey | src/validator.js:139-157 | resolving one raw key can only throw a TypeError; it cannot throw when messages is an object without an entry for the field; the output key is the raw key or its field part (the five steps are the `Resolution.Resolve…` lemmas below) |
| StringRules.SequenceInvariant | src/validator.js:23-39 | induction principle of a throwing `forEach`: an invariant kept by every step holds at the end, and the loop does not throw |
| StringRules.SequenceOkSteps | src/validator.js:23-39 | a `forEach` that ends without a fault ran every step without one |
| StringRules.SequenceFirstFault | src/validator.js:23-39 | the first step that throws ends the `forEach` with its fault |
| StringRules.TokensOkIff | src/validator.js:23-38 | the tokens of a string declaration run to the end without a fault exactly when every token names a registered rule and the values can be read |
| StringRules.TokensFirstUnknown | src/validator.js:34-37 | the first unregistered token throws: an empty name gives the error naming the rule string and the field, any other name gives "Validator '…' not found" |
| StringRules.TokensRecordsFailures | src/validator.js:23-30 | no short-circuit: afterwards the recorded raw keys are the earlier ones plus `key.rule` for every failing token, and no others |
| StringRules.TokensUntouched | src/validator.js:29-30 | a raw key that no failing token records keeps its message |
| StringRules.TokensLastFailure | src/validator.js:29-30 | the message under `key.rule` is that of the last token with that rule that fails |
| StringRules.TokensAcceptOnlyField | src/validator.js:31-32 | the tokens of a field never change the accepted entry of any other field |
| StringRules.TokensAcceptOnPass | src/validator.js:31-32 | when any token of the field passes, the field's value is accepted |
| StringRules.TokensAllFail | src/validator.js:29-32 | when every token fails, nothing is accepted |
| NestedRules.ArrayGuardFailure | src/validator.js:43-87 | a failing `array` guard records only `key.array` with its message; no element is visited and nothing is accepted |
| NestedRules.ArrayEmptyListSkips | src/validator.js:45-46 | an empty list of element declarations skips the field entirely, with no error and no accepted value |
| NestedRules.ArrayFalsyValueVisitsNothing | src/validator.js:54-85 | an absent array value visits no element and leaves the field in neither dictionary |
| NestedRules.FinishEntries | src/validator.js:81-85 | the closing deletes: the field keeps an error entry exactly when the gathered error object is non-empty and an accepted entry exactly when the gathered array is non-empty; other fields are untouched (which elements make those non-empty is `NestedRules.ArrayErrorEntry` and `NestedRules.ArrayAcceptedEntry`) |
| NestedRules.ElementPassNext | src/validator.js:69-72 | an element whose nested run records nothing keeps the errors as they are and stores its accepted value, when it has one, at its index |
| NestedRules.ElementFailNext | src/validator.js:73-77 | an element whose nested run records something keeps no value and leaves the field's error object non-empty |
| NestedRules.MergedErrorsNonEmpty | src/validator.js:73-77 | copying the resolved errors of a run that recorded something into the field's error object leaves it non-empty |
| NestedRules.ElementsNext | src/validator.js:54-80 | one element step of the loop: the loop's outcome is unchanged; the error object grows exactly when the element's nested run records something and otherwise stays as it was, and never empties again; the kept array gains the element's accepted value at its index exactly when it has one |
| NestedRules.ElementsErrorsStay | src/validator.js:73-77 | element errors are only ever added: once the field's error object holds an entry, the loop ends with it non-empty |
| NestedRules.ElementsSkipTo | src/validator.js:54-80 | the loop from one index reaches any later index with some accumulators and the same outcome |
| NestedRules.ElementFailureHere | src/validator.js:54-80 | a failing element is reported whatever the later elements do |
| NestedRules.ElementFailureReported | src/validator.js:54-80 | an element whose nested validation records anything, at any position, leaves the field's error object non-empty |
| NestedRules.ElementsClean | src/validator.js:54-80 | when no element from i on records anything, the loop ends with the error object it started with |
| NestedRules.ArrayErrorEntry | src/validator.js:54-85 | past a falsy `array` guard, the field has an error entry exactly when the nested validation of some element records something |
| NestedRules.Gathered | src/validator.js:69-72 | the accepted array as index assignments leave it: position m holds element m's accepted value or a hole, and it ends at the last element that kept a value |
| NestedRules.GatheredStep | src/validator.js:69-72 | one more element extends the gathered array exactly as `validation_alright[key][index] = data[index]` does, or leaves it as it was |
| NestedRules.ElementOutcomes | src/validator.js:69-72 | one entry per element: the value its nested run accepted under its index when it recorded nothing, and nothing otherwise |
| NestedRules.ElementsGather | src/validator.js:54-80 | the element loop ends with exactly the gathered array of all the elements' outcomes |
| NestedRules.ArrayAcceptedEntry | src/validator.js:54-85 | past a falsy `array` guard, the field's accepted entry is the array whose index m holds element m's accepted value (holes elsewhere), and is absent when no element kept a value |
| NestedRules.ElementMessages | src/validator.js:63-67 | an element's messages are `messages[key]` first, then the wildcard under the element's index, then the global messages |
| NestedRules.ElementRules | src/validator.js:55-61 | an element is validated as the single field named by its index, holding its value against its declaration |
| NestedRules.ObjectGuardFailure | src/validator.js:92-112 | a failing `object` guard records only `key.object` with its message and does not descend |
| NestedRules.ObjectMessages | src/validator.js:100-103 | a nested object's message for key k is the last `messages[key]` entry for k when there is one, and otherwise the global message for k |
| NestedRules.ObjectNestedPass | src/validator.js:105-107 | a nested validation that records nothing stores its accepted values under the field and records nothing in the parent |
| NestedRules.ObjectNestedFail | src/validator.js:108-110 | a nested validation that records anything stores its resolved errors verbatim under the field; that error object is never empty, so a failure at any depth makes the parent fail |
| Resolution.ResolveEmptyIff | src/validator.js:134-159 | `errors()` is empty exactly when no raw key was recorded |
| Resolution.ResolveFromEmpty | src/validator.js:137-159 | the resolved object is empty exactly when there is nothing left to resolve and nothing was written |
| Resolution.ResolveFromKeys | src/validator.js:139-157 | the keys of `errors()` are exactly the output keys of the recorded raw keys |
| Resolution.ResolveFromUntouched | src/validator.js:139-157 | an output key that no raw key writes keeps what it held |
| Resolution.ResolveFromLastWrite | src/validator.js:139-157 | later writes win: an output key holds the entry of the last raw key that writes it |
| Resolution.ResolveNested | src/validator.js:141-142 | step 1: a raw key whose declaration is an object keeps the nested errors verbatim under itself |
| Resolution.ResolveExactMessage | src/validator.js:145-146 | step 2: otherwise a message under the exact raw key `field.rule` is written under the field |
| Resolution.ResolveFieldMessage | src/validator.js:149-150 | step 3: otherwise the rule's entry of `messages[field]` is written under the field |
| Resolution.ResolveFieldMessageThrows | src/validator.js:149 | step 3 throws a TypeError when `messages[field]` is a primitive |
| Resolution.ResolveGlobalMessage | src/validator.js:153-154 | step 4: otherwise a global message for the rule is written under the field |
| Resolution.ResolveTemplateMessage | src/validator.js:155-156 | step 5: otherwise the raw key keeps its template message |
| Resolution.CustomMessageWritesField | src/validator.js:145-154 | a raw key with a custom message at step 2, 3 or 4 writes under its field |
| Resolution.ResolveLastCustomMessage | src/validator.js:139-157 | with custom messages, a field reports the message of the last of its raw keys to write under it, so the last failing rule wins |
| Resolution.RawKeyParts | src/validator.js:146-154 | `split('.')` of a raw key `field.rule` of dot-free names gives back the field and the rule |
| Resolution.ResolvePrecedence | src/validator.js:145-154 | for `field.rule`, an exact message beats the rule's entry of `messages[field]`, which beats a global message for the rule |
| Resolution.PlainResolveKey | src/validator.js:155-156 | with no custom messages, a raw key of a non-nested field resolves to itself and its template message |
| Resolution.ResolvePlain | src/validator.js:134-159 | with no custom messages and no nested declarations, `errors()` returns exactly the recorded dictionary |
| Templates.Required | src/templates.js:3-6 | `required` fails exactly on an undefined value |
| Templates.Integer | src/templates.js:8-11 | `integer` fails exactly on a defined value that is not an integral number |
| Templates.Number | src/templates.js:18-21 | `number` fails exactly on a defined non-number |
| Templates.String | src/templates.js:23-26 | `string` fails exactly on a defined non-string |
| Templates.Boolean | src/templates.js:28-31 | `boolean` fails exactly on a defined non-boolean |
| Templates.Array | src/templates.js:33-36 | `array` fails exactly on a defined non-array |
| Templates.Min | src/templates.js:38-41 | `min` fails exactly on a string shorter than `Number(param)`, read as JavaScript reads it (surrounding whitespace trimmed, a blank bound is 0) |
| Templates.Max | src/templates.js:43-46 | `max` fails exactly on a string longer than `Number(param)`, read as JavaScript reads it (surrounding whitespace trimmed, a blank bound is 0) |
| Templates.Major | src/templates.js:48-51 | `major` fails exactly on a number below `parseInt(param)` |
| Templates.Minor | src/templates.js:53-56 | `minor` fails exactly on a number above `parseInt(param)` |
| Templates.FloatIsNumber | src/templates.js:13-21 | `float` rejects exactly what `number` rejects: the NaN comparison can never hold and `&&` binds tighter than `\|\|` |
| Templates.EmailRecognizerCorrect | src/templates.js:59 | the recognizer accepts exactly the strings `^[a-z0-9.]+@[a-z0-9]+\.[a-z]+(\.[a-z]+)?$` (flag `i`) matches |
| Templates.EmailSound | src/templates.js:59 | every string the recognizer accepts matches the pattern |
| Templates.EmailComplete | src/templates.js:59 | every string the pattern matches is accepted |
| Templates.EmailFailsIff | src/templates.js:58-62 | `email` passes undefined, rejects every other non-string, and rejects a string exactly when the pattern does not match it |
| Templates.AbsentPassesAllButRequired | src/templates.js:3-62 | an undefined value passes every template except `required`, which fails |
| Templates.RequiredAcceptsFalsyValues | src/templates.js:3-6 | `""`, `0`, `false`, `null` and `[]` all pass `required` |
| Templates.MinMaxDecimalBound | src/templates.js:38-46 | with a decimal bound n, `min` fails exactly on strings shorter than n and `max` exactly on strings longer than n |
| Templates.MinMaxPaddedBound | src/templates.js:38-46 | a decimal bound n surrounded by whitespace still bounds the length: `min` fails exactly below n and `max` exactly above n |
| Templates.MinMaxNeedStringAndNumber | src/templates.js:38-46 | `min` and `max` never fail on a non-string, nor when `Number` of the (trimmed) bound is not a number |
| Templates.MajorMinorDecimalBound | src/templates.js:48-56 | with a decimal bound n, `major` fails exactly below n and `minor` exactly above n; equality passes both |
| Templates.MajorMinorNeedNumber | src/templates.js:48-56 | `major` and `minor` never fail on a non-number, nor when the bound does not parse |
| Templates.MessageNamesKey | src/templates.js:3-62 | every template returns nothing or a message that contains the key it was given |
| Templates.CatalogNamesDistinct | src/templates.js:1-62 | the template list registers each name once |
| Templates.CatalogLacksObject | src/templates.js:1-62 | the template list has no `object` template |
| Utils.KeepGlobal | src/utils.js:2-4 | the filter keeps exactly the keys with no '.' whose value is a string, each with its value |
| Utils.GetGlobalFields | src/utils.js:1-9 | `getGlobalFields` throws exactly on undefined or null |
| Utils.GlobalFieldsExact | src/utils.js:1-9 | on an object, the result holds exactly the dot-free keys with string values, with their values unchanged |
| Utils.GlobalFieldsIdempotent | src/utils.js:1-9 | filtering an already filtered object changes nothing |
| Utils.KeepAllOfUnique | src/utils.js:2-8 | a dictionary whose every key is global passes the filter whole, in order |
| Utils.IndexOfValue | src/utils.js:12 | `indexOf` gives the first position holding the value, or -1 exactly when it is absent |
| Utils.SomeIndexed | src/utils.js:12 | `names.some(t => all_rules.indexOf(t) >= 0)` holds exactly when some name is among the rules |
| Utils.IsStringField | src/utils.js:11-13 | `isStringField` holds exactly when 'string' is among the rules or the value is a string |
| Utils.IsNumericField | src/utils.js:15-17 | `isNumericField` holds exactly when 'integer', 'float' or 'number' is among the rules or the value is a number |
| Utils.DefaultRulesAreTypeof | src/utils.js:11-17 | with the default empty rule list both helpers are a plain typeof test |
| Text.Split | src/validator.js:21 | `split` on one character gives at least one piece, and no piece contains the separator |
| Text.JoinSplit | src/validator.js:21 | joining the pieces of a split gives back the text |
| Text.SplitJoin | src/validator.js:21 | splitting a join of separator-free pieces gives back the pieces |
| Text.NatToString | src/validator.js:56-61 | the key of element i is a decimal text with no leading zero |
| Text.NatToStringRoundTrip | src/validator.js:56-61 | reading back the key of element i gives i |
| Text.NatToStringInjective | src/validator.js:56-61 | distinct elements have distinct keys |
| Text.ParseIntNatToString | src/templates.js:49 | `parseInt` reads back the decimal text of every natural number |
| Text.Trim | src/templates.js:39 | `Number` first drops the surrounding JavaScript whitespace: the result has no whitespace at either end, and is empty exactly when the text is all whitespace |
| Text.TrimPadded | src/templates.js:39 | trimming whitespace from around a text that starts and ends with other characters gives back that text |
| JsValues.Put | src/validator.js:30 | an assignment sets the key, leaves every other key as it was, and appends a new key at the end |
| JsValues.Delete | src/validator.js:82 | `delete` removes the key and leaves every other key as it was |
| JsValues.PutAll | src/validator.js:63-67 | in an object spread the last entry for a key wins, and keys not spread in keep their value |
| JsValues.Get | src/validator.js:27 | reading a property throws exactly on undefined or null |
| JsValues.Has | src/validator.js:145 | `in` throws unless the right side is an object or an array, and on an object tests its own keys |
| JsValues.Keys | src/validator.js:19 | `Object.keys` throws exactly on undefined or null, and lists an object's keys in order |
| JsValues.Spread | src/validator.js:64-66 | spreading an object contributes its entries; spreading a primitive other than a string contributes nothing |
| Faults.GlobalFieldsFault | src/utils.js:1-9 | `getGlobalFields` can only throw a TypeError |
| Faults.ResolveFault | src/validator.js:139-157 | resolving the messages of `errors()` can only throw a TypeError |
| Faults.TokenFault | src/validator.js:24-38 | one token throws only a TypeError or the unknown-rule SyntaxError |
| Faults.SequenceFault | src/validator.js:23-39 | a `forEach` whose every step throws only known faults throws only known faults |
| Faults.TokensFault | src/validator.js:23-39 | a string declaration throws only known faults |
| Faults.RunFault | src/validator.js:7-126 | a validation, at any depth, throws only the shape SyntaxError, an unknown-rule SyntaxError or a TypeError |
| Faults.WalkFault | src/validator.js:19-114 | the walk over the rule keys throws only known faults |
| Faults.FieldFault | src/validator.js:20-113 | one rule key throws only known faults |
| Faults.ArrayFieldFault | src/validator.js:42-87 | an array declaration throws only known faults |
| Faults.ObjectFieldFault | src/validator.js:91-112 | an object declaration throws only known faults |
| Faults.ElementsFault | src/validator.js:54-79 | the element loop throws only known faults |
| Faults.ElementNoFault | src/validator.js:55-78 | an element whose nested validation does not throw hands the loop on to the next element |
| Faults.ElementFaultHere | src/validator.js:55-78 | an element whose nested validation, or the resolution of its messages, throws ends the loop with that fault |
| Faults.ElementFaultReported | src/validator.js:54-79 | nothing catches: the first element whose nested validation throws ends the element loop with that fault |
| Faults.ArrayElementFault | src/validator.js:42-87 | past a falsy `array` guard, the first throwing element makes the array declaration throw the same fault |
| Faults.ObjectNestedFault | src/validator.js:91-112 | past a falsy `object` guard, a throw of the nested validation or of the resolution of its messages is the object declaration's own fault |
| Validator.RuleRegistry.constructor | src/validator.js:5 | the shared registry starts as the corrected built-in registry |
| Validator.RuleRegistry.Custom | src/validator.js:200-202 | `custom` registers the template under its name, replacing any earlier one, and leaves every other name as it was |
| Validator.Build | src/validator.js:7-12 | `build` throws the shape error exactly when `Engine.Shape` does; otherwise it returns a fresh result object with empty dictionaries over the defaulted arguments |
| Validator.Validation.constructor | src/validator.js:8-9 | both dictionaries start empty |
| Validator.Validation.Alright | src/validator.js:14-126 | `alright()` throws exactly the fault of `Engine.Run`; otherwise it leaves the dictionaries as `Run` computes them from cleared ones and reports passed exactly when no raw key was recorded |
| Validator.Validation.Step | src/validator.js:19-114 | one rule key moves the dictionaries exactly as `Engine.Field` does |
| Validator.Validation.StringStep | src/validator.js:20-39 | the token loop of a string declaration ends as `Engine.StringField` does |
| Validator.Validation.ArrayStep | src/validator.js:42-87 | an array declaration ends as `Engine.ArrayField` does |
| Validator.Validation.Collect | src/validator.js:54-79 | the element loop gathers exactly the accepted values and errors `Engine.Elements` describes, or its first fault |
| Validator.Validation.CollectOne | src/validator.js:55-78 | one element's nested result object advances `Engine.Elements` by one element |
| Validator.Validation.ObjectStep | src/validator.js:91-112 | an object declaration ends as `Engine.ObjectField` does |
| Validator.Validation.Failed | src/validator.js:128-132 | `failed()` yields nothing when nothing is recorded and the resolved errors otherwise, leaving the dictionaries unchanged |
| Validator.Validation.Errors | src/validator.js:134-160 | `errors()` runs `alright` first when nothing is recorded, then returns `Engine.Resolve` of the recorded raw keys |
| Validator.Validation.ResolveAll | src/validator.js:137-159 | the resolution loop returns exactly `Engine.Resolve` |
| Validator.Builder.constructor | src/validator.js:171-172 | a builder starts with every argument absent |
| Validator.Builder.Values | src/validator.js:174-177 | `values(v)` sets the values and keeps the other two arguments |
| Validator.Builder.Rules | src/validator.js:179-182 | `rules(v)` sets the rules and keeps the other two arguments |
| Validator.Builder.Messages | src/validator.js:184-187 | `messages(v)` sets the messages and keeps the other two arguments |
| Validator.Builder.HandleBuild | src/validator.js:189-195 | `build()` builds from the last value set for each argument, exactly as `Validator.Build` |
| Validator.AlrightTwice | src/validator.js:14-16 | two runs of `alright` on one result object give the same verdict and the same dictionaries, because each run starts from cleared ones |
| Registries.AsCalled | src/validator.js:27 | the call as written passes the key in the template's value slot and the value in its key slot |
| Registries.AsDeclared | src/templates.js:3 | the call as the templates are declared passes the value first |
| Registries.FromCatalog | src/validator.js:5 | `Object.fromEntries(templates)` registers exactly the names on the list |
| Registries.FromCatalogAt | src/validator.js:5 | with distinct names, each template of the list is found under its name |
| Registries.ObjectGuard | src/validator.js:92 | the `object` guard fails exactly on a defined value whose typeof is not 'object' |
| Registries.NoObjectInList | src/validator.js:92 | a registry built from the list alone has no `object` template |
| Registries.BuiltinAt | src/validator.js:5 | the corrected registry holds each template of the list, called with the value first |
| Registries.AsWrittenAt | src/validator.js:5 | the as-written registry holds each template of the list, called with the key first |
| Registries.AsWrittenRequiredNeverFails | src/validator.js:27 | as written, `required` never fails, whatever the value |
| Registries.AsWrittenTypeGuards | src/validator.js:27 | as written, `string` never fails, while `integer`, `number`, `boolean` and `array` fail on every call, whatever the value |
| Registries.BuiltinRequiredFailsIffAbsent | src/templates.js:3-6 | in the corrected registry, `required` fails exactly on an undefined value |
| Registries.AsWrittenObjectRulesThrow | src/validator.js:92 | as written, every object declaration over readable values throws |
| Registries.BuiltinObjectGuardReports | src/validator.js:92-112 | in the corrected registry, a value of the wrong type under an object declaration is reported under `key.object` |
| Registries.SingleStringRule | src/validator.js:19-21 | a rules object with a single string declaration runs as that declaration alone |
| Registries.NameRequiredRun | src/validator.js:19-33 | `rules: {name: 'required'}` with no values records `name.required` when the template fails and accepts `name` as undefined otherwise |
| Registries.AsWrittenMissingRequiredPasses | src/validator.js:19-33 | as written, `{rules: {name: 'required'}}` with no values passes and accepts `name` as undefined |
| Registries.BuiltinMissingRequiredFails | src/validator.js:19-33 | in the corrected registry, the same call records `name.required` with "Field 'name' is required" |

## Left out

- Module loading is not modelled. The registry is a parameter. Two things
  follow:
  - src/validator.js:2 loads with `require` a module that uses
    `export default` (src/templates.js:77); the model reads that as the list
    of templates.
  - `exceptions.js` is not part of this model. Its error is the fault
    `SyntaxError(message)`.
- The commented-out `unique` rule (src/templates.js:64-75) is out. It does
  database I/O.
- `rule in rule_validators` also finds names inherited from
  `Object.prototype`, such as `toString`. The model looks up own names only.
- JavaScript lists integer-like keys first in `Object.keys`. The model keeps
  every object in insertion order.
- Numbers are exact reals. NaN, Infinity and -0 are out; NaN is "no number"
  (`None`) where it matters.
- `String(x)` of a number is exact for integers and short decimals. The
  exponent forms are out.
- `length` is counted in characters, not UTF-16 code units.
- `parseInt` and `Number` accept the decimal forms only: no hexadecimal, no
  exponent, no `Infinity`. Both skip JavaScript's whitespace: `Number` at
  both ends, reading a blank text as 0, and `parseInt` at the start.
- `parseFloat` is read as `Number` of the whole text. It differs from
  JavaScript's on a number followed by other text ("12px") and on a blank
  text. Its one use, in `float`, compares it with NaN, which never holds, so
  `float` is unaffected.
- Objects are association lists, and nothing forbids a repeated key, which
  no JavaScript object has. On such an input `Lookup` reads the first entry
  and the walk over the rules visits the key twice; the source never sees
  one.
- Holes in a sparse accepted array read as `undefined`. The model stores
  `undefined` there.
- Callbacks are replaced by return values:
  - `alright(fn)` calls `fn(accepted)` when the run passed and returns
    `{failed}`; `alright()` returns the verdict. The model returns the
    verdict and exposes the accepted dictionary.
  - `failed(fn)` calls `fn(errors)` when something was recorded. The model
    returns those errors, or nothing.
  - What the callbacks themselves do is out.
- Aliasing is out. `validation_alright[key]` is the nested object's own
  accepted dictionary in the source; the model copies its value.
- `custom` with a validator that is not a function is out: every registered
  template is a total function.
- Validator.RuleRegistry.constructor: starts from the corrected registry
  `Registries.BuiltinRegistry` (see "## Findings"), so the class runs the
  corrected program; `Registries.AsWrittenRegistry` keeps
  src/validator.js:5 as written.
- Validator.Builder: `builder()` exposes only the three setters, and each
  setter returns the other two and `build`. So `build` needs a setter
  first, and a setter cannot follow itself directly. The class allows both.
- Validator.Validation.Alright: the state of the dictionaries after a fault
  is not specified. Only the fault is.
- Validator.Validation.ArrayStep: gathers the element results in local
  variables and writes the field's two entries at the end. The source
  writes into `validation_alright[key]` and `validation_results[key]` as it
  goes; the end state is the same.
- Validator.Validation.Collect: on a fault it stops at the next loop test
  instead of unwinding from inside the callback; the fault returned is the
  same.
- StringRules: `field_rules` is handed to the templates as an array of
  strings. Its contents are stated by a lemma (`Engine.TokenListItems`),
  not by the function's contract.
- The `forEach` of a string declaration is the generic fold
  `Engine.Sequence`. Its properties are proved once over any step.

## Findings

| source | as written | input that shows it | evidently intended | confidence | as-written member | corrected member |
|---|---|---|---|---|---|---|
| src/validator.js:27 | templates are called `(key, value, param, rule, field_rules)` but declared `(value, key, param)` (src/templates.js:3-62), so each template tests the key | `build({rules: {name: 'required'}}).alright()` returns true: `required` sees the key `'name'`, which is defined | call with the value first; `required` fails on an absent value | not executed | Registries.AsWrittenMissingRequiredPasses | Registries.BuiltinMissingRequiredFails |
| src/validator.js:92 | an object declaration calls `rule_validators.object`, which the template list never registers | `build({values: {a: {}}, rules: {a: {}}}).alright()` throws a TypeError (`rule_validators.object` is not a function) | an `object` type guard, like the other guards | not executed | Registries.AsWrittenObjectRulesThrow | Registries.BuiltinObjectGuardReports |
