# angular-validator, modelled in Dafny

`hiComponents.validator` is an AngularJS add-on for form validation. It has two
parts:

- a service, `hiValidatorService`, that keeps a registry of named validator
  functions;
- a directive, `hiValidate`, that reads a comma-separated list of validator
  names from an input's `hi-validate` attribute. For each name it installs an
  adapter into the input's `ngModelController`. A synchronous validator goes
  into `$validators`, an asynchronous one into `$asyncValidators`. Every time
  an adapter runs, it records the validator's `{isValid, errorMessage}` under
  the validator's name in `$error.messages`. It only does so once the control
  is dirty. On a pristine control it records `{}`.

The model is functional. The registry and the controller are immutable
records. Registering, looking up, reading the attribute, binding and running
an adapter are pure functions that return the new state together with any
error or log output.

| file | module | what it holds |
|---|---|---|
| base.dfy | `Base` | `Option` (a value or `null`), `Result` (a value or a thrown error) |
| js.dfy | `Js` | JavaScript values, truthiness and the `||` operator |
| strings.dfy | `Strings` | `split` on one character, `join`, `trim`, with round-trip and uniqueness lemmas |
| validation.dfy | `Validation` | `{isValid, errorMessage?}`, settled promises, the validator function type |
| registry.dfy | `Registry` | `register` and `getValidator` over own keys |
| binder.dfy | `Binder` | the controller record, `getValidators`, `initialize`, `registerValidator`, the sync and async adapters |
| password.dfy | `Password` | the test suite's `validatePassword` and its two end-to-end cases |
| proto_lookup.dfy | `ProtoLookup` | the service's `in` test as written, which also sees `Object.prototype` (see Findings) |

Modelling choices:

- **Validators.** A validator function is a total function of its receiver
  (`context`) and of the value under validation. It returns either a plain
  result object or a promise. A promise is identified with the way it settles.
- **Adapters.** The closures the directive installs become `Adapter` records.
  Each record captures the name, `fn` and `context` at install time.
  `RunSync`, `InvokeAsync` and `Settle` interpret these records.
- **JavaScript operators.** `async || false`, `!override`,
  `modalValue || viewValue` and `if (validator)` all use JavaScript
  truthiness, as in the source. So a truthy non-boolean `async`, such as `1`,
  selects the asynchronous slot.
- **Pristine controls.** On a pristine control the entry is overwritten
  with `{}`. The map is not emptied, and the validator's name stays as a
  key.

## Model

| member | source | states |
|---|---|---|
| Registry.Register | dist/angular-validator.js:38-47 | fails with the duplicate-name error exactly when the name is already registered and `override` is falsy; on success adds or replaces only that name, with `fn` and `context` as given and `async` defaulting to `false` |
| Registry.GetValidator | dist/angular-validator.js:54-59 | never fails; returns the stored descriptor when the name is registered and `null` otherwise |
| Registry.RegisterFresh | dist/angular-validator.js:38-46 | a fresh name is accepted, the registry grows by exactly one entry, a later lookup returns `{fn, context, async}` with `async` defaulting to `false` and every other lookup is unchanged |
| Registry.RegisterDuplicate | dist/angular-validator.js:39-41 | a taken name with `override` absent or falsy throws the duplicate-name error and the registry keeps its old descriptor |
| Registry.RegisterOverride | dist/angular-validator.js:39-46 | with a truthy `override` the new descriptor replaces the old one for later lookups, while the set of names and its size stay the same |
| Strings.Split | dist/angular-validator.js:130 | `split(',')` yields one more piece than there are separators, and no piece contains the separator |
| Strings.JoinSplit | dist/angular-validator.js:130 | joining the pieces of a split with the separator gives the input back |
| Strings.SplitJoin | dist/angular-validator.js:130 | splitting a join of one or more separator-free pieces gives the pieces back |
| Strings.Trim | dist/angular-validator.js:131 | the trimmed string is no longer than the input, uses only the input's characters, and neither starts nor ends with whitespace |
| Strings.TrimIsSlice | dist/angular-validator.js:131 | the trimmed string is a slice of the input with only whitespace cut from either end |
| Strings.TrimUnique | dist/angular-validator.js:131 | any such whitespace-bounded slice is the trim, so trimming is determined by the input |
| Strings.TrimIdempotent | dist/angular-validator.js:131 | trimming twice is trimming once |
| Binder.GetValidators | dist/angular-validator.js:129-133 | the attribute yields one name per comma plus one, in order; each name is comma-free and has no leading or trailing whitespace |
| Binder.GetValidatorsJoin | dist/angular-validator.js:129-133 | for an attribute without whitespace, joining the names with `,` gives the attribute back |
| Binder.GetValidatorsSingle | dist/angular-validator.js:129-133 | an attribute holding one comma-free name, with no surrounding whitespace, reads as exactly that name |
| Binder.Install | dist/angular-validator.js:108-128 | installs the adapter under the name in `$asyncValidators` if the descriptor's `async` is truthy, and in `$validators` otherwise; leaves the other slot and every other name alone; resets `$error.messages` to `{}` |
| Binder.Bind | dist/angular-validator.js:97-107 | every unregistered name is logged once per occurrence and in attribute order, and registered names are never logged; the messages map ends empty if anything was installed and unchanged otherwise; dirtiness is untouched |
| Binder.BindSyncSlot | dist/angular-validator.js:97-127 | after binding, every requested synchronous name maps in `$validators` to an adapter over its registered `fn` and `context`, even when other names are missing; all other entries are unchanged |
| Binder.BindAsyncSlot | dist/angular-validator.js:97-127 | the same for asynchronous names and `$asyncValidators` |
| Binder.InitializeSlots | dist/angular-validator.js:97-134 | on an untouched control no name lands in both slots; each slot holds exactly the requested registered names of its kind; a requested name is logged if and only if it is unregistered |
| Binder.SelectValue | dist/angular-validator.js:111 | the validator receives the model value when it is truthy and the view value otherwise |
| Binder.RunSync | dist/angular-validator.js:110-114 | calls `fn` with `context` and the selected value; returns exactly `result.isValid` (undefined for a promise); records the result when dirty and `{}` when pristine; every other message, both slots and dirtiness are unchanged |
| Binder.InvokeAsync | dist/angular-validator.js:115-123 | hands the validator's promise back unchanged; a plain result makes `.then` throw |
| Binder.Settle | dist/angular-validator.js:117-121 | on resolution or rejection, the settled value is recorded under the name when the control is dirty and `{}` is recorded when it is pristine; nothing else changes |
| Binder.SettleEitherWay | dist/angular-validator.js:117-121 | what is recorded does not depend on whether the promise resolved or rejected |
| Binder.AdapterMatchesDirectCall | dist/angular-validator.js:97-114 | registering and binding a synchronous validator, then running its adapter on a dirty control, records and returns the same result as calling the registered function directly on the selected value with its own context |
| Password.ValidatePassword | test/spec/angular-validator.js:17-21 | a missing or empty value, or a string shorter than 5, gives `{isValid:false, errorMessage:'Password must be of 5 character'}`; a string of length 5 or more is valid with no message, so length 4 fails and length 5 passes |
| Password.SetupRegisters | test/spec/angular-validator.js:25 | registering `validatePassword` as `password` on a fresh registry succeeds, with `async` set to `false` |
| Password.LinkPassword | test/spec/angular-validator.js:27-36 | `hi-validate="password"` reads the single name `password`, installs its adapter in the synchronous slot only and logs nothing |
| Password.BindPassword | test/spec/angular-validator.js:30 | binding the name `password` against the test registry gives the linked control with an empty log |
| Password.PristineRecordsNothing | test/spec/angular-validator.js:35-36 | the host's first validation of the still-pristine control fails, yet only `{}` is recorded under `password` |
| Password.TypedPassword | test/spec/angular-validator.js:46-62 | once the control is dirty, typed text under 5 characters records the password message and fails; 5 or more records a valid result with no message |
| Password.TestScenarios | test/spec/angular-validator.js:46-62 | entering `pass` leaves `{password: {isValid:false, errorMessage:'Password must be of 5 character'}}`, and entering `passw` leaves `{password: {isValid:true}}` |
| ProtoLookup.RegisterAsWritten | dist/angular-validator.js:38-47 | as written, registration fails exactly when the name is an own key or a property inherited from `Object.prototype` and `override` is falsy; it agrees with `Register` whenever it succeeds |
| ProtoLookup.GetValidatorAsWritten | dist/angular-validator.js:54-59 | as written, the lookup is `null` only for names that are neither own keys nor inherited; it returns an own descriptor exactly when `getValidator` does |
| ProtoLookup.ToStringRefused | dist/angular-validator.js:39-41 | as written, registering `toString` on a fresh registry throws the duplicate-name error, while the own-key registry accepts it |
| ProtoLookup.ConstructorNotReported | dist/angular-validator.js:55-56 | as written, looking up `constructor` on a fresh registry yields a truthy inherited value rather than `null` |
| ProtoLookup.ConstructorLogged | dist/angular-validator.js:97-107 | with the own-key lookup, `hi-validate="constructor"` on a fresh registry logs `constructor` once and leaves the control untouched |
| ProtoLookup.AgreeOffPrototype | dist/angular-validator.js:39-59 | for names not inherited from `Object.prototype`, the as-written registration and lookup agree with the own-key ones |

## Left out

- Template-cache seeding in the service's `_initialize`, and the
  `hiValidatorMessage` directive (dist/angular-validator.js:65-70, 139-158):
  these are presentation glue over `$templateCache` and DOM templates.
- The host `ngModelController` pipeline. This covers running `$validators`
  before `$asyncValidators`, stopping after a failing synchronous validator,
  counting a rejected promise as a failure, parsing the view value, and when
  the control becomes dirty. None of that code is in this repository. The
  model only puts each adapter in the right slot. The scenarios call the
  adapter directly with the value the host would pass.
- Promise scheduling. The async adapter is modelled as two steps: invoking it
  (`InvokeAsync`), and writing the settled value (`Settle`). Dirtiness is read
  when the promise settles, as the callbacks do.
- The invocation context is an opaque value passed to the validator function
  as its receiver.
- `$log.error` is modelled as the list of missing names, in order. The text
  of the log message and of the thrown duplicate-name string is not modelled.
- Exceptions thrown by a validator function are not modelled. Validator
  functions are total.
- `$error.messages` is `undefined` until the first adapter is installed. The
  model starts it as the empty map. No adapter exists before that reset, so
  nothing in the model reads the difference.
- Numbers are reals plus `NaN`, so `-0` is the same value as `0`. Only
  truthiness is observed, and it is the same for both.
- `Strings.IsWhitespace` follows the current ECMAScript definition of
  whitespace and line terminators. Older engines that also trimmed U+180E are
  not modelled.
- Password.ValidatePassword: counts a string's length in characters, while
  JavaScript counts UTF-16 code units. The two differ for characters outside
  the Basic Multilingual Plane.
- Password.ValidatePassword: gives non-string values no `length`. Arrays and
  objects with a `length` property are not modelled.
- ProtoLookup.RegisterAsWritten: stores `__proto__` as an ordinary own key.
  In JavaScript, assigning to `__proto__` replaces the object's prototype.

## Findings

| source | as written | input that shows it | evidently intended | confidence | as-written member | corrected member |
|---|---|---|---|---|---|---|
| dist/angular-validator.js:39 | `validatorName in _validators` is also true for names that the plain object `_validators` inherits from `Object.prototype` | `register(fn, 'toString')` on a fresh service throws the duplicate-name error | only a name registered earlier counts as a duplicate | high, not executed | ProtoLookup.ToStringRefused | Registry.RegisterFresh |
| dist/angular-validator.js:55-56 | `getValidator('constructor')` returns the inherited `Object` function, which is truthy. `initialize` then installs an adapter whose `fn` is undefined instead of logging the name | `hi-validate="constructor"` with no validator of that name | the name is logged and skipped | high, not executed | ProtoLookup.ConstructorNotReported | ProtoLookup.ConstructorLogged |

The rest of the model uses the own-key lookup of `Registry`.
