/** The test suite's `validatePassword` validator and the scenario it drives:
    the validator registered as `password`, a control bound with
    `hi-validate="password"`, then `pass` and `passw` typed into it. */
module Password {
  import opened Base
  import opened Js
  import opened Strings
  import opened Validation
  import opened Registry
  import opened Binder

  const PasswordMessage: string := "Password must be of 5 character"

  /** `value.length < k`: only strings carry a length here; for any other
      value the property is undefined and `undefined < k` is false. */
  predicate LengthBelow(value: JsValue, k: nat) {
    match value
    case Str(s) => |s| < k
    case _ => false
  }

  /** `validatePassword(value)`. */
  function ValidatePassword(value: JsValue): (r: ValidationResult)
    ensures !Truthy(value) ==> r == ValidationResult(false, Some(PasswordMessage))
    ensures value.Str? ==> (r.isValid <==> |value.s| >= 5)
    ensures !value.Str? ==> (r.isValid <==> Truthy(value))
    ensures r.isValid <==> r.errorMessage.None?
    ensures !r.isValid ==> r.errorMessage == Some(PasswordMessage)
  {
    if !Truthy(value) || LengthBelow(value, 5) then
      ValidationResult(false, Some(PasswordMessage))
    else
      ValidationResult(true, None)
  }

  /** `validatePassword` as a validator function: it ignores its receiver. */
  function PasswordFn(): ValidatorFn {
    (receiver: JsValue, value: JsValue) => Plain(ValidatePassword(value))
  }

  /** The registry after `register(validatePassword, 'password')`. */
  function TestRegistry(): Registry {
    Registry(map["password" := Descriptor(PasswordFn(), Undefined, Bool(false))])
  }

  /** The adapter the directive installs for `password`. */
  function PasswordAdapter(): Adapter {
    Adapter("password", PasswordFn(), Undefined)
  }

  /** The control after linking `hi-validate="password"`. */
  function Linked(): Control {
    Pristine().(validators := map["password" := PasswordAdapter()])
  }

  /** Registering on a fresh registry succeeds, with `async` defaulting to
      `false`, and yields the test registry. */
  lemma SetupRegisters()
    ensures Register(Empty(), PasswordFn(), "password", Undefined, Undefined, Undefined)
      == Success(TestRegistry())
  {
  }

  /** Linking `hi-validate="password"` reads the single name `password`,
      installs its adapter in the synchronous slot only and logs nothing. */
  lemma LinkPassword()
    ensures GetValidators("password") == ["password"]
    ensures Initialize(TestRegistry(), "password", Pristine()) == Binding(Linked(), [])
  {
    GetValidatorsSingle("password");
    BindPassword();
  }

  lemma BindPassword()
    ensures Bind(TestRegistry(), ["password"], Pristine()) == Binding(Linked(), [])
  {
    var reg := TestRegistry();
    var installed := Install(Pristine(), "password", reg.entries["password"]);
    assert installed == Linked();
    assert ["password"][1..] == [];
    assert Bind(reg, ["password"], Pristine()) == Bind(reg, [], installed);
  }

  /** The host validates the pristine control once while linking, with no
      value: the validator fails, but only `{}` is recorded. */
  lemma PristineRecordsNothing()
    ensures RunSync(Linked(), PasswordAdapter(), Undefined, Undefined)
      == SyncOutcome(Linked().(messages := map["password" := EmptyObject]), Some(false))
  {
  }

  /** Typing `text` into the dirty control records the validator's verdict:
      under five characters it fails with the password message, from five on
      it passes with no message. */
  lemma TypedPassword(text: string, ctrl: Control)
    requires ctrl.validators == Linked().validators
    ensures var o := RunSync(MarkDirty(ctrl), PasswordAdapter(), Str(text), Str(text));
      && "password" in o.ctrl.messages
      && o.ctrl.messages["password"].Stored?
      && o.ctrl.messages["password"].obj.Plain?
      && var r := o.ctrl.messages["password"].obj.result;
      && (|text| < 5 ==> r.errorMessage == Some(PasswordMessage) && o.valid == Some(false))
      && (|text| >= 5 ==> r.isValid && r.errorMessage.None? && o.valid == Some(true))
  {
  }

  /** The two test cases: `pass` reports the message, `passw` reports valid. */
  lemma TestScenarios()
    ensures var pristine := RunSync(Linked(), PasswordAdapter(), Undefined, Undefined).ctrl;
      var short := RunSync(MarkDirty(pristine), PasswordAdapter(), Str("pass"), Str("pass")).ctrl;
      var long := RunSync(MarkDirty(pristine), PasswordAdapter(), Str("passw"), Str("passw")).ctrl;
      && short.messages == map["password" := Stored(Plain(ValidationResult(false, Some(PasswordMessage))))]
      && long.messages == map["password" := Stored(Plain(ValidationResult(true, None)))]
  {
    PristineRecordsNothing();
  }
}
