/** Name lookup as the service writes it. `_validators` is a plain object
    literal and both `register` and `getValidator` test `name in _validators`,
    which also finds the properties every object inherits from
    `Object.prototype`. This module models that lookup and exhibits the two
    consequences; the rest of the model uses the own-key lookup of `Registry`,
    which is what the service's documentation describes. */
module ProtoLookup {
  import opened Base
  import opened Js
  import opened Strings
  import opened Validation
  import opened Registry
  import opened Binder

  /** The property names a plain object inherits from `Object.prototype`. */
  const ObjectPrototypeNames: set<string> := {
    "constructor", "hasOwnProperty", "isPrototypeOf", "propertyIsEnumerable",
    "toLocaleString", "toString", "valueOf", "__proto__",
    "__defineGetter__", "__defineSetter__", "__lookupGetter__", "__lookupSetter__"
  }

  /** `name in _validators` as written: own keys and inherited properties. */
  predicate InAsWritten(reg: Registry, name: Name) {
    name in reg.entries || name in ObjectPrototypeNames
  }

  /** What `_validators[name]` yields as written: a stored descriptor, an
      inherited member of `Object.prototype` (always a truthy object), or `null` (`Missing`). */
  datatype Lookup = Own(descriptor: Descriptor) | Inherited(member: Name) | Missing

  /** `_registerValidator` with the prototype-chain test. */
  function RegisterAsWritten(reg: Registry, fn: ValidatorFn, name: Name, context: JsValue,
                             async: JsValue, override: JsValue): (r: Result<Registry, RegisterError>)
    ensures r.Failure? <==> InAsWritten(reg, name) && !Truthy(override)
    ensures r.Success? ==> r == Register(reg, fn, name, context, async, override)
  {
    if InAsWritten(reg, name) && !Truthy(override) then
      Failure(DuplicateName(name))
    else
      Success(Registry(reg.entries[name := Descriptor(fn, context, Or(async, Bool(false)))]))
  }

  /** `_getValidatorByName` with the prototype-chain test. */
  function GetValidatorAsWritten(reg: Registry, name: Name): (r: Lookup)
    ensures r.Missing? <==> !InAsWritten(reg, name)
    ensures r.Own? <==> GetValidator(reg, name).Some?
    ensures r.Own? ==> r.descriptor == GetValidator(reg, name).value
  {
    if name in reg.entries then Own(reg.entries[name])
    else if name in ObjectPrototypeNames then Inherited(name)
    else Missing
  }

  /** On a fresh registry, registering `toString` without `override` throws
      as written, although no validator of that name exists; the own-key
      registry accepts it. */
  lemma ToStringRefused(fn: ValidatorFn)
    ensures RegisterAsWritten(Empty(), fn, "toString", Undefined, Undefined, Undefined)
      == Failure(DuplicateName("toString"))
    ensures Register(Empty(), fn, "toString", Undefined, Undefined, Undefined).Success?
  {
    assert "toString" in ObjectPrototypeNames;
  }

  /** On a fresh registry, the lookup behind `hi-validate="constructor"`
      finds a truthy value as written, so `initialize` logs nothing and
      installs an adapter around `Object`, a function with no `fn`. */
  lemma ConstructorNotReported()
    ensures GetValidatorAsWritten(Empty(), "constructor") == Inherited("constructor")
    ensures !GetValidatorAsWritten(Empty(), "constructor").Missing?
  {
    assert "constructor" in ObjectPrototypeNames;
  }

  /** With the own-key lookup the same attribute reports `constructor` once
      and leaves the control untouched. */
  lemma ConstructorLogged()
    ensures Initialize(Empty(), "constructor", Pristine()) == Binding(Pristine(), ["constructor"])
  {
    GetValidatorsSingle("constructor");
    BindConstructor();
  }

  lemma BindConstructor()
    ensures Bind(Empty(), ["constructor"], Pristine()) == Binding(Pristine(), ["constructor"])
  {
    assert ["constructor"][1..] == [];
  }

  /** Away from inherited names the two lookups agree. */
  lemma AgreeOffPrototype(reg: Registry, fn: ValidatorFn, name: Name, context: JsValue,
                          async: JsValue, override: JsValue)
    requires name !in ObjectPrototypeNames
    ensures RegisterAsWritten(reg, fn, name, context, async, override)
      == Register(reg, fn, name, context, async, override)
    ensures GetValidatorAsWritten(reg, name).Missing? <==> GetValidator(reg, name).None?
  {
  }
}
