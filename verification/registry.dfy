/** The `hiValidatorService` registry: a map from validator name to the
    descriptor `{fn, context, async}` stored by `register`. Names are looked
    up as own keys of the map; see `ProtoLookup` for the prototype-chain
    lookup the source performs. */
module Registry {
  import opened Base
  import opened Js
  import opened Validation

  type Name = string

  /** `{fn, context, async}`: `async` keeps the JavaScript value `async || false`. */
  datatype Descriptor = Descriptor(fn: ValidatorFn, context: JsValue, async: JsValue)

  datatype Registry = Registry(entries: map<Name, Descriptor>)

  /** The exception `register` throws on a duplicate name without `override`. */
  datatype RegisterError = DuplicateName(name: Name)

  /** The registry the service starts with. */
  function Empty(): (r: Registry)
    ensures forall n :: n !in r.entries
  {
    Registry(map[])
  }

  /** `register(validator, validatorName, context, async, override)`: arguments
      a caller leaves out are `Undefined`. */
  function Register(reg: Registry, fn: ValidatorFn, name: Name, context: JsValue,
                    async: JsValue, override: JsValue): (r: Result<Registry, RegisterError>)
    ensures r.Failure? <==> name in reg.entries && !Truthy(override)
    ensures r.Failure? ==> r.error == DuplicateName(name)
    ensures r.Success? ==>
      && r.value.entries.Keys == reg.entries.Keys + {name}
      && r.value.entries[name].fn == fn
      && r.value.entries[name].context == context
      && Truthy(r.value.entries[name].async) == Truthy(async)
      && (!Truthy(async) ==> r.value.entries[name].async == Bool(false))
      && (Truthy(async) ==> r.value.entries[name].async == async)
      && forall m :: m in reg.entries && m != name ==> r.value.entries[m] == reg.entries[m]
  {
    if name in reg.entries && !Truthy(override) then
      Failure(DuplicateName(name))
    else
      Success(Registry(reg.entries[name := Descriptor(fn, context, Or(async, Bool(false)))]))
  }

  /** `getValidator(name)`: the stored descriptor, or `null` (`None`). */
  function GetValidator(reg: Registry, name: Name): (r: Option<Descriptor>)
    ensures r.Some? <==> name in reg.entries
    ensures r.Some? ==> r.value == reg.entries[name]
  {
    if name in reg.entries then Some(reg.entries[name]) else None
  }

  /** A fresh name is accepted and afterwards looked up as the new descriptor,
      with `async` defaulting to `false`; every other lookup is unchanged. */
  lemma RegisterFresh(reg: Registry, fn: ValidatorFn, name: Name, context: JsValue,
                      async: JsValue, override: JsValue)
    requires name !in reg.entries
    ensures Register(reg, fn, name, context, async, override).Success?
    ensures var reg' := Register(reg, fn, name, context, async, override).value;
      && |reg'.entries| == |reg.entries| + 1
      && GetValidator(reg', name) == Some(Descriptor(fn, context, Or(async, Bool(false))))
      && (async == Undefined ==> GetValidator(reg', name).value.async == Bool(false))
      && forall m :: m != name ==> GetValidator(reg', m) == GetValidator(reg, m)
  {
    var reg' := Register(reg, fn, name, context, async, override).value;
    assert reg'.entries.Keys == reg.entries.Keys + {name};
  }

  /** A taken name without a truthy `override` is refused and the registry
      (the caller's value) stays as it was. */
  lemma RegisterDuplicate(reg: Registry, fn: ValidatorFn, name: Name, context: JsValue,
                          async: JsValue, override: JsValue)
    requires name in reg.entries && !Truthy(override)
    ensures Register(reg, fn, name, context, async, override) == Failure(DuplicateName(name))
    ensures GetValidator(reg, name) == Some(reg.entries[name])
  {
  }

  /** With a truthy `override` a taken name is replaced: a later lookup yields
      the new descriptor and the set of names does not grow. */
  lemma RegisterOverride(reg: Registry, fn: ValidatorFn, name: Name, context: JsValue,
                         async: JsValue, override: JsValue)
    requires name in reg.entries && Truthy(override)
    ensures Register(reg, fn, name, context, async, override).Success?
    ensures var reg' := Register(reg, fn, name, context, async, override).value;
      && reg'.entries.Keys == reg.entries.Keys
      && |reg'.entries| == |reg.entries|
      && GetValidator(reg', name) == Some(Descriptor(fn, context, Or(async, Bool(false))))
      && forall m :: m != name ==> GetValidator(reg', m) == GetValidator(reg, m)
  {
    var reg' := Register(reg, fn, name, context, async, override).value;
    assert reg'.entries.Keys == reg.entries.Keys;
  }
}
