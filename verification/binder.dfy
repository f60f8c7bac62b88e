/** The `hiValidate` directive's link function: it reads the comma-separated
    `hi-validate` attribute, resolves each name in the registry and installs an
    adapter into the control's synchronous (`$validators`) or asynchronous
    (`$asyncValidators`) slot. The host's `ngModelController` becomes a plain
    record, and each installed closure becomes an `Adapter` record that
    `RunSync`, `InvokeAsync` and `Settle` interpret. */
module Binder {
  import opened Base
  import opened Js
  import opened Strings
  import opened Validation
  import opened Registry

  /** The closure `registerValidator` installs: it captures the validator's
      name together with the descriptor's `fn` and `context` at install time. */
  datatype Adapter = Adapter(name: Name, fn: ValidatorFn, context: JsValue)

  /** An entry of `$error.messages`: the empty object `{}` or the object a
      validator produced. */
  datatype Entry = EmptyObject | Stored(obj: Returned)

  /** The parts of `ngModelController` the directive touches: the two
      validator slots, `$error.messages` and `$dirty`. */
  datatype Control = Control(
    validators: map<Name, Adapter>,
    asyncValidators: map<Name, Adapter>,
    messages: map<Name, Entry>,
    dirty: bool)

  /** The control state after linking, and the names reported through
      `$log.error`, in the order they were reported. */
  datatype Binding = Binding(ctrl: Control, log: seq<Name>)

  /** What the synchronous adapter leaves behind: the control, and the value of
      `result.isValid` it returns (`None` when that property is undefined). */
  datatype SyncOutcome = SyncOutcome(ctrl: Control, valid: Option<bool>)

  /** Calling `.then` on a value that is not a promise throws a TypeError. */
  datatype AsyncError = NotThenable

  /** A control before any directive has touched it. */
  function Pristine(): Control {
    Control(map[], map[], map[], false)
  }

  /** The host marks a control dirty on the first user edit. */
  function MarkDirty(ctrl: Control): Control {
    ctrl.(dirty := true)
  }

  function AdapterFor(name: Name, d: Descriptor): Adapter {
    Adapter(name, d.fn, d.context)
  }

  /** `getValidators`: `attrs.hiValidate.split(',')` with every piece trimmed. */
  function GetValidators(attr: string): (names: seq<Name>)
    ensures |names| == Count(attr, ',') + 1
    ensures forall i :: 0 <= i < |names| ==> ',' !in names[i]
    ensures forall i :: 0 <= i < |names| ==>
      names[i] == [] || (!IsWhitespace(names[i][0]) && !IsWhitespace(names[i][|names[i]| - 1]))
    ensures forall i :: 0 <= i < |names| ==> names[i] == Trim(Split(attr, ',')[i])
  {
    var pieces := Split(attr, ',');
    seq(|pieces|, i requires 0 <= i < |pieces| => Trim(pieces[i]))
  }

  /** An attribute without whitespace is read back exactly: joining the names
      with `,` gives the attribute. */
  lemma GetValidatorsJoin(attr: string)
    requires forall c :: c in attr ==> !IsWhitespace(c)
    ensures Join(GetValidators(attr), ',') == attr
  {
    var pieces := Split(attr, ',');
    var names := GetValidators(attr);
    JoinSplit(attr, ',');
    forall i | 0 <= i < |pieces|
      ensures names[i] == pieces[i]
    {
      JoinedPieces(pieces, ',', i);
      TrimNoOp(pieces[i]);
    }
    assert names == pieces;
  }

  /** An attribute naming one validator, without commas or surrounding
      whitespace, reads as that single name. */
  lemma GetValidatorsSingle(name: Name)
    requires ',' !in name
    requires name == [] || (!IsWhitespace(name[0]) && !IsWhitespace(name[|name| - 1]))
    ensures GetValidators(name) == [name]
  {
    var names := GetValidators(name);
    SplitFree(name, ',');
    TrimNoOp(name);
    assert |names| == 1 && names[0] == name;
  }

  /** Every character of a piece occurs in the joined string. */
  lemma {:induction false} JoinedPieces(pieces: seq<string>, sep: char, i: int)
    requires 0 <= i < |pieces|
    ensures forall c :: c in pieces[i] ==> c in Join(pieces, sep)
  {
    if |pieces| > 1 && i > 0 {
      JoinedPieces(pieces[1..], sep, i - 1);
    }
  }

  /** `registerValidator(name, validator)`: install the adapter in the slot the
      descriptor's `async` flag selects, then reset `$error.messages` to `{}`. */
  function Install(ctrl: Control, name: Name, d: Descriptor): (c: Control)
    ensures c.messages == map[] && c.dirty == ctrl.dirty
    ensures Truthy(d.async) ==>
      && name in c.asyncValidators && c.asyncValidators[name] == AdapterFor(name, d)
      && c.validators == ctrl.validators
      && forall k :: k != name ==> Agrees(c.asyncValidators, ctrl.asyncValidators, k)
    ensures !Truthy(d.async) ==>
      && name in c.validators && c.validators[name] == AdapterFor(name, d)
      && c.asyncValidators == ctrl.asyncValidators
      && forall k :: k != name ==> Agrees(c.validators, ctrl.validators, k)
  {
    var a := AdapterFor(name, d);
    if Truthy(d.async) then
      ctrl.(asyncValidators := ctrl.asyncValidators[name := a], messages := map[])
    else
      ctrl.(validators := ctrl.validators[name := a], messages := map[])
  }

  /** `n` is bound to the same adapter, or absent, in both slot maps. */
  ghost predicate Agrees(m1: map<Name, Adapter>, m0: map<Name, Adapter>, n: Name) {
    (n in m1 <==> n in m0) && (n in m1 ==> m1[n] == m0[n])
  }

  /** Some requested name is registered, so some adapter gets installed. */
  ghost predicate AnyRegistered(reg: Registry, names: seq<Name>) {
    exists n :: n in names && n in reg.entries
  }

  /** `xs` is `ys` with some elements left out. */
  ghost predicate Subsequence<T>(xs: seq<T>, ys: seq<T>) {
    if |xs| == 0 then true
    else if |ys| == 0 then false
    else if xs[0] == ys[0] then Subsequence(xs[1..], ys[1..])
    else Subsequence(xs, ys[1..])
  }

  /** Dropping the head of `ys` keeps `xs` a subsequence of `[y] + ys`. */
  lemma {:induction false} SubsequenceCons<T>(xs: seq<T>, y: T, ys: seq<T>)
    requires Subsequence(xs, ys)
    ensures Subsequence(xs, [y] + ys)
    decreases |ys|, 1
  {
    var zs := [y] + ys;
    assert zs[1..] == ys;
    if |xs| > 0 && xs[0] == y {
      // The greedy match consumes `y`; the rest of `xs` still fits in `ys`.
      SubsequenceTail(xs, ys);
    }
  }

  /** The tail of a subsequence of `ys` is a subsequence of `ys`. */
  lemma {:induction false} SubsequenceTail<T>(xs: seq<T>, ys: seq<T>)
    requires |xs| > 0 && Subsequence(xs, ys)
    ensures Subsequence(xs[1..], ys)
    decreases |ys|, 0
  {
    assert |ys| > 0;
    if xs[0] == ys[0] {
      SubsequenceCons(xs[1..], ys[0], ys[1..]);
      assert [ys[0]] + ys[1..] == ys;
    } else {
      SubsequenceTail(xs, ys[1..]);
      SubsequenceCons(xs[1..], ys[0], ys[1..]);
      assert [ys[0]] + ys[1..] == ys;
    }
  }

  /** `initialize`'s `forEach` over the requested names: registered names are
      installed in order, unregistered ones are reported once per occurrence,
      in order, and skipped. */
  function Bind(reg: Registry, names: seq<Name>, ctrl: Control): (b: Binding)
    ensures b.ctrl.dirty == ctrl.dirty
    ensures AnyRegistered(reg, names) ==> b.ctrl.messages == map[]
    ensures !AnyRegistered(reg, names) ==> b.ctrl.messages == ctrl.messages
    ensures forall n :: multiset(b.log)[n] == if n in reg.entries then 0 else multiset(names)[n]
    ensures Subsequence(b.log, names)
    decreases |names|
  {
    if |names| == 0 then Binding(ctrl, [])
    else
      var n := names[0];
      assert names == [n] + names[1..];
      match GetValidator(reg, n)
      case Some(d) =>
        var b := Bind(reg, names[1..], Install(ctrl, n, d));
        assert Subsequence(b.log, names) by {
          SubsequenceCons(b.log, n, names[1..]);
        }
        b
      case None =>
        var b := Bind(reg, names[1..], ctrl);
        assert ([n] + b.log)[1..] == b.log;
        Binding(b.ctrl, [n] + b.log)
  }

  /** The adapter entries `Bind` leaves in one slot: every requested name
      registered with the matching kind maps to an adapter over the registered
      `fn` and `context`; every other entry is as it was. */
  ghost predicate SlotAfter(reg: Registry, names: seq<Name>, async: bool,
                            before: map<Name, Adapter>, after: map<Name, Adapter>)
  {
    forall n ::
      if n in names && n in reg.entries && Truthy(reg.entries[n].async) == async
      then n in after && after[n] == AdapterFor(n, reg.entries[n])
      else Agrees(after, before, n)
  }

  /** The control after binding the first name, whether or not it is registered. */
  function Step(reg: Registry, ctrl: Control, n: Name): Control {
    if n in reg.entries then Install(ctrl, n, reg.entries[n]) else ctrl
  }

  lemma BindStep(reg: Registry, names: seq<Name>, ctrl: Control)
    requires |names| > 0
    ensures Bind(reg, names, ctrl).ctrl == Bind(reg, names[1..], Step(reg, ctrl, names[0])).ctrl
  {
  }

  /** Binding fills the synchronous slot `$validators` as `SlotAfter` says. */
  lemma {:induction false} BindSyncSlot(reg: Registry, names: seq<Name>, ctrl: Control)
    ensures SlotAfter(reg, names, false, ctrl.validators, Bind(reg, names, ctrl).ctrl.validators)
    decreases |names|
  {
    if |names| > 0 {
      var n0 := names[0];
      var rest := names[1..];
      assert names == [n0] + rest;
      var next := Step(reg, ctrl, n0);
      var after := Bind(reg, names, ctrl).ctrl.validators;
      BindStep(reg, names, ctrl);
      BindSyncSlot(reg, rest, next);
      forall n ensures
        if n in names && n in reg.entries && Truthy(reg.entries[n].async) == false
        then n in after && after[n] == AdapterFor(n, reg.entries[n])
        else Agrees(after, ctrl.validators, n)
      {
        assert n in names <==> n == n0 || n in rest;
        assert n != n0 ==> Agrees(next.validators, ctrl.validators, n);
      }
    }
  }

  /** Binding fills the asynchronous slot `$asyncValidators` as `SlotAfter` says. */
  lemma {:induction false} BindAsyncSlot(reg: Registry, names: seq<Name>, ctrl: Control)
    ensures SlotAfter(reg, names, true, ctrl.asyncValidators, Bind(reg, names, ctrl).ctrl.asyncValidators)
    decreases |names|
  {
    if |names| > 0 {
      var n0 := names[0];
      var rest := names[1..];
      assert names == [n0] + rest;
      var next := Step(reg, ctrl, n0);
      var after := Bind(reg, names, ctrl).ctrl.asyncValidators;
      BindStep(reg, names, ctrl);
      BindAsyncSlot(reg, rest, next);
      forall n ensures
        if n in names && n in reg.entries && Truthy(reg.entries[n].async) == true
        then n in after && after[n] == AdapterFor(n, reg.entries[n])
        else Agrees(after, ctrl.asyncValidators, n)
      {
        assert n in names <==> n == n0 || n in rest;
        assert n != n0 ==> Agrees(next.asyncValidators, ctrl.asyncValidators, n);
      }
    }
  }

  /** `initialize`: bind every name the attribute lists. */
  function Initialize(reg: Registry, attr: string, ctrl: Control): Binding {
    Bind(reg, GetValidators(attr), ctrl)
  }

  /** On a control no directive has touched, every requested registered name
      lands in exactly one slot, the one its `async` flag selects; the two
      slots hold nothing else; and exactly the unregistered names are logged. */
  lemma InitializeSlots(reg: Registry, attr: string)
    ensures var b := Initialize(reg, attr, Pristine());
      var names := GetValidators(attr);
      && (forall n :: !(n in b.ctrl.validators && n in b.ctrl.asyncValidators))
      && (forall n :: n in b.ctrl.validators <==>
            n in names && n in reg.entries && !Truthy(reg.entries[n].async))
      && (forall n :: n in b.ctrl.asyncValidators <==>
            n in names && n in reg.entries && Truthy(reg.entries[n].async))
      && (forall n :: n in names ==> (n in b.log <==> n !in reg.entries))
  {
    var names := GetValidators(attr);
    var b := Bind(reg, names, Pristine());
    assert b == Initialize(reg, attr, Pristine());
    BindSyncSlot(reg, names, Pristine());
    BindAsyncSlot(reg, names, Pristine());
    forall n
      ensures n in b.ctrl.validators <==>
        n in names && n in reg.entries && !Truthy(reg.entries[n].async)
      ensures n in b.ctrl.asyncValidators <==>
        n in names && n in reg.entries && Truthy(reg.entries[n].async)
    {
      assert Agrees(b.ctrl.validators, map[], n) || n in names;
    }
    forall n | n in names
      ensures n in b.log <==> n !in reg.entries
    {
      assert multiset(names)[n] > 0;
    }
  }

  /** The value handed to the validator: `modalValue || viewValue`. */
  function SelectValue(modelValue: JsValue, viewValue: JsValue): (v: JsValue)
    ensures Truthy(modelValue) ==> v == modelValue
    ensures !Truthy(modelValue) ==> v == viewValue
  {
    Or(modelValue, viewValue)
  }

  /** `ctrl.$dirty ? result : {}`. */
  function Gate(dirty: bool, obj: Returned): Entry {
    if dirty then Stored(obj) else EmptyObject
  }

  /** `result.isValid`: a promise has no such property. */
  function IsValidField(obj: Returned): Option<bool> {
    match obj
    case Plain(r) => Some(r.isValid)
    case Deferred(_) => None
  }

  /** `syncValidateFn(modalValue, viewValue)`. */
  function RunSync(ctrl: Control, a: Adapter, modelValue: JsValue, viewValue: JsValue): (o: SyncOutcome)
    ensures var result := a.fn(a.context, if Truthy(modelValue) then modelValue else viewValue);
      && (result.Plain? ==> o.valid == Some(result.result.isValid))
      && (result.Deferred? ==> o.valid == None)
      && a.name in o.ctrl.messages
      && (ctrl.dirty ==> o.ctrl.messages[a.name] == Stored(result))
      && (!ctrl.dirty ==> o.ctrl.messages[a.name] == EmptyObject)
    ensures o.ctrl.messages.Keys == ctrl.messages.Keys + {a.name}
    ensures forall k :: k in ctrl.messages && k != a.name ==> o.ctrl.messages[k] == ctrl.messages[k]
    ensures o.ctrl.validators == ctrl.validators && o.ctrl.asyncValidators == ctrl.asyncValidators
    ensures o.ctrl.dirty == ctrl.dirty
  {
    var result := a.fn(a.context, SelectValue(modelValue, viewValue));
    SyncOutcome(ctrl.(messages := ctrl.messages[a.name := Gate(ctrl.dirty, result)]), IsValidField(result))
  }

  /** `asyncValidateFn(modalValue, viewValue)`: the validator's promise is handed
      back unchanged; a plain object makes `result.then(...)` throw. Nothing is
      written until the promise settles (see `Settle`). */
  function InvokeAsync(a: Adapter, modelValue: JsValue, viewValue: JsValue): (r: Result<Settled, AsyncError>)
    ensures var result := a.fn(a.context, if Truthy(modelValue) then modelValue else viewValue);
      && (result.Deferred? ==> r == Success(result.promise))
      && (result.Plain? ==> r == Failure(NotThenable))
  {
    match a.fn(a.context, SelectValue(modelValue, viewValue))
    case Deferred(p) => Success(p)
    case Plain(_) => Failure(NotThenable)
  }

  /** The two callbacks passed to `then`: on resolution and on rejection alike
      the settled value is written under the adapter's name, gated on the
      control being dirty when the promise settles. */
  function Settle(ctrl: Control, a: Adapter, outcome: Settled): (c: Control)
    ensures c.messages.Keys == ctrl.messages.Keys + {a.name}
    ensures ctrl.dirty ==> c.messages[a.name] == Stored(Plain(outcome.value))
    ensures !ctrl.dirty ==> c.messages[a.name] == EmptyObject
    ensures forall k :: k in ctrl.messages && k != a.name ==> c.messages[k] == ctrl.messages[k]
    ensures c.validators == ctrl.validators && c.asyncValidators == ctrl.asyncValidators
    ensures c.dirty == ctrl.dirty
  {
    match outcome
    case Resolved(resp) => ctrl.(messages := ctrl.messages[a.name := Gate(ctrl.dirty, Plain(resp))])
    case Rejected(resp) => ctrl.(messages := ctrl.messages[a.name := Gate(ctrl.dirty, Plain(resp))])
  }

  /** What gets written does not depend on whether the promise resolved or
      rejected. */
  lemma SettleEitherWay(ctrl: Control, a: Adapter, v: ValidationResult)
    ensures Settle(ctrl, a, Resolved(v)) == Settle(ctrl, a, Rejected(v))
  {
  }

  /** Through the directive, a registered synchronous validator sees the same
      value and yields the same result as calling the registered function
      directly with the selected value and its own context. */
  lemma AdapterMatchesDirectCall(reg: Registry, name: Name, attr: string, ctrl: Control,
                                 modelValue: JsValue, viewValue: JsValue)
    requires name in GetValidators(attr)
    requires GetValidator(reg, name).Some? && !Truthy(GetValidator(reg, name).value.async)
    ensures var d := GetValidator(reg, name).value;
      var direct := d.fn(d.context, SelectValue(modelValue, viewValue));
      var c := MarkDirty(Initialize(reg, attr, ctrl).ctrl);
      && name in c.validators
      && c.validators[name] == AdapterFor(name, d)
      && RunSync(c, c.validators[name], modelValue, viewValue).ctrl.messages[name] == Stored(direct)
      && RunSync(c, c.validators[name], modelValue, viewValue).valid == IsValidField(direct)
  {
    var c := MarkDirty(Initialize(reg, attr, ctrl).ctrl);
    var names := GetValidators(attr);
    BindSyncSlot(reg, names, ctrl);
    assert Initialize(reg, attr, ctrl) == Bind(reg, names, ctrl);
  }
}
