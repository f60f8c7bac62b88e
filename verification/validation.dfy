/** What a validator function produces. Validators are duck-typed in the
    source: a synchronous one returns `{isValid, errorMessage?}`, an
    asynchronous one returns a promise that settles with such an object. */
module Validation {
  import opened Base
  import opened Js

  /** `{isValid, errorMessage?}`; an absent `errorMessage` is `None`. */
  datatype ValidationResult = ValidationResult(isValid: bool, errorMessage: Option<string>)

  /** A promise, identified with the way it eventually settles. */
  datatype Settled = Resolved(value: ValidationResult) | Rejected(value: ValidationResult)

  /** The value a validator function returns: a plain result object or a promise. */
  datatype Returned = Plain(result: ValidationResult) | Deferred(promise: Settled)

  /** A validator function, called as `fn.call(context, value)`: its first
      argument is the receiver `this`, its second the value under validation. */
  type ValidatorFn = (JsValue, JsValue) -> Returned
}
