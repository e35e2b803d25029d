/**
 * Field validators: callables built with a length bound that accept or reject a value by its
 * length alone. Calling one reads only the bound it was built with.
 */
module Validators {

  datatype Validator =
    | MaxLength(maxLength: int)
    | MinLength(minLength: int)
  {
    /** `validator(value)`: the value's length compared with the stored bound, inclusively. */
    predicate Accepts<T>(value: seq<T>) {
      match this
      case MaxLength(n) => |value| <= n
      case MinLength(n) => |value| >= n
    }
  }

  /** Both bounds are inclusive: a value passes MaxLength(n) and MinLength(n) exactly when its length is n. */
  lemma BothBoundsExactly<T>(n: int, value: seq<T>)
    ensures MaxLength(n).Accepts(value) && MinLength(n).Accepts(value) <==> |value| == n
  {
  }

  /** A MaxLength validator accepts every prefix of a value it accepts, and a looser bound accepts it too. */
  lemma MaxLengthMonotone<T>(n: int, m: int, value: seq<T>, k: nat)
    requires MaxLength(n).Accepts(value) && n <= m && k <= |value|
    ensures MaxLength(n).Accepts(value[..k]) && MaxLength(m).Accepts(value)
  {
  }

  /** A MinLength validator accepts every extension of a value it accepts, and a looser bound accepts it too. */
  lemma MinLengthMonotone<T>(n: int, m: int, value: seq<T>, more: seq<T>)
    requires MinLength(n).Accepts(value) && m <= n
    ensures MinLength(n).Accepts(value + more) && MinLength(m).Accepts(value)
  {
  }

  /** MinLength(0) accepts everything; MaxLength with a negative bound accepts nothing. */
  lemma DegenerateBounds<T>(n: int, value: seq<T>)
    ensures MinLength(0).Accepts(value)
    ensures n < 0 ==> !MaxLength(n).Accepts(value)
  {
  }
}
