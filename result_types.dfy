/** The repository's Result monad (`Ok` / `Err`), used by the model for every
    operation whose source raises instead of returning. */
module ResultTypes {
  import Prelude

  datatype Result<T, E> = Ok(value: T) | Err(error: E) {

    /** `is_ok`: True for Ok, False for Err; always the negation of `is_err`. */
    predicate IsOk()
      ensures IsOk() <==> !IsErr()
    {
      Ok?
    }

    /** `is_err`: True exactly for a value that is not Ok. */
    predicate IsErr()
      ensures IsErr() <==> !Ok?
    {
      Err?
    }

    /** `map`: applies `f` to an Ok value, passes an Err through. */
    function Map<U>(f: T -> U): (r: Result<U, E>)
      ensures r.IsOk() <==> IsOk()
      ensures IsOk() ==> r.value == f(value)
      ensures IsErr() ==> r.error == error
    {
      match this
      case Ok(v) => Ok(f(v))
      case Err(e) => Err(e)
    }

    /** `map_err`: applies `f` to an Err value, passes an Ok through. */
    function MapErr<F>(f: E -> F): (r: Result<T, F>)
      ensures r.IsOk() <==> IsOk()
      ensures IsOk() ==> r.value == value
      ensures IsErr() ==> r.error == f(error)
    {
      match this
      case Ok(v) => Ok(v)
      case Err(e) => Err(f(e))
    }

    /** `and_then`: chains a step that may fail. */
    function AndThen<U>(f: T -> Result<U, E>): (r: Result<U, E>)
      ensures IsOk() ==> r == f(value)
      ensures IsErr() ==> r == Err(error)
    {
      match this
      case Ok(v) => f(v)
      case Err(e) => Err(e)
    }

    /** `unwrap`: the Ok value; an Err raises RuntimeError. */
    function Unwrap(): (r: Result<T, Prelude.Exception>)
      ensures r.IsOk() <==> IsOk()
      ensures IsOk() ==> r.value == value
      ensures IsErr() ==> r.error == Prelude.RuntimeError
    {
      match this
      case Ok(v) => Ok(v)
      case Err(_) => Err(Prelude.RuntimeError)
    }

    /** `unwrap_or`: the Ok value or the default. */
    function UnwrapOr(default: T): (r: T)
      ensures IsOk() ==> r == value
      ensures IsErr() ==> r == default
    {
      match this
      case Ok(v) => v
      case Err(_) => default
    }
  }

  /** Mapping the identity changes nothing. */
  lemma MapIdentity<T, E>(r: Result<T, E>)
    ensures r.Map(x => x) == r
  {
  }

  /** Mapping twice is mapping the composition. */
  lemma MapCompose<T, U, V, E>(r: Result<T, E>, f: T -> U, g: U -> V)
    ensures r.Map(f).Map(g) == r.Map(x => g(f(x)))
  {
  }

  /** `Ok` is a left and right unit of `and_then`. */
  lemma AndThenUnits<T, U, E>(v: T, f: T -> Result<U, E>, r: Result<T, E>)
    ensures Result<T, E>.Ok(v).AndThen(f) == f(v)
    ensures r.AndThen(x => Result<T, E>.Ok(x)) == r
  {
  }

  /** `and_then` is associative. */
  lemma AndThenAssociative<T, U, V, E>(r: Result<T, E>, f: T -> Result<U, E>, g: U -> Result<V, E>)
    ensures r.AndThen(f).AndThen(g) == r.AndThen(x => f(x).AndThen(g))
  {
  }

  /** `unwrap_or` of an Ok ignores the default, and `map` is `and_then` of `Ok` after `f`. */
  lemma MapIsAndThen<T, U, E>(r: Result<T, E>, f: T -> U)
    ensures r.Map(f) == r.AndThen(x => Result<U, E>.Ok(f(x)))
  {
  }

  /** `unwrap` and `unwrap_or` agree on an Ok, and unwrapping commutes with `map`. */
  lemma UnwrapAgrees<T, U, E>(r: Result<T, E>, default: T, f: T -> U)
    ensures r.IsOk() ==> r.Unwrap() == Ok(r.UnwrapOr(default))
    ensures r.Map(f).Unwrap() == r.Unwrap().Map(f)
  {
  }
}
