/** The few pieces of Python list semantics that respiration_phase.py relies on:
    exceptions as an error value, `list.index`, and indexing that accepts negative positions. */
module PyLists {

  /** The exceptions the modelled code can raise. */
  datatype PyError = IndexError | ValueError | ZeroDivisionError | UnboundLocalError

  /** The outcome of a Python call: a value, or the exception it raised. */
  datatype Result<T> = Ok(value: T) | Err(error: PyError)

  /** `s.index(x)`: the position of the first occurrence of `x` in `s`; an
      absent `x` raises ValueError. */
  function Index<T(==)>(s: seq<T>, x: T): (r: Result<nat>)
    ensures r.Ok? ==> r.value < |s| && s[r.value] == x && forall j :: 0 <= j < r.value ==> s[j] != x
    ensures r.Err? ==> r.error == ValueError && forall j :: 0 <= j < |s| ==> s[j] != x
  {
    if |s| == 0 then Err(ValueError)
    else if s[0] == x then Ok(0)
    else
      match Index(s[1..], x)
      case Ok(k) => assert s[1..][k] == s[k + 1]; Ok(k + 1)
      case Err(e) => assert forall j :: 0 < j < |s| ==> s[j] == s[1..][j - 1]; Err(e)
  }

  /** `s[i]`, where a negative `i` counts from the end and an index outside
      `-len(s) .. len(s) - 1` raises IndexError. */
  function At<T>(s: seq<T>, i: int): (r: Result<T>)
  {
    if 0 <= i < |s| then Ok(s[i])
    else if -|s| <= i < 0 then Ok(s[|s| + i])
    else Err(IndexError)
  }

  predicate StrictlyIncreasing(s: seq<real>)
  {
    forall i, j :: 0 <= i < j < |s| ==> s[i] < s[j]
  }

  /** In a strictly increasing list, `index` finds every element at its own position. */
  lemma IndexOfIncreasing(s: seq<real>, k: nat)
    requires StrictlyIncreasing(s) && k < |s|
    ensures Index(s, s[k]) == Ok(k)
  {
  }
}
