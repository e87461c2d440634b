/** Small failure-carrying datatypes shared by the whole model. */
module Wrappers {

  /** A value that may be absent (a regular expression that did not match, a date that did not parse). */
  datatype Option<+T> = None | Some(value: T)

  /** The outcome of a step where the analyser raises an exception: a value, or the reason it failed. */
  datatype Result<+T> = Ok(value: T) | Err(reason: string)

  /** Every element of `xs` is accepted by the partial reader `f`. */
  ghost predicate AllSome<T, U>(xs: seq<T>, f: T -> Option<U>) {
    forall k :: 0 <= k < |xs| ==> f(xs[k]).Some?
  }

  /**
   * Reads every element of `xs` with `f`, in order; absent as soon as one
   * element does not read (a loop that raises on its first bad element).
   */
  function ReadAll<T, U>(xs: seq<T>, f: T -> Option<U>): (r: Option<seq<U>>)
    ensures r.Some? <==> AllSome(xs, f)
    ensures r.Some? ==> |r.value| == |xs| && forall k :: 0 <= k < |xs| ==> f(xs[k]) == Some(r.value[k])
  {
    if |xs| == 0 then
      Some([])
    else
      assert forall k :: 1 <= k < |xs| ==> xs[k] == xs[1..][k - 1];
      match f(xs[0])
      case None => None
      case Some(y) =>
        match ReadAll(xs[1..], f)
        case None => None
        case Some(ys) => Some([y] + ys)
  }

  /** The position of the first element of `xs` that `f` does not read. */
  function FirstNone<T, U>(xs: seq<T>, f: T -> Option<U>): (i: nat)
    requires !AllSome(xs, f)
    ensures i < |xs| && f(xs[i]).None?
    ensures forall j :: 0 <= j < i ==> f(xs[j]).Some?
  {
    if f(xs[0]).None? then
      0
    else
      assert forall k :: 1 <= k < |xs| ==> xs[k] == xs[1..][k - 1];
      1 + FirstNone(xs[1..], f)
  }
}
