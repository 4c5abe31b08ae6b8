/** Failure-compatible datatypes shared by the whole model. */
module Wrappers {

  /** A value that may be absent: Python's `None` or a value. */
  datatype Option<+T> = None | Some(value: T)

  /** Either a value or the exception the Python code would raise. */
  datatype Result<+R, +E> = Success(value: R) | Failure(error: E)

  /** Running a sequence of steps in order and stopping at the first that
      fails: all the values, or the position and error of the first failure. */
  function Collect<T, E>(rs: seq<Result<T, E>>): (r: Result<seq<T>, (nat, E)>)
    ensures r.Success? ==> |r.value| == |rs|
    ensures r.Success? ==> forall i :: 0 <= i < |rs| ==> rs[i] == Success(r.value[i])
    ensures r.Failure? ==> r.error.0 < |rs| && rs[r.error.0] == Failure(r.error.1)
    ensures r.Failure? ==> forall j :: 0 <= j < r.error.0 ==> rs[j].Success?
  {
    if |rs| == 0 then Success([])
    else
      var n := |rs|;
      var last: nat := n - 1;
      var init := rs[..last];
      assert forall j :: 0 <= j < n - 1 ==> init[j] == rs[j];
      match Collect(init)
      case Failure(e) => Failure(e)
      case Success(vs) =>
        match rs[n - 1]
        case Failure(e) => Failure((last, e))
        case Success(v) =>
          assert forall i :: 0 <= i < n - 1 ==> (vs + [v])[i] == vs[i];
          Success(vs + [v])
  }
}
