/** Option and Result, the two failure-carrying shapes the model uses:
    Python's `None` and a raised exception. */
module Wrappers {

  datatype Option<+T> = None | Some(value: T)

  datatype Result<+T, +E> = Ok(value: T) | Err(error: E)

  /** The values of `rs` when every one succeeded, otherwise the error of
      the first that failed: what a loop that stops at the first exception
      yields. */
  function AllOk<T, E>(rs: seq<Result<T, E>>): (r: Result<seq<T>, E>)
    ensures r.Ok? <==> forall k :: 0 <= k < |rs| ==> rs[k].Ok?
    ensures r.Ok? ==> |r.value| == |rs|
    ensures r.Ok? ==> forall k :: 0 <= k < |rs| ==> rs[k] == Ok(r.value[k])
    ensures r.Err? ==> exists i :: (0 <= i < |rs| && rs[i].Err? && r.error == rs[i].error
      && forall j :: 0 <= j < i ==> rs[j].Ok?)
  {
    if rs == [] then Ok([])
    else
      var n := |rs| - 1;
      assert forall k :: 0 <= k < n ==> rs[..n][k] == rs[k];
      match AllOk(rs[..n])
      case Err(e) => Err(e)
      case Ok(vs) =>
        match rs[n]
        case Err(e) => Err(e)
        case Ok(v) => Ok(vs + [v])
  }

  lemma FirstError<T, E>(rs: seq<Result<T, E>>, i: nat)
    requires i < |rs| && AllOk(rs[..i]).Ok? && rs[i].Err?
    ensures AllOk(rs) == Err(rs[i].error)
  {
    assert forall k :: 0 <= k < i ==> rs[..i][k] == rs[k];
    var j :| 0 <= j < |rs| && rs[j].Err? && AllOk(rs).error == rs[j].error
      && forall m :: 0 <= m < j ==> rs[m].Ok?;
    assert j == i;
  }

  /** One more `Ok` result appends its value. */
  lemma AllOkSnoc<T, E>(rs: seq<Result<T, E>>, vs: seq<T>, i: nat)
    requires i < |rs| && rs[i].Ok? && AllOk(rs[..i]) == Ok(vs)
    ensures AllOk(rs[..i + 1]) == Ok(vs + [rs[i].value])
  {
    assert rs[..i + 1][..i] == rs[..i];
  }

  /** When every result is `Ok`, `AllOk` collects exactly their values. */
  lemma AllValues<T, E>(rs: seq<Result<T, E>>, vs: seq<T>)
    requires |rs| == |vs| && forall k :: 0 <= k < |rs| ==> rs[k] == Ok(vs[k])
    ensures AllOk(rs) == Ok(vs)
  {
    assert forall k :: 0 <= k < |rs| ==> rs[k].Ok?;
    var r := AllOk(rs);
    assert forall k :: 0 <= k < |rs| ==> r.value[k] == vs[k];
    assert r.value == vs;
  }

  function Min(a: int, b: int): int
  {
    if a <= b then a else b
  }
}
