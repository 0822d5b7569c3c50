/** Failure-compatible wrappers shared by every module of the model.
    The report code signals failure by raising Python exceptions; the model
    returns `Err` carrying the exception class instead. */
module Errors {

  /** The exception classes the modelled code can raise. */
  datatype Error =
    | ValueError      // bad date, bad "HH:MM" text, negative duration
    | AttributeError  // `.get` called on a null adjustment reason
    | KeyError        // a column looked up in a frame that has no columns

  datatype Option<+T> = None | Some(value: T)

  datatype Result<+T> = Ok(value: T) | Err(error: Error) {
    predicate IsFailure() { Err? }

    function PropagateFailure<U>(): Result<U>
      requires Err?
    {
      Err(error)
    }

    function Extract(): T
      requires Ok?
    {
      value
    }
  }

  /** The values of `rs` in order, or the error of the first failing one:
      a loop that stops at the first exception. */
  function Collect<T>(rs: seq<Result<T>>): Result<seq<T>>
  {
    if rs == [] then Ok([])
    else
      var prev :- Collect(rs[..|rs| - 1]);
      var last :- rs[|rs| - 1];
      Ok(prev + [last])
  }

  /** `Collect` succeeds exactly when every element does, with their values
      in order; otherwise it fails with the first failing element's error. */
  lemma {:induction false} CollectShape<T>(rs: seq<Result<T>>)
    ensures Collect(rs).Ok? <==> forall i | 0 <= i < |rs| :: rs[i].Ok?
    ensures Collect(rs).Ok? ==>
      |Collect(rs).value| == |rs| && forall i | 0 <= i < |rs| :: Collect(rs).value[i] == rs[i].value
    ensures Collect(rs).Err? ==>
      exists i | 0 <= i < |rs| :: rs[i].Err? && Collect(rs).error == rs[i].error &&
        forall j | 0 <= j < i :: rs[j].Ok?
  {
    if rs != [] {
      var init := rs[..|rs| - 1];
      CollectShape(init);
      assert forall i | 0 <= i < |init| :: init[i] == rs[i];
      if Collect(init).Ok? && rs[|rs| - 1].Err? {
        var n := |rs| - 1;
        assert rs[n].Err? && Collect(rs).error == rs[n].error && forall j | 0 <= j < n :: rs[j].Ok?;
      }
    }
  }

  /** One more step of the loop: extend on success, stop on failure. */
  lemma CollectStep<T>(rs: seq<Result<T>>, i: nat)
    requires i < |rs| && Collect(rs[..i]).Ok?
    ensures rs[i].Ok? ==> Collect(rs[..i + 1]) == Ok(Collect(rs[..i]).value + [rs[i].value])
    ensures rs[i].Err? ==> Collect(rs) == Err(rs[i].error)
  {
    assert rs[..i + 1][..i] == rs[..i];
    if rs[i].Err? {
      CollectShape(rs[..i]);
      CollectShape(rs);
      assert forall j | 0 <= j < i :: rs[..i][j] == rs[j];
    }
  }
}
