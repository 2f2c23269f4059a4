/** `Option` stands for PHP's "value or null/false", `Result` for "value or
    thrown exception"; a `Result` can be propagated with Dafny's `:-`. */
module Wrappers {

  datatype Option<+T> = None | Some(value: T) {

    /** The value, or `default` when there is none. */
    function GetOr(default: T): T {
      match this
      case Some(v) => v
      case None => default
    }
  }

  datatype Result<+T, +E> = Success(value: T) | Failure(error: E) {

    predicate IsFailure() {
      Failure?
    }

    function PropagateFailure<U>(): Result<U, E>
      requires Failure?
    {
      Failure(error)
    }

    function Extract(): T
      requires Success?
    {
      value
    }
  }

  /** The values of the `Some` entries of `os`, in order. */
  function Somes<T>(os: seq<Option<T>>): (vs: seq<T>)
    ensures |vs| <= |os|
  {
    if |os| == 0 then []
    else
      var init := Somes(os[..|os| - 1]);
      match os[|os| - 1]
      case Some(v) => init + [v]
      case None => init
  }

  /** One more entry contributes its value, if it has one. */
  lemma SomesSnoc<T>(os: seq<Option<T>>, o: Option<T>)
    ensures Somes(os + [o]) == Somes(os) + (if o.Some? then [o.value] else [])
  {
    assert (os + [o])[..|os|] == os;
  }

  /** Every collected value comes from an entry: `i` is that entry. */
  lemma {:induction false} SomesFrom<T>(os: seq<Option<T>>, k: nat) returns (i: nat)
    requires k < |Somes(os)|
    ensures i < |os| && os[i] == Some(Somes(os)[k])
  {
    var init := os[..|os| - 1];
    var pre := Somes(init);
    assert Somes(os) == pre + (if os[|os| - 1].Some? then [os[|os| - 1].value] else []);
    if k < |pre| {
      i := SomesFrom(init, k);
      assert os[i] == init[i];
    } else {
      i := |os| - 1;
    }
  }

  /** Collecting keeps the entries' order: `idx[j]` is where the `j`-th
      collected value stood, the indices rise strictly, and every `Some`
      entry is collected. */
  lemma {:induction false} SomesOrder<T>(os: seq<Option<T>>) returns (idx: seq<nat>)
    ensures |idx| == |Somes(os)|
    ensures forall j :: 0 <= j < |idx| ==> idx[j] < |os| && os[idx[j]] == Some(Somes(os)[j])
    ensures forall j1, j2 :: 0 <= j1 < j2 < |idx| ==> idx[j1] < idx[j2]
    ensures forall i :: 0 <= i < |os| && os[i].Some? ==> i in idx
  {
    if |os| == 0 {
      idx := [];
    } else {
      var init, last := os[..|os| - 1], |os| - 1;
      var pre := SomesOrder(init);
      assert forall i :: 0 <= i < last ==> init[i] == os[i];
      if os[last].Some? {
        idx := pre + [last];
        assert Somes(os) == Somes(init) + [os[last].value];
        assert forall j :: 0 <= j < |pre| ==> idx[j] == pre[j];
        assert idx[|pre|] == last;
      } else {
        idx := pre;
        assert Somes(os) == Somes(init);
      }
      assert forall i :: 0 <= i < last && os[i].Some? ==> i in pre;
      assert forall i :: i in pre ==> i in idx;
    }
  }
}
