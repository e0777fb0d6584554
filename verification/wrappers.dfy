/** The Some/None datatype used for absent values and decode failures, and the values a
    sequence of them holds. */
module Wrappers {

  datatype Option<+T> = None | Some(value: T) {

    /** The encapsulated value, or `default` when there is none. */
    function GetOr(default: T): T {
      match this
      case Some(v) => v
      case None => default
    }
  }

  /** The values present, in order. */
  function Somes<T>(xs: seq<Option<T>>): (r: seq<T>)
    ensures |r| <= |xs|
    decreases |xs|
  {
    if xs == [] then []
    else Somes(xs[..|xs| - 1]) + (match xs[|xs| - 1] case Some(v) => [v] case None => [])
  }

  /** A value is present exactly when some entry holds it. */
  lemma {:induction false} SomesMembership<T>(xs: seq<Option<T>>, v: T)
    ensures v in Somes(xs) <==> exists i :: 0 <= i < |xs| && xs[i] == Some(v)
    decreases |xs|
  {
    if xs != [] {
      var n := |xs| - 1;
      SomesMembership(xs[..n], v);
      assert forall i :: 0 <= i < n ==> xs[..n][i] == xs[i];
    }
  }

  /** The positions holding a value. */
  function Present<T>(xs: seq<Option<T>>): set<nat> {
    set i | 0 <= i < |xs| && xs[i].Some?
  }

  /** One more entry adds its position when it holds a value. */
  lemma PresentStep<T>(xs: seq<Option<T>>)
    requires xs != []
    ensures Present(xs) == Present(xs[..|xs| - 1]) + (if xs[|xs| - 1].Some? then {|xs| - 1} else {})
    ensures |xs| - 1 !in Present(xs[..|xs| - 1])
  {
    var n := |xs| - 1;
    assert forall i :: 0 <= i < n ==> xs[..n][i] == xs[i];
  }

  /** The values present are as many as the entries that hold one. */
  lemma {:induction false} SomesCount<T>(xs: seq<Option<T>>)
    ensures |Somes(xs)| == |Present(xs)|
    decreases |xs|
  {
    if xs != [] {
      var n := |xs| - 1;
      SomesCount(xs[..n]);
      PresentStep(xs);
    }
  }
}
