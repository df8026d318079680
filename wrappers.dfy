/** Optional values and results with an error message, used wherever the
    Python code returns `None` or raises an exception that its caller sees;
    and the position of a value in a list of indices. */
module Wrappers {

  datatype Option<+T> = None | Some(value: T) {
    function GetOr(default: T): T {
      match this
      case Some(v) => v
      case None => default
    }
  }

  datatype Result<+T> = Ok(value: T) | Err(message: string)

  /** A position at which a value occurs in a list. */
  lemma PositionIn(xs: seq<nat>, x: nat) returns (l: nat)
    requires x in xs
    ensures l < |xs| && xs[l] == x
  {
    l :| 0 <= l < |xs| && xs[l] == x;
  }

  /** The values of the present entries, in order. */
  function Somes<T>(xs: seq<Option<T>>): (r: seq<T>)
    ensures |r| <= |xs|
  {
    if xs == [] then []
    else
      var last := xs[|xs| - 1];
      Somes(xs[..|xs| - 1]) + (if last.Some? then [last.value] else [])
  }

  /** Which entry each value comes from: value k is entry `source[k]`, the
      sources increase, and every present entry is among them. */
  lemma {:induction false} SomesSources<T>(xs: seq<Option<T>>) returns (source: seq<nat>)
    ensures |source| == |Somes(xs)|
    ensures forall k :: 0 <= k < |source| ==> source[k] < |xs| && xs[source[k]] == Some(Somes(xs)[k])
    ensures forall k, l :: 0 <= k < l < |source| ==> source[k] < source[l]
    ensures forall i :: 0 <= i < |xs| && xs[i].Some? ==> i in source
  {
    if xs == [] {
      return [];
    }
    var n := |xs|;
    var init := xs[..n - 1];
    var initSource := SomesSources(init);
    var values := Somes(xs);
    var initValues := Somes(init);
    assert values == initValues + (if xs[n - 1].Some? then [xs[n - 1].value] else []);
    source := initSource + (if xs[n - 1].Some? then [n - 1] else []);
    forall k | 0 <= k < |source|
      ensures source[k] < n && xs[source[k]] == Some(values[k])
    {
      if k < |initSource| {
        assert source[k] == initSource[k] && values[k] == initValues[k];
        assert init[initSource[k]] == xs[initSource[k]];
      }
    }
    forall i | 0 <= i < n && xs[i].Some? ensures i in source {
      if i < n - 1 {
        assert init[i] == xs[i];
        var k := PositionIn(initSource, i);
        assert source[k] == i;
      } else {
        assert source[|initSource|] == n - 1;
      }
    }
    forall k, l | 0 <= k < l < |source| ensures source[k] < source[l] {
      assert source[k] == initSource[k];
      if l < |initSource| {
        assert source[l] == initSource[l];
      }
    }
  }
}
