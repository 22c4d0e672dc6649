/** `Promise.all` as far as its result goes: the settled values of a batch,
    in input order, or nothing if any member failed. Timing and
    short-circuiting are not modelled. */
module Batch {
  import opened Wrappers

  function All<T>(settled: seq<Option<T>>): (r: Option<seq<T>>)
    ensures r.Some? <==> forall i :: 0 <= i < |settled| ==> settled[i].Some?
    ensures r.Some? ==> |r.value| == |settled|
    ensures r.Some? ==> forall i :: 0 <= i < |settled| ==> r.value[i] == settled[i].value
    decreases |settled|
  {
    if |settled| == 0 then Some([])
    else match All(settled[1..])
      case None => None
      case Some(rest) =>
        match settled[0]
        case None => None
        case Some(v) => Some([v] + rest)
  }

  /** Runs `f` on every input and combines the results. */
  function MapAll<A, B>(xs: seq<A>, f: A -> Option<B>): (r: Option<seq<B>>)
    ensures r.Some? <==> forall i :: 0 <= i < |xs| ==> f(xs[i]).Some?
    ensures r.Some? ==> |r.value| == |xs|
    ensures r.Some? ==> forall i :: 0 <= i < |xs| ==> r.value[i] == f(xs[i]).value
  {
    var settled := seq(|xs|, i requires 0 <= i < |xs| => f(xs[i]));
    assert forall i :: 0 <= i < |xs| ==> settled[i] == f(xs[i]);
    All(settled)
  }

  /** A batch made of two batches succeeds iff both do, and then its values
      are theirs, concatenated. */
  lemma {:induction false} AllAppend<T>(a: seq<Option<T>>, b: seq<Option<T>>)
    ensures All(a + b) == match (All(a), All(b))
      case (Some(x), Some(y)) => Some(x + y)
      case _ => None
  {
    if All(a).Some? && All(b).Some? {
      AllAppendSucceeds(a, b);
    } else {
      AllAppendFails(a, b);
    }
  }

  lemma {:induction false} AllAppendSucceeds<T>(a: seq<Option<T>>, b: seq<Option<T>>)
    requires All(a).Some? && All(b).Some?
    ensures All(a + b) == Some(All(a).value + All(b).value)
  {
    var ab := a + b;
    var x, y := All(a).value, All(b).value;
    var xy := x + y;
    forall i | 0 <= i < |ab| ensures ab[i].Some? && ab[i].value == xy[i] {
      if i < |a| {
        assert ab[i] == a[i] && xy[i] == x[i];
      } else {
        assert ab[i] == b[i - |a|] && xy[i] == y[i - |a|];
      }
    }
    assert All(ab).Some?;
    var r := All(ab).value;
    assert |r| == |xy|;
    assert forall i :: 0 <= i < |r| ==> r[i] == ab[i].value;
    assert r == xy;
  }

  lemma {:induction false} AllAppendFails<T>(a: seq<Option<T>>, b: seq<Option<T>>)
    requires All(a).None? || All(b).None?
    ensures All(a + b).None?
  {
    var ab := a + b;
    if All(a).None? {
      var i :| 0 <= i < |a| && a[i].None?;
      assert ab[i] == a[i];
    } else {
      var i :| 0 <= i < |b| && b[i].None?;
      assert ab[|a| + i] == b[i];
    }
  }
}
