/** `AbstractAggregateFunction`: the common shape of the aggregates with
    exactly one parameter.  The value of the parameter is worked out for
    every member of the group, nulls are skipped, the others are folded
    through the aggregate's own step starting from a null accumulator, and
    a final post step is applied once. */
module Aggregate {
  import opened Wrappers

  /** An aggregate of values `V`.  `step` is `evalAggregate`, called with the
      accumulator (null the first time) and the next non-null value; `post`
      is `postEvalAggregate`.  Both may hand back null. */
  datatype Aggregate<!V> = Aggregate(name: string, step: (Option<V>, V) -> Option<V>, post: Option<V> -> Option<V>)

  /** The default `postEvalAggregate`: the fold result as it is. */
  function DefaultPost<V>(result: Option<V>): Option<V>
  {
    result
  }

  /** The constructor: every aggregate takes exactly one argument. */
  function NewAggregate<V>(name: string, parameterCount: nat, step: (Option<V>, V) -> Option<V>,
                           post: Option<V> -> Option<V>): (r: Result<Aggregate<V>, string>)
    ensures r.Ok? <==> parameterCount == 1
    ensures r.Ok? ==> r.value.name == name && r.value.step == step && r.value.post == post
  {
    if parameterCount != 1 then Err("'" + name + "' function must have one argument.")
    else Ok(Aggregate(name, step, post))
  }

  /** The fold of `step` over the non-null values, in group order, from a
      null accumulator. */
  function Fold<V>(values: seq<Option<V>>, step: (Option<V>, V) -> Option<V>): Option<V>
  {
    if |values| == 0 then None
    else
      var acc := Fold(values[..|values| - 1], step);
      match values[|values| - 1]
      case None => acc
      case Some(v) => step(acc, v)
  }

  /** The non-null values of a group, in order. */
  function Present<V>(values: seq<Option<V>>): (r: seq<V>)
    ensures |r| <= |values|
  {
    if |values| == 0 then []
    else Present(values[..|values| - 1]) + (match values[|values| - 1] case None => [] case Some(v) => [v])
  }

  /** Taking the non-null values keeps their order: those of a group made
      of two parts are those of the first part followed by those of the
      second. */
  lemma {:induction false} PresentAppend<V>(a: seq<Option<V>>, b: seq<Option<V>>)
    ensures Present(a + b) == Present(a) + Present(b)
    decreases |b|
  {
    if |b| == 0 {
      assert a + b == a;
    } else {
      var n := |b| - 1;
      PresentAppend(a, b[..n]);
      assert (a + b)[..|a + b| - 1] == a + b[..n];
      assert (a + b)[|a + b| - 1] == b[n];
    }
  }

  /** A single value contributes itself when it is not null and nothing
      when it is. */
  lemma PresentOne<V>(x: Option<V>)
    ensures Present([x]) == if x.Some? then [x.value] else []
  {
    assert [x][..0] == [];
  }

  /** Every non-null value of the group is kept, and nothing else is. */
  lemma {:induction false} PresentMembers<V>(values: seq<Option<V>>)
    ensures forall i :: 0 <= i < |values| && values[i].Some? ==> values[i].value in Present(values)
    ensures forall x :: x in Present(values) ==> Some(x) in values
    decreases |values|
  {
    if |values| > 0 {
      var n := |values| - 1;
      var init := values[..n];
      PresentMembers(init);
      PresentAppend(init, [values[n]]);
      PresentOne(values[n]);
      assert init + [values[n]] == values;
      forall i | 0 <= i < n && values[i].Some?
        ensures values[i].value in Present(values)
      {
        assert init[i] == values[i];
      }
      forall x | x in Present(values)
        ensures Some(x) in values
      {
        if x in Present(init) {
          assert Some(x) in init;
        }
      }
    }
  }

  /** A fold over values that are all there, from accumulator `acc`. */
  function FoldFrom<V>(acc: Option<V>, vs: seq<V>, step: (Option<V>, V) -> Option<V>): Option<V>
    decreases |vs|
  {
    if |vs| == 0 then acc else FoldFrom(step(acc, vs[0]), vs[1..], step)
  }

  lemma {:induction false} FoldFromAppend<V>(acc: Option<V>, vs: seq<V>, v: V, step: (Option<V>, V) -> Option<V>)
    ensures FoldFrom(acc, vs + [v], step) == step(FoldFrom(acc, vs, step), v)
    decreases |vs|
  {
    if |vs| > 0 {
      assert (vs + [v])[1..] == vs[1..] + [v];
      FoldFromAppend(step(acc, vs[0]), vs[1..], v, step);
    }
  }

  /** Nulls play no part: the fold is the fold of the non-null values alone,
      taken first to last, and it starts from a null accumulator. */
  lemma {:induction false} FoldSkipsNulls<V>(values: seq<Option<V>>, step: (Option<V>, V) -> Option<V>)
    ensures Fold(values, step) == FoldFrom(None, Present(values), step)
    decreases |values|
  {
    if |values| > 0 {
      var init := values[..|values| - 1];
      FoldSkipsNulls(init, step);
      match values[|values| - 1]
      case None =>
        assert Fold(values, step) == Fold(init, step);
        assert Present(values) == Present(init) + [];
        assert Present(init) + [] == Present(init);
      case Some(v) =>
        FoldFromAppend(None, Present(init), v, step);
    }
  }

  /** A group whose values are all null folds to null. */
  lemma AllNullFold<V>(values: seq<Option<V>>, step: (Option<V>, V) -> Option<V>)
    requires forall i :: 0 <= i < |values| ==> values[i].None?
    ensures Fold(values, step) == None
  {
    AllNullPresent(values);
    FoldSkipsNulls(values, step);
  }

  lemma {:induction false} AllNullPresent<V>(values: seq<Option<V>>)
    requires forall i :: 0 <= i < |values| ==> values[i].None?
    ensures Present(values) == []
    decreases |values|
  {
    if |values| > 0 {
      AllNullPresent(values[..|values| - 1]);
    }
  }

  /** `evaluate`.  No group (the function used outside an aggregate
      context) is an error; an empty group gives the NULL object
      `nullObject`; otherwise the post step of the fold. */
  method Evaluate<V>(agg: Aggregate<V>, group: Option<seq<Option<V>>>, nullObject: V)
    returns (r: Result<Option<V>, string>)
    ensures r.Err? <==> group.None?
    ensures group.Some? && |group.value| == 0 ==> r == Ok(Some(nullObject))
    ensures group.Some? && |group.value| > 0 ==>
      r == Ok(agg.post(FoldFrom(None, Present(group.value), agg.step)))
  {
    if group.None? {
      return Err("'" + agg.name + "' can only be used as an aggregate function.");
    }
    var values := group.value;
    var size := |values|;
    if size == 0 {
      return Ok(Some(nullObject));
    }
    var result: Option<V> := None;
    for i := 0 to size
      invariant result == Fold(values[..i], agg.step)
    {
      assert values[..i + 1][..i] == values[..i];
      var val := values[i];
      if val.Some? {
        result := agg.step(result, val.value);
      }
    }
    assert values[..size] == values;
    FoldSkipsNulls(values, agg.step);
    result := agg.post(result);
    return Ok(result);
  }

  /** With the default post step an aggregate returns the fold itself, and a
      group of nulls gives null. */
  lemma DefaultPostIsFold<V>(step: (Option<V>, V) -> Option<V>, values: seq<Option<V>>)
    ensures DefaultPost(FoldFrom(None, Present(values), step)) == Fold(values, step)
    ensures (forall i :: 0 <= i < |values| ==> values[i].None?) ==> DefaultPost(Fold(values, step)) == None
  {
    FoldSkipsNulls(values, step);
    if forall i :: 0 <= i < |values| ==> values[i].None? {
      AllNullFold(values, step);
    }
  }
}
