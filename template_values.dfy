/**
  `apply_template_values`: every parsed value is handed to the template's `set`,
  one entry at a time, and the first failing `set` ends the loop with its error.

  The template engine is not part of this model, so `set` is the parameter `setValue`: given
  the template's current state, a name and a value, it either fails with an
  error or gives the template's next state. The `HashMap`'s iteration order is
  unspecified, so the loop runs over `order`, any sequence that lists each key of
  the map exactly once.
*/
module TemplateValues {
  import opened Wrappers

  /** `order` is one iteration order of `values`: each key exactly once, nothing else. */
  predicate IsIterationOrder(order: seq<string>, values: map<string, string>) {
    (forall i, j :: 0 <= i < j < |order| ==> order[i] != order[j]) &&
    (forall k :: k in values ==> k in order) &&
    (forall k :: k in order ==> k in values)
  }

  /**
    The template after the first `n` entries of `order` have been set, or the error
    of the first `set` among them that failed (after which nothing more is set).
  */
  function AfterCalls<T, E>(setValue: (T, string, string) -> Result<T, E>, template: T,
                            values: map<string, string>, order: seq<string>, n: nat): (r: Result<T, E>)
    requires n <= |order|
    requires forall k :: k in order ==> k in values
    // No call made: the template is as it was.
    ensures n == 0 ==> r == Success(template)
    // An error can only come from a call that was made.
    ensures r.Failure? ==> 0 < n
  {
    if n == 0 then Success(template)
    else
      match AfterCalls(setValue, template, values, order, n - 1)
      case Failure(e) => Failure(e)
      case Success(t) => setValue(t, order[n - 1], values[order[n - 1]])
  }

  /**
    The loop of `apply_template_values`. It returns the template's final state,
    the outcome, and how many `set` calls it made.
  */
  method ApplyTemplateValues<T, E>(setValue: (T, string, string) -> Result<T, E>, template: T,
                                   values: map<string, string>, order: seq<string>)
    returns (updated: T, result: Outcome<E>, calls: nat)
    requires IsIterationOrder(order, values)
    ensures calls <= |order|
    // Ok: every entry was set, and every call succeeded.
    ensures result.Pass? ==> calls == |order| && AfterCalls(setValue, template, values, order, calls) == Success(updated)
    // Error: the last call made is the first one that failed, and its error is returned.
    ensures result.Fail? ==>
              0 < calls &&
              AfterCalls(setValue, template, values, order, calls - 1) == Success(updated) &&
              setValue(updated, order[calls - 1], values[order[calls - 1]]) == Failure(result.error)
  {
    updated, calls := template, 0;
    while calls < |order|
      invariant calls <= |order|
      invariant AfterCalls(setValue, template, values, order, calls) == Success(updated)
    {
      var key := order[calls];
      var r := setValue(updated, key, values[key]);
      calls := calls + 1;
      match r
      case Failure(e) =>
        result := Fail(e);
        return;
      case Success(next) =>
        updated := next;
    }
    result := Pass;
  }

  /** An iteration order visits exactly as many entries as the map holds. */
  lemma IterationVisitsEachOnce(order: seq<string>, values: map<string, string>)
    requires IsIterationOrder(order, values)
    ensures |order| == |values|
  {
    DistinctCardinality(order);
    assert values.Keys == set k | k in order;
  }

  /** A sequence without repetitions has as many distinct elements as entries. */
  lemma {:induction false} DistinctCardinality(order: seq<string>)
    requires forall i, j :: 0 <= i < j < |order| ==> order[i] != order[j]
    ensures |set k | k in order| == |order|
  {
    if |order| > 0 {
      var rest := order[1..];
      DistinctCardinality(rest);
      assert (set k | k in order) == (set k | k in rest) + {order[0]};
      assert order[0] !in rest;
    }
  }

  /** A state reached after `n` calls means every one of those calls succeeded. */
  lemma {:induction false} EveryCallSucceeded<T, E>(setValue: (T, string, string) -> Result<T, E>, template: T,
                                                    values: map<string, string>, order: seq<string>, n: nat, m: nat)
    requires m <= n <= |order|
    requires forall k :: k in order ==> k in values
    requires AfterCalls(setValue, template, values, order, n).Success?
    ensures AfterCalls(setValue, template, values, order, m).Success?
  {
    if m < n {
      EveryCallSucceeded(setValue, template, values, order, n - 1, m);
    }
  }

  /** Once a `set` has failed, its error is the one returned, whatever entries remain. */
  lemma {:induction false} FirstFailureIsFinal<T, E>(setValue: (T, string, string) -> Result<T, E>, template: T,
                                                     values: map<string, string>, order: seq<string>, n: nat, m: nat)
    requires n <= m <= |order|
    requires forall k :: k in order ==> k in values
    requires AfterCalls(setValue, template, values, order, n).Failure?
    ensures AfterCalls(setValue, template, values, order, m) == AfterCalls(setValue, template, values, order, n)
  {
    if n < m {
      FirstFailureIsFinal(setValue, template, values, order, n, m - 1);
    }
  }

  /**
    `apply_template_values` returns `Ok` exactly when every `set` it calls returns
    `Ok`: each entry whose predecessors all succeeded succeeds too.
  */
  lemma {:induction false} OkIffEveryCallOk<T, E>(setValue: (T, string, string) -> Result<T, E>, template: T,
                                                  values: map<string, string>, order: seq<string>)
    requires forall k :: k in order ==> k in values
    ensures AfterCalls(setValue, template, values, order, |order|).Success? <==>
            forall i :: 0 <= i < |order| && AfterCalls(setValue, template, values, order, i).Success? ==>
                          setValue(AfterCalls(setValue, template, values, order, i).value, order[i], values[order[i]]).Success?
  {
    var n := |order|;
    if AfterCalls(setValue, template, values, order, n).Success? {
      forall i | 0 <= i < n && AfterCalls(setValue, template, values, order, i).Success?
        ensures setValue(AfterCalls(setValue, template, values, order, i).value, order[i], values[order[i]]).Success?
      {
        EveryCallSucceeded(setValue, template, values, order, n, i + 1);
      }
    } else {
      var i := FirstFailure(setValue, template, values, order, n);
      assert AfterCalls(setValue, template, values, order, i).Success?;
    }
  }

  /** The index of the first failing `set` among the first `n` calls, given that one failed. */
  lemma {:induction false} FirstFailure<T, E>(setValue: (T, string, string) -> Result<T, E>, template: T,
                                              values: map<string, string>, order: seq<string>, n: nat) returns (i: nat)
    requires n <= |order|
    requires forall k :: k in order ==> k in values
    requires AfterCalls(setValue, template, values, order, n).Failure?
    ensures i < n && AfterCalls(setValue, template, values, order, i).Success?
    ensures setValue(AfterCalls(setValue, template, values, order, i).value, order[i], values[order[i]]) ==
            AfterCalls(setValue, template, values, order, n)
  {
    if AfterCalls(setValue, template, values, order, n - 1).Success? {
      i := n - 1;
    } else {
      i := FirstFailure(setValue, template, values, order, n - 1);
    }
  }
}
