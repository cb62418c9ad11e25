/**
  The value-setting step shared by the `Render` and `Execute` commands: parse the
  `key=value` arguments, then hand every parsed entry to the template's `set`.
*/
module Commands {
  import opened Wrappers
  import opened KeyValues
  import opened TemplateValues

  /**
    `parse_key_values` followed by `apply_template_values`. Every `set` call made
    receives a key and value taken from the last argument that carries that key,
    so an argument without `=` never reaches the template.
  */
  method SetParsedValues<T, E>(setValue: (T, string, string) -> Result<T, E>, template: T,
                               args: seq<string>, order: seq<string>)
    returns (updated: T, result: Outcome<E>, calls: nat)
    requires IsIterationOrder(order, ParseKeyValues(args))
    ensures calls <= |order|
    ensures forall i :: 0 <= i < calls ==>
              exists j :: 0 <= j < |args| && SplitPair(args[j]) == Some((order[i], ParseKeyValues(args)[order[i]])) &&
                          forall l :: j < l < |args| ==> KeyOf(args[l]) != Some(order[i])
    ensures result.Pass? <==> AfterCalls(setValue, template, ParseKeyValues(args), order, |order|).Success?
    // Ok: every parsed entry was set, and the template is the one those calls produce.
    ensures result.Pass? ==>
              calls == |order| && AfterCalls(setValue, template, ParseKeyValues(args), order, calls) == Success(updated)
    // Error: the last call made is the first that failed; its error is returned, the template is left
    // as the earlier calls made it, and that error is the outcome of the whole loop.
    ensures result.Fail? ==>
              0 < calls &&
              AfterCalls(setValue, template, ParseKeyValues(args), order, calls - 1) == Success(updated) &&
              setValue(updated, order[calls - 1], ParseKeyValues(args)[order[calls - 1]]) == Failure(result.error) &&
              AfterCalls(setValue, template, ParseKeyValues(args), order, |order|) == Failure(result.error)
  {
    var values := ParseKeyValues(args);
    updated, result, calls := ApplyTemplateValues(setValue, template, values, order);
    forall i | 0 <= i < calls
      ensures exists j :: 0 <= j < |args| && SplitPair(args[j]) == Some((order[i], values[order[i]])) &&
                          forall l :: j < l < |args| ==> KeyOf(args[l]) != Some(order[i])
    {
      var j := ParseValueFromLast(args, order[i]);
    }
    if result.Fail? {
      FirstFailureIsFinal(setValue, template, values, order, calls, |order|);
    }
  }
}
