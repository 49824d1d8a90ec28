/**
 What a callback sees: the bindings looked up by parameter name, and their values converted to the type
 it asks for.
 */
module CallbackContext {
  import opened Prelude
  import opened CommandValues
  import opened CommandParameters
  import opened NamedValues
  import opened ParameterBinding
  import opened BindingProperties

  /** `Find`: the first binding under the name. */
  function Find(bindings: seq<Binding>, name: string): Option<Binding> {
    if bindings == [] then None
    else if bindings[0].name == name then Some(bindings[0])
    else Find(bindings[1..], name)
  }

  /** Of several bindings under one name the first is found. */
  lemma {:induction false} FindIsFirst(bindings: seq<Binding>, name: string, k: nat)
    requires k < |bindings| && bindings[k].name == name && forall j :: 0 <= j < k ==> bindings[j].name != name
    ensures Find(bindings, name) == Some(bindings[k])
  {
    if k != 0 {
      assert forall j :: 0 <= j < |bindings[1..]| ==> bindings[1..][j] == bindings[j+1];
      FindIsFirst(bindings[1..], name, k - 1);
    }
  }

  /** No other parameter has the name of parameter `i`. */
  ghost predicate NameUnique(parameters: seq<CommandParameter>, i: nat)
    requires i < |parameters|
  {
    forall j :: 0 <= j < |parameters| && j != i ==> parameters[j].name != parameters[i].name
  }

  lemma {:induction false} NotAmongLater(parameters: seq<CommandParameter>, named: seq<NamedValue>,
                                         positional: seq<CommandValue>, k: nat, name: string)
    requires k <= |parameters| && forall j :: k <= j < |parameters| ==> parameters[j].name != name
    ensures Find(SuppliedBindings(parameters, named, positional, k), name).None?
    decreases |parameters| - k
  {
    if k < |parameters| {
      NotAmongLater(parameters, named, positional, k + 1, name);
      var later := SuppliedBindings(parameters, named, positional, k + 1);
      if Supply(parameters, named, positional, k).Some? {
        assert SuppliedBindings(parameters, named, positional, k)[1..] == later;
      } else {
        assert SuppliedBindings(parameters, named, positional, k) == later;
      }
    }
  }

  /** Looking a parameter up among the bindings of `k..` finds what it was supplied with. */
  lemma {:induction false} FindSupplied(parameters: seq<CommandParameter>, named: seq<NamedValue>,
                                        positional: seq<CommandValue>, k: nat, i: nat)
    requires k <= i < |parameters| && NameUnique(parameters, i)
    ensures var found := Find(SuppliedBindings(parameters, named, positional, k), parameters[i].name);
            var supplied := Supply(parameters, named, positional, i);
            && (found.Some? ==> supplied == Some(found.value.value))
            && (found.None? ==> supplied.None?)
    decreases i - k
  {
    var bindings := SuppliedBindings(parameters, named, positional, k);
    var later := SuppliedBindings(parameters, named, positional, k + 1);
    var supplied := Supply(parameters, named, positional, k);
    if supplied.Some? {
      assert bindings[0].name == parameters[k].name && bindings[1..] == later;
    } else {
      assert bindings == later;
    }
    if k < i {
      FindSupplied(parameters, named, positional, k + 1, i);
    } else if supplied.None? {
      NotAmongLater(parameters, named, positional, k + 1, parameters[i].name);
    }
  }

  /** Inside the callback, asking for a required integer parameter whose range lies within a type of at
      most 32 bits and the same signedness always succeeds, with a number in the range, however the
      argument was passed and whatever kind of value it was. */
  lemma {:induction false} FetchSucceeds(platform: Platform, parameters: seq<CommandParameter>, executable: bool,
                                         named: seq<NamedValue>, positional: seq<CommandValue>, bindings: seq<Binding>,
                                         i: nat, t: IntegerType)
    requires 32 <= platform.bits && i < |parameters| && NameUnique(parameters, i)
    requires BindingOf(platform, parameters, executable, named, positional) == Ready(bindings)
    requires parameters[i].required && IntegerKind(parameters[i].kind, t.signed)
    requires t.width != W64 && RangeWithin(platform.bits, parameters[i].range, t)
    ensures var binding := Find(bindings, parameters[i].name);
            && binding.Some?
            && AsInteger(platform.bits, t, binding.value.value).Converted?
            && Admits(parameters[i].range, AsInteger(platform.bits, t, binding.value.value).value)
  {
    CallbackReachedIff(platform, parameters, executable, named, positional);
    FindSupplied(parameters, named, positional, 0, i);
    assert Acceptable(platform, parameters, named, positional, i);
    var supplied := Supply(parameters, named, positional, i);
    ValidatedIntegerConverts(platform, parameters[i], t, supplied.value);
  }
}
