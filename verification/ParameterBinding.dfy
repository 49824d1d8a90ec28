/**
 Binding the arguments of an invocation to the parameters of the resolved command: the first half of
 `InvokeResolved`, up to the point where the callback may run.
 */
module ParameterBinding {
  import opened Prelude
  import opened CommandValues
  import opened CommandParameters
  import opened NamedValues

  /** `owned` marks a value the binding stores itself (a default) rather than points to. */
  datatype Binding = Binding(name: string, value: CommandValue, owned: bool)

  datatype BindingResult =
    | Ready(bindings: seq<Binding>)
    | MissingParameter(name: string)
    | InvalidParameter(name: string, reason: Validity)
    | TooManyPositional
    | UnknownParameter(key: string)
    | NotExecutable

  // ----- the loop, as functions

  datatype Choice = Choice(value: Option<CommandValue>, owned: bool, rest: seq<CommandValue>)

  /** Where one parameter gets its value, and the positionals it leaves to the others. */
  function Choose(parameter: CommandParameter, named: seq<NamedValue>, rest: seq<CommandValue>): Choice {
    var byName := FirstMatch(named, parameter);
    if byName.Some? then Choice(byName, false, rest)
    else if !parameter.namedOnly && rest != [] then Choice(Some(rest[0]), false, rest[1..])
    else if parameter.default.Some? then Choice(Some(Text(parameter.default.value)), true, rest)
    else Choice(None, false, rest)
  }

  datatype Progress = Bound(bindings: seq<Binding>, rest: seq<CommandValue>) | Stopped(error: BindingResult)

  function BindOne(platform: Platform, parameter: CommandParameter, choice: Choice): Progress {
    if choice.value.None? then
      if parameter.required then Stopped(MissingParameter(parameter.name)) else Bound([], choice.rest)
    else
      var validity := Validate(platform, parameter, choice.value.value);
      if validity != Valid then Stopped(InvalidParameter(parameter.name, validity))
      else Bound([Binding(parameter.name, choice.value.value, choice.owned)], choice.rest)
  }

  function Prepend(bindings: seq<Binding>, progress: Progress): Progress {
    if progress.Stopped? then progress else Bound(bindings + progress.bindings, progress.rest)
  }

  function BindAll(platform: Platform, parameters: seq<CommandParameter>, named: seq<NamedValue>,
                   rest: seq<CommandValue>): Progress
    decreases |parameters|
  {
    if parameters == [] then Bound([], rest)
    else
      var first := BindOne(platform, parameters[0], Choose(parameters[0], named, rest));
      if first.Stopped? then first
      else Prepend(first.bindings, BindAll(platform, parameters[1..], named, first.rest))
  }

  predicate Known(parameters: seq<CommandParameter>, key: string) {
    exists i :: 0 <= i < |parameters| && parameters[i].Matches(key)
  }

  function FirstUnknown(parameters: seq<CommandParameter>, named: seq<NamedValue>): Option<string>
    decreases |named|
  {
    if named == [] then None
    else if !Known(parameters, named[0].0) then Some(named[0].0)
    else FirstUnknown(parameters, named[1..])
  }

  function Finish(parameters: seq<CommandParameter>, executable: bool, named: seq<NamedValue>,
                  progress: Progress): BindingResult
  {
    if progress.Stopped? then progress.error
    else if progress.rest != [] then TooManyPositional
    else
      var unknown := FirstUnknown(parameters, named);
      if unknown.Some? then UnknownParameter(unknown.value)
      else if !executable then NotExecutable
      else Ready(progress.bindings)
  }

  function BindingOf(platform: Platform, parameters: seq<CommandParameter>, executable: bool,
                     named: seq<NamedValue>, positional: seq<CommandValue>): BindingResult
  {
    Finish(parameters, executable, named, BindAll(platform, parameters, named, positional))
  }

  // ----- the loop itself

  method FindNamed(named: seq<NamedValue>, parameter: CommandParameter) returns (value: Option<CommandValue>)
    ensures value == FirstMatch(named, parameter)
  {
    value := None;
    for k := 0 to |named|
      invariant FirstMatch(named, parameter) == FirstMatch(named[k..], parameter)
    {
      if parameter.Matches(named[k].0) {
        return Some(named[k].1);
      }
    }
  }

  method FindUnknown(parameters: seq<CommandParameter>, named: seq<NamedValue>) returns (unknown: Option<string>)
    ensures unknown == FirstUnknown(parameters, named)
  {
    unknown := None;
    for k := 0 to |named|
      invariant FirstUnknown(parameters, named) == FirstUnknown(parameters, named[k..])
    {
      var known := false;
      for i := 0 to |parameters|
        invariant !known && !Known(parameters[..i], named[k].0)
      {
        if parameters[i].Matches(named[k].0) {
          known := true;
          break;
        }
      }
      assert parameters[..|parameters|] == parameters;
      if !known {
        return Some(named[k].0);
      }
    }
  }

  lemma {:induction false} BindStep(platform: Platform, parameters: seq<CommandParameter>, i: nat,
                                    named: seq<NamedValue>,
                 rest: seq<CommandValue>, bindings: seq<Binding>)
    requires i < |parameters|
    ensures var first := BindOne(platform, parameters[i], Choose(parameters[i], named, rest));
            Prepend(bindings, BindAll(platform, parameters[i..], named, rest)) ==
            if first.Stopped? then first
            else Prepend(bindings + first.bindings, BindAll(platform, parameters[i+1..], named, first.rest))
  {
    var first := BindOne(platform, parameters[i], Choose(parameters[i], named, rest));
    assert parameters[i..][0] == parameters[i] && parameters[i..][1..] == parameters[i+1..];
    if first.Bound? {
      var later := BindAll(platform, parameters[i+1..], named, first.rest);
      if later.Bound? {
        assert bindings + (first.bindings + later.bindings) == (bindings + first.bindings) + later.bindings;
      }
    }
  }

  /** `bindings` is filled by `emplace_back` into storage reserved for one binding per parameter; it
      never outgrows the reservation, so a default stored in it never moves while others refer to it. */
  method Bind(platform: Platform, parameters: seq<CommandParameter>, executable: bool,
              named: seq<NamedValue>, positional: seq<CommandValue>) returns (result: BindingResult)
    ensures result == BindingOf(platform, parameters, executable, named, positional)
    ensures result.Ready? ==> |result.bindings| <= |parameters|
  {
    var reserved := |parameters|;
    var bindings: seq<Binding> := [];
    var positionalIndex := 0;
    for i := 0 to |parameters|
      invariant positionalIndex <= |positional|
      invariant |bindings| <= i <= reserved
      invariant BindAll(platform, parameters, named, positional) ==
                Prepend(bindings, BindAll(platform, parameters[i..], named, positional[positionalIndex..]))
    {
      ghost var rest := positional[positionalIndex..];
      BindStep(platform, parameters, i, named, rest, bindings);
      var parameter := parameters[i];
      var owned := false;
      var value := FindNamed(named, parameter);
      if value.None? && !parameter.namedOnly && positionalIndex < |positional| {
        value := Some(positional[positionalIndex]);
        positionalIndex := positionalIndex + 1;
      }
      if value.None? && parameter.default.Some? {
        value := Some(Text(parameter.default.value));
        owned := true;
      }
      ghost var first := BindOne(platform, parameter, Choose(parameter, named, rest));
      assert first == BindOne(platform, parameter, Choice(value, owned, positional[positionalIndex..]));
      if value.None? && parameter.required {
        return MissingParameter(parameter.name);
      }
      if value.None? {
        assert bindings + first.bindings == bindings;
      } else {
        var validation := Validate(platform, parameter, value.value);
        if validation != Valid {
          return InvalidParameter(parameter.name, validation);
        }
        assert bindings + first.bindings == bindings + [Binding(parameter.name, value.value, owned)];
        bindings := bindings + [Binding(parameter.name, value.value, owned)];
      }
    }
    assert parameters[|parameters|..] == [] && bindings + [] == bindings;
    if positionalIndex < |positional| {
      return TooManyPositional;
    }
    var unknown := FindUnknown(parameters, named);
    if unknown.Some? {
      return UnknownParameter(unknown.value);
    }
    result := if !executable then NotExecutable else Ready(bindings);
  }
}
