/**
 What the binding loop achieves, said without the loop: which value each parameter is supplied with,
 when the callback is reached, and that it does not matter how an argument was passed.
 */
module BindingProperties {
  import opened Prelude
  import opened CommandValues
  import opened CommandParameters
  import opened NamedValues
  import opened ParameterBinding

  // ----- which value a parameter is supplied with

  /** A parameter that takes a positional argument: none names it, and it may be given by position. */
  predicate Positional(parameter: CommandParameter, named: seq<NamedValue>) {
    FirstMatch(named, parameter).None? && !parameter.namedOnly
  }

  /** How many of the first `i` parameters do. */
  function Rank(parameters: seq<CommandParameter>, named: seq<NamedValue>, i: nat): nat
    requires i <= |parameters|
  {
    if i == 0 then 0
    else Rank(parameters, named, i - 1) + if Positional(parameters[i-1], named) then 1 else 0
  }

  /** A named value first, then the positional of the parameter's own rank, then its default. */
  function Supply(parameters: seq<CommandParameter>, named: seq<NamedValue>, positional: seq<CommandValue>,
                  i: nat): Option<CommandValue>
    requires i < |parameters|
  {
    var parameter := parameters[i];
    if FirstMatch(named, parameter).Some? then FirstMatch(named, parameter)
    else if Positional(parameter, named) && Rank(parameters, named, i) < |positional| then
      Some(positional[Rank(parameters, named, i)])
    else if parameter.default.Some? then Some(Text(parameter.default.value))
    else None
  }

  predicate Defaulted(parameters: seq<CommandParameter>, named: seq<NamedValue>, positional: seq<CommandValue>, i: nat)
    requires i < |parameters|
  {
    && FirstMatch(named, parameters[i]).None?
    && !(Positional(parameters[i], named) && Rank(parameters, named, i) < |positional|)
  }

  /** The binding of parameter `i`, if it is supplied. */
  function SuppliedBinding(parameters: seq<CommandParameter>, named: seq<NamedValue>,
                           positional: seq<CommandValue>, i: nat): seq<Binding>
    requires i < |parameters|
  {
    var supplied := Supply(parameters, named, positional, i);
    if supplied.None? then []
    else [Binding(parameters[i].name, supplied.value, Defaulted(parameters, named, positional, i))]
  }

  /** The bindings of parameters `i..`, in order. */
  function SuppliedBindings(parameters: seq<CommandParameter>, named: seq<NamedValue>,
                            positional: seq<CommandValue>, i: nat): seq<Binding>
    requires i <= |parameters|
    decreases |parameters| - i
  {
    if i == |parameters| then []
    else SuppliedBinding(parameters, named, positional, i) + SuppliedBindings(parameters, named, positional, i + 1)
  }

  /** Parameter `i` lets the loop go on. */
  ghost predicate Acceptable(platform: Platform, parameters: seq<CommandParameter>, named: seq<NamedValue>,
                             positional: seq<CommandValue>, i: nat)
    requires i < |parameters|
  {
    match Supply(parameters, named, positional, i)
    case None => !parameters[i].required
    case Some(v) => Validate(platform, parameters[i], v) == Valid
  }

  lemma {:induction false} RankBound(parameters: seq<CommandParameter>, named: seq<NamedValue>, i: nat)
    requires i <= |parameters|
    ensures Rank(parameters, named, i) <= i
  {
    if i != 0 {
      RankBound(parameters, named, i - 1);
    }
  }

  function Taken(parameters: seq<CommandParameter>, named: seq<NamedValue>, positional: seq<CommandValue>, i: nat): nat
    requires i <= |parameters|
  {
    Min(Rank(parameters, named, i), |positional|)
  }

  /** One step of the loop, against the declarative reading. */
  lemma {:induction false} ChooseIsSupply(parameters: seq<CommandParameter>, named: seq<NamedValue>,
                                          positional: seq<CommandValue>, i: nat)
    requires i < |parameters|
    ensures Choose(parameters[i], named, positional[Taken(parameters, named, positional, i)..]) ==
            Choice(Supply(parameters, named, positional, i),
                   Supply(parameters, named, positional, i).Some? && Defaulted(parameters, named, positional, i),
                   positional[Taken(parameters, named, positional, i + 1)..])
  {
  }

  ghost predicate AllAcceptable(platform: Platform, parameters: seq<CommandParameter>, named: seq<NamedValue>,
                                positional: seq<CommandValue>, i: nat)
  {
    forall j :: i <= j < |parameters| ==> Acceptable(platform, parameters, named, positional, j)
  }

  lemma {:induction false} PrependNothing(progress: Progress)
    ensures Prepend([], progress) == progress
  {
    if progress.Bound? {
      assert [] + progress.bindings == progress.bindings;
    }
  }

  lemma {:induction false} BindAllIsSupply(platform: Platform, parameters: seq<CommandParameter>,
                                           named: seq<NamedValue>, positional: seq<CommandValue>, i: nat)
    requires i <= |parameters|
    ensures var rest := positional[Taken(parameters, named, positional, i)..];
            var progress := BindAll(platform, parameters[i..], named, rest);
            if AllAcceptable(platform, parameters, named, positional, i) then
              progress == Bound(SuppliedBindings(parameters, named, positional, i),
                                positional[Taken(parameters, named, positional, |parameters|)..])
            else progress.Stopped?
    decreases |parameters| - i
  {
    if i < |parameters| {
      var rest := positional[Taken(parameters, named, positional, i)..];
      BindStep(platform, parameters, i, named, rest, []);
      ChooseIsSupply(parameters, named, positional, i);
      var first := BindOne(platform, parameters[i], Choose(parameters[i], named, rest));
      assert first.Stopped? <==> !Acceptable(platform, parameters, named, positional, i);
      PrependNothing(BindAll(platform, parameters[i..], named, rest));
      if first.Bound? {
        BindAllIsSupply(platform, parameters, named, positional, i + 1);
        assert [] + first.bindings == first.bindings;
        assert SuppliedBindings(parameters, named, positional, i) ==
               first.bindings + SuppliedBindings(parameters, named, positional, i + 1);
        assert AllAcceptable(platform, parameters, named, positional, i) <==>
               AllAcceptable(platform, parameters, named, positional, i + 1);
      }
    }
  }

  lemma {:induction false} FirstUnknownNone(parameters: seq<CommandParameter>, named: seq<NamedValue>)
    ensures FirstUnknown(parameters, named).None? <==> forall k :: 0 <= k < |named| ==> Known(parameters, named[k].0)
  {
    if named != [] && Known(parameters, named[0].0) {
      FirstUnknownNone(parameters, named[1..]);
      if FirstUnknown(parameters, named).None? {
        forall k | 0 <= k < |named| ensures Known(parameters, named[k].0) {
          if k != 0 {
            assert named[k] == named[1..][k-1];
          }
        }
      }
    }
  }

  lemma {:induction false} StoppedIsError(platform: Platform, parameters: seq<CommandParameter>,
                                          named: seq<NamedValue>, rest: seq<CommandValue>)
    ensures var progress := BindAll(platform, parameters, named, rest);
            progress.Stopped? ==> progress.error.MissingParameter? || progress.error.InvalidParameter?
    decreases |parameters|
  {
    if parameters != [] {
      var first := BindOne(platform, parameters[0], Choose(parameters[0], named, rest));
      if first.Bound? {
        StoppedIsError(platform, parameters[1..], named, first.rest);
      }
    }
  }

  /** The callback is reached exactly when every parameter is supplied or optional, every supplied value
      is valid, no positional is left over, every key is known and there is a callback; its bindings are
      then the supplied values in parameter order. */
  lemma {:induction false} CallbackReachedIff(platform: Platform, parameters: seq<CommandParameter>, executable: bool,
                                              named: seq<NamedValue>, positional: seq<CommandValue>)
    ensures BindingOf(platform, parameters, executable, named, positional).Ready?
            <==>
            && (forall i :: 0 <= i < |parameters| ==> Acceptable(platform, parameters, named, positional, i))
            && |positional| <= Rank(parameters, named, |parameters|)
            && (forall k :: 0 <= k < |named| ==> Known(parameters, named[k].0))
            && executable
    ensures BindingOf(platform, parameters, executable, named, positional).Ready? ==>
              BindingOf(platform, parameters, executable, named, positional) ==
              Ready(SuppliedBindings(parameters, named, positional, 0))
  {
    var progress := BindAll(platform, parameters, named, positional);
    assert AllAcceptable(platform, parameters, named, positional, 0) ==
           (forall i :: 0 <= i < |parameters| ==> Acceptable(platform, parameters, named, positional, i));
    assert if AllAcceptable(platform, parameters, named, positional, 0)
           then progress == Bound(SuppliedBindings(parameters, named, positional, 0),
                                  positional[Taken(parameters, named, positional, |parameters|)..])
           else progress.Stopped?
    by {
      assert parameters[0..] == parameters && positional[0..] == positional;
      BindAllIsSupply(platform, parameters, named, positional, 0);
    }
    if progress.Stopped? {
      StoppedIsError(platform, parameters, named, positional);
    }
    FirstUnknownNone(parameters, named);
  }

  /** `b` is a validated value of parameter `j`. */
  ghost predicate BindingFor(platform: Platform, parameters: seq<CommandParameter>, j: nat, b: Binding)
    requires j < |parameters|
  {
    b.name == parameters[j].name && Validate(platform, parameters[j], b.value) == Valid
  }

  lemma {:induction false} SuppliedSound(platform: Platform, parameters: seq<CommandParameter>,
                                         named: seq<NamedValue>, positional: seq<CommandValue>, i: nat)
    requires i <= |parameters|
    requires AllAcceptable(platform, parameters, named, positional, i)
    ensures var bindings := SuppliedBindings(parameters, named, positional, i);
            && |bindings| <= |parameters| - i
            && (forall j :: i <= j < |parameters| && parameters[j].required ==>
                  exists b :: b in bindings && b.name == parameters[j].name)
            && (forall b :: b in bindings ==>
                  exists j :: i <= j < |parameters| && BindingFor(platform, parameters, j, b))
    decreases |parameters| - i
  {
    if i < |parameters| {
      assert Acceptable(platform, parameters, named, positional, i);
      SuppliedSound(platform, parameters, named, positional, i + 1);
      var bindings := SuppliedBindings(parameters, named, positional, i);
      var later := SuppliedBindings(parameters, named, positional, i + 1);
      var supplied := Supply(parameters, named, positional, i);
      if supplied.Some? {
        var head := bindings[0];
        assert bindings == [head] + later;
        assert BindingFor(platform, parameters, i, head);
        assert head in bindings;
        assert forall b :: b in bindings ==> b == head || b in later;
      } else {
        assert bindings == later;
      }
    }
  }

  /** Whatever reaches the callback: every required parameter has a binding under its name, every
      binding is a validated value of one of the parameters, and there is at most one per parameter. */
  lemma {:induction false} BindingsAreSound(platform: Platform, parameters: seq<CommandParameter>, executable: bool,
                                            named: seq<NamedValue>, positional: seq<CommandValue>,
                                            bindings: seq<Binding>)
    requires BindingOf(platform, parameters, executable, named, positional) == Ready(bindings)
    ensures |bindings| <= |parameters|
    ensures forall i :: 0 <= i < |parameters| && parameters[i].required ==>
              exists b :: b in bindings && b.name == parameters[i].name
    ensures forall b :: b in bindings ==>
              exists i :: 0 <= i < |parameters| && BindingFor(platform, parameters, i, b)
  {
    CallbackReachedIff(platform, parameters, executable, named, positional);
    SuppliedSound(platform, parameters, named, positional, 0);
  }

  /** When the callback runs, every binding of a parameter with choices holds one of them, and no validator
      has anything against it. */
  lemma {:induction false} BoundValuesAreAllowed(platform: Platform, parameters: seq<CommandParameter>,
                                                 executable: bool, named: seq<NamedValue>,
                                                 positional: seq<CommandValue>, bindings: seq<Binding>, b: Binding)
    returns (i: nat)
    requires BindingOf(platform, parameters, executable, named, positional) == Ready(bindings) && b in bindings
    ensures i < |parameters| && b.name == parameters[i].name
    ensures parameters[i].choices != [] ==> ToString(platform.printDouble, b.value) in parameters[i].choices
    ensures var validator := parameters[i].validator;
            validator.Some? && validator.value.message != "" ==>
              validator.value.accepts(ToString(platform.printDouble, b.value))
  {
    BindingsAreSound(platform, parameters, executable, named, positional, bindings);
    i :| 0 <= i < |parameters| && BindingFor(platform, parameters, i, b);
    ValidIsAllowed(platform, parameters[i], b.value);
  }

  // ----- which error is reported

  /** The error of the first parameter, from `i` on, that is not acceptable. */
  lemma {:induction false} BindAllStops(platform: Platform, parameters: seq<CommandParameter>,
                                        named: seq<NamedValue>, positional: seq<CommandValue>, i: nat, k: nat)
    requires i <= k < |parameters| && !Acceptable(platform, parameters, named, positional, k)
    requires forall j :: i <= j < k ==> Acceptable(platform, parameters, named, positional, j)
    ensures var rest := positional[Taken(parameters, named, positional, i)..];
            BindAll(platform, parameters[i..], named, rest) ==
            Stopped(if Supply(parameters, named, positional, k).None? then MissingParameter(parameters[k].name)
                    else InvalidParameter(parameters[k].name,
                           Validate(platform, parameters[k], Supply(parameters, named, positional, k).value)))
    decreases k - i
  {
    var rest := positional[Taken(parameters, named, positional, i)..];
    BindStep(platform, parameters, i, named, rest, []);
    ChooseIsSupply(parameters, named, positional, i);
    PrependNothing(BindAll(platform, parameters[i..], named, rest));
    var first := BindOne(platform, parameters[i], Choose(parameters[i], named, rest));
    assert first.Stopped? <==> !Acceptable(platform, parameters, named, positional, i);
    if i < k {
      BindAllStops(platform, parameters, named, positional, i + 1, k);
    }
  }

  lemma {:induction false} FirstUnknownAt(parameters: seq<CommandParameter>, named: seq<NamedValue>, k: nat)
    requires k < |named| && !Known(parameters, named[k].0)
    requires forall j :: 0 <= j < k ==> Known(parameters, named[j].0)
    ensures FirstUnknown(parameters, named) == Some(named[k].0)
    decreases |named|
  {
    if k != 0 {
      FirstUnknownAt(parameters, named[1..], k - 1);
    }
  }

  /** A required parameter that nothing supplies. */
  predicate Missing(parameters: seq<CommandParameter>, named: seq<NamedValue>, positional: seq<CommandValue>, k: nat)
    requires k < |parameters|
  {
    parameters[k].required && Supply(parameters, named, positional, k).None?
  }

  predicate Invalid(platform: Platform, parameters: seq<CommandParameter>, named: seq<NamedValue>,
                    positional: seq<CommandValue>, k: nat)
    requires k < |parameters|
  {
    var supplied := Supply(parameters, named, positional, k);
    supplied.Some? && Validate(platform, parameters[k], supplied.value) != Valid
  }

  /** None of the first `k` parameters is missing or invalid. */
  ghost predicate FineUpTo(platform: Platform, parameters: seq<CommandParameter>, named: seq<NamedValue>,
                           positional: seq<CommandValue>, k: nat)
  {
    forall j :: 0 <= j < k && j < |parameters| ==>
      !Missing(parameters, named, positional, j) && !Invalid(platform, parameters, named, positional, j)
  }

  predicate KnownKey(parameters: seq<CommandParameter>, key: string) {
    exists i :: 0 <= i < |parameters| && (key == parameters[i].name || key in parameters[i].aliases)
  }

  /** Some parameter answers to each of the first `k` keys, by its name or by an alias. */
  ghost predicate KnownUpTo(parameters: seq<CommandParameter>, named: seq<NamedValue>, k: nat) {
    forall j :: 0 <= j < k && j < |named| ==> KnownKey(parameters, named[j].0)
  }

  lemma {:induction false} KnownIff(parameters: seq<CommandParameter>, key: string)
    ensures Known(parameters, key) <==> KnownKey(parameters, key)
  {
    if i :| 0 <= i < |parameters| && (key == parameters[i].name || key in parameters[i].aliases) {
      assert parameters[i].Matches(key);
    }
  }

  lemma {:induction false} FineIsAcceptable(platform: Platform, parameters: seq<CommandParameter>,
                                            named: seq<NamedValue>, positional: seq<CommandValue>, k: nat)
    requires k < |parameters|
    ensures Acceptable(platform, parameters, named, positional, k) <==>
            !Missing(parameters, named, positional, k) && !Invalid(platform, parameters, named, positional, k)
  {
  }

  /** Errors in order of priority: the first parameter that is missing or invalid ... */
  lemma {:induction false} ParameterErrorFirst(platform: Platform, parameters: seq<CommandParameter>, executable: bool,
                                               named: seq<NamedValue>, positional: seq<CommandValue>, k: nat)
    requires k < |parameters| && FineUpTo(platform, parameters, named, positional, k)
    ensures Missing(parameters, named, positional, k) ==>
              BindingOf(platform, parameters, executable, named, positional) == MissingParameter(parameters[k].name)
    ensures Invalid(platform, parameters, named, positional, k) ==>
              BindingOf(platform, parameters, executable, named, positional) ==
              InvalidParameter(parameters[k].name,
                Validate(platform, parameters[k], Supply(parameters, named, positional, k).value))
  {
    assert parameters[0..] == parameters && positional[0..] == positional;
    forall j | 0 <= j <= k
      ensures Acceptable(platform, parameters, named, positional, j) <==>
              !Missing(parameters, named, positional, j) && !Invalid(platform, parameters, named, positional, j)
    {
      FineIsAcceptable(platform, parameters, named, positional, j);
    }
    if !Acceptable(platform, parameters, named, positional, k) {
      BindAllStops(platform, parameters, named, positional, 0, k);
    }
  }

  /** ... then a positional too many, then the first unknown key, then a command without a callback. */
  lemma {:induction false} OtherErrorsNext(platform: Platform, parameters: seq<CommandParameter>, executable: bool,
                                           named: seq<NamedValue>, positional: seq<CommandValue>)
    requires FineUpTo(platform, parameters, named, positional, |parameters|)
    ensures var result := BindingOf(platform, parameters, executable, named, positional);
            if Rank(parameters, named, |parameters|) < |positional| then result == TooManyPositional
            else if KnownUpTo(parameters, named, |named|) then
              if executable then result.Ready? else result == NotExecutable
            else
              forall k: nat :: k < |named| && KnownUpTo(parameters, named, k) && !KnownKey(parameters, named[k].0) ==>
                result == UnknownParameter(named[k].0)
  {
    assert parameters[0..] == parameters && positional[0..] == positional;
    forall j | 0 <= j < |parameters| ensures Acceptable(platform, parameters, named, positional, j) {
      FineIsAcceptable(platform, parameters, named, positional, j);
    }
    forall k | 0 <= k < |named| ensures Known(parameters, named[k].0) <==> KnownKey(parameters, named[k].0) {
      KnownIff(parameters, named[k].0);
    }
    BindAllIsSupply(platform, parameters, named, positional, 0);
    FirstUnknownNone(parameters, named);
    forall k: nat | k < |named| && KnownUpTo(parameters, named, k) && !KnownKey(parameters, named[k].0)
      ensures FirstUnknown(parameters, named) == Some(named[k].0)
    {
      FirstUnknownAt(parameters, named, k);
    }
  }
}
