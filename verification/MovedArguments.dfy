/** An argument may be moved from its position to its parameter's name: when that changes nothing. */
module MovedArguments {
  import opened Prelude
  import opened CommandValues
  import opened CommandParameters
  import opened NamedValues
  import opened ParameterBinding
  import opened BindingProperties

  /** Parameter `i` does not answer to the canonical name of parameter `j`, if that is moved. */
  predicate Apart(parameters: seq<CommandParameter>, moved: seq<bool>, i: nat, j: nat)
    requires |moved| == |parameters|
  {
    i < |parameters| && j < |parameters| && i != j && moved[j] ==> !parameters[i].Matches(parameters[j].name)
  }

  /** No other parameter answers to the canonical name of a moved one. */
  ghost predicate MovedNamesApart(parameters: seq<CommandParameter>, moved: seq<bool>)
    requires |moved| == |parameters|
  {
    forall i: nat, j: nat :: Apart(parameters, moved, i, j)
  }

  lemma {:induction false} TailApart(parameters: seq<CommandParameter>, moved: seq<bool>)
    requires parameters != [] && |moved| == |parameters| && MovedNamesApart(parameters, moved)
    ensures MovedNamesApart(parameters[1..], moved[1..])
    ensures moved[0] ==> forall i :: 0 <= i < |parameters[1..]| ==> !parameters[1..][i].Matches(parameters[0].name)
  {
    forall i: nat, j: nat ensures Apart(parameters[1..], moved[1..], i, j) {
      assert Apart(parameters, moved, i + 1, j + 1);
    }
    forall i | moved[0] && 0 <= i < |parameters[1..]|
      ensures !parameters[1..][i].Matches(parameters[0].name)
    {
      assert Apart(parameters, moved, i + 1, 0);
    }
  }

  /** The pairs that appear among the named arguments when the positional taken by parameter `i` is
      given by name instead, for each `i` with `moved[i]`; `rest` is what the parameters share out. */
  function MovedPairs(parameters: seq<CommandParameter>, named: seq<NamedValue>, rest: seq<CommandValue>,
                      moved: seq<bool>): seq<NamedValue>
    requires |moved| == |parameters|
    decreases |parameters|
  {
    if parameters == [] || rest == [] then []
    else if !Positional(parameters[0], named) then MovedPairs(parameters[1..], named, rest, moved[1..])
    else
      (if moved[0] then [(parameters[0].name, rest[0])] else [])
      + MovedPairs(parameters[1..], named, rest[1..], moved[1..])
  }

  /** The positionals that stay. */
  function KeptPositionals(parameters: seq<CommandParameter>, named: seq<NamedValue>, rest: seq<CommandValue>,
                           moved: seq<bool>): seq<CommandValue>
    requires |moved| == |parameters|
    decreases |parameters|
  {
    if parameters == [] || rest == [] then rest
    else if !Positional(parameters[0], named) then KeptPositionals(parameters[1..], named, rest, moved[1..])
    else
      (if moved[0] then [] else [rest[0]])
      + KeptPositionals(parameters[1..], named, rest[1..], moved[1..])
  }

  /** Parameter `j` is moved and `key` is its canonical name. */
  predicate MovedName(parameters: seq<CommandParameter>, moved: seq<bool>, j: nat, key: string)
    requires |moved| == |parameters|
  {
    j < |parameters| && moved[j] && key == parameters[j].name
  }

  ghost predicate NameAmong(key: string, parameters: seq<CommandParameter>, moved: seq<bool>)
    requires |moved| == |parameters|
  {
    exists j: nat :: MovedName(parameters, moved, j, key)
  }

  /** Every key is the canonical name of one of the moved parameters. */
  ghost predicate NamesAmong(pairs: seq<NamedValue>, parameters: seq<CommandParameter>, moved: seq<bool>)
    requires |moved| == |parameters|
  {
    forall k :: 0 <= k < |pairs| ==> NameAmong(pairs[k].0, parameters, moved)
  }

  lemma {:induction false} MovedPairsNames(parameters: seq<CommandParameter>, named: seq<NamedValue>,
                                           rest: seq<CommandValue>, moved: seq<bool>)
    requires |moved| == |parameters|
    ensures NamesAmong(MovedPairs(parameters, named, rest, moved), parameters, moved)
    decreases |parameters|
  {
    if parameters != [] && rest != [] {
      var later := if Positional(parameters[0], named) then rest[1..] else rest;
      MovedPairsNames(parameters[1..], named, later, moved[1..]);
      var pairs := MovedPairs(parameters, named, rest, moved);
      var laterPairs := MovedPairs(parameters[1..], named, later, moved[1..]);
      var shift := |pairs| - |laterPairs|;
      assert pairs == (if shift == 0 then [] else [(parameters[0].name, rest[0])]) + laterPairs;
      assert shift != 0 ==> moved[0];
      forall k | 0 <= k < |pairs| ensures NameAmong(pairs[k].0, parameters, moved) {
        if k < shift {
          assert MovedName(parameters, moved, 0, pairs[k].0);
        } else {
          assert pairs[k] == laterPairs[k - shift] && NameAmong(laterPairs[k - shift].0, parameters[1..], moved[1..]);
          var j: nat :| MovedName(parameters[1..], moved[1..], j, laterPairs[k - shift].0);
          assert MovedName(parameters, moved, j + 1, pairs[k].0);
        }
      }
    }
  }

  /** None of the parameters answers to the key of any of the pairs. */
  ghost predicate Unmatched(parameters: seq<CommandParameter>, pairs: seq<NamedValue>) {
    forall b, i :: 0 <= b < |pairs| && 0 <= i < |parameters| ==> !parameters[i].Matches(pairs[b].0)
  }

  /** After the move the head parameter finds among the named values the one it was given, or what it found
      before; `before` are pairs already moved for earlier parameters. */
  lemma {:induction false} HeadUnaffected(parameters: seq<CommandParameter>, named: seq<NamedValue>,
                                          rest: seq<CommandValue>,
                                          moved: seq<bool>, before: seq<NamedValue>)
    requires parameters != [] && |moved| == |parameters|
    requires MovedNamesApart(parameters, moved) && Unmatched(parameters, before)
    ensures var moves := Positional(parameters[0], named) && rest != [] && moved[0];
            FirstMatch(EmplaceAll(named, before + MovedPairs(parameters, named, rest, moved)), parameters[0]) ==
            if moves then Some(rest[0]) else FirstMatch(named, parameters[0])
  {
    var p := parameters[0];
    var pairs := before + MovedPairs(parameters, named, rest, moved);
    var moves := Positional(p, named) && rest != [] && moved[0];
    var later := if Positional(p, named) && rest != [] then rest[1..] else rest;
    var laterPairs := MovedPairs(parameters[1..], named, later, moved[1..]);
    MovedPairsNames(parameters[1..], named, later, moved[1..]);
    TailApart(parameters, moved);
    forall k | 0 <= k < |laterPairs| ensures !p.Matches(laterPairs[k].0) {
      assert NameAmong(laterPairs[k].0, parameters[1..], moved[1..]);
      var j: nat :| MovedName(parameters[1..], moved[1..], j, laterPairs[k].0);
      assert Apart(parameters, moved, 0, j + 1);
    }
    if moves {
      assert pairs == before + ([(p.name, rest[0])] + laterPairs);
      EmplaceAllHere(named, pairs, |before|, p);
    } else {
      if rest != [] {
        assert MovedPairs(parameters, named, rest, moved) == laterPairs;
      }
      EmplaceAllElsewhere(named, pairs, p);
    }
  }

  predicate Takes(parameters: seq<CommandParameter>, named: seq<NamedValue>, rest: seq<CommandValue>)
    requires parameters != []
  {
    Positional(parameters[0], named) && rest != []
  }

  /** The positionals the head leaves to the tail. */
  function Later(parameters: seq<CommandParameter>, named: seq<NamedValue>, rest: seq<CommandValue>): seq<CommandValue>
    requires parameters != []
  {
    if Takes(parameters, named, rest) then rest[1..] else rest
  }

  lemma {:induction false} PairsStep(parameters: seq<CommandParameter>, named: seq<NamedValue>, rest: seq<CommandValue>,
                                     moved: seq<bool>, before: seq<NamedValue>) returns (before': seq<NamedValue>)
    requires parameters != [] && |moved| == |parameters|
    requires MovedNamesApart(parameters, moved) && Unmatched(parameters, before)
    ensures Unmatched(parameters[1..], before')
    ensures before + MovedPairs(parameters, named, rest, moved) ==
            before' + MovedPairs(parameters[1..], named, Later(parameters, named, rest), moved[1..])
  {
    TailApart(parameters, moved);
    var p, later := parameters[0], Later(parameters, named, rest);
    var laterPairs := MovedPairs(parameters[1..], named, later, moved[1..]);
    if Takes(parameters, named, rest) && moved[0] {
      before' := before + [(p.name, rest[0])];
      assert before + ([(p.name, rest[0])] + laterPairs) == before' + laterPairs;
    } else {
      before' := before;
      assert MovedPairs(parameters, named, rest, moved) == laterPairs;
    }
  }

  /** The head chooses as before, and leaves the tail what is kept for it. */
  lemma {:induction false} HeadChoice(parameters: seq<CommandParameter>, named: seq<NamedValue>,
                                      rest: seq<CommandValue>,
                                      moved: seq<bool>, named': seq<NamedValue>)
    requires parameters != [] && |moved| == |parameters|
    requires FirstMatch(named', parameters[0]) ==
             if Takes(parameters, named, rest) && moved[0] then Some(rest[0]) else FirstMatch(named, parameters[0])
    ensures var later := Later(parameters, named, rest);
            && Choose(parameters[0], named, rest).rest == later
            && Choose(parameters[0], named', KeptPositionals(parameters, named, rest, moved)) ==
               Choose(parameters[0], named, rest).(rest := KeptPositionals(parameters[1..], named, later, moved[1..]))
  {
    var later := Later(parameters, named, rest);
    var kept := KeptPositionals(parameters, named, rest, moved);
    var laterKept := KeptPositionals(parameters[1..], named, later, moved[1..]);
    if Takes(parameters, named, rest) && !moved[0] {
      assert kept == [rest[0]] + laterKept;
      assert kept[0] == rest[0] && kept[1..] == laterKept;
    } else {
      assert kept == laterKept;
    }
  }

  /** After the move every parameter finds under its names what it is meant to: the moved value, if one was
      moved from it, and otherwise what it found before. */
  predicate AsMeant(parameters: seq<CommandParameter>, named: seq<NamedValue>, named': seq<NamedValue>,
                    rest: seq<CommandValue>, moved: seq<bool>)
    requires |moved| == |parameters|
    decreases |parameters|
  {
    parameters == [] ||
    (&& FirstMatch(named', parameters[0]) ==
        (if Takes(parameters, named, rest) && moved[0] then Some(rest[0]) else FirstMatch(named, parameters[0]))
     && AsMeant(parameters[1..], named, named', Later(parameters, named, rest), moved[1..]))
  }

  /** Then the binding loop does the same. */
  lemma {:induction false} MeantBindsAlike(platform: Platform, parameters: seq<CommandParameter>,
                                           named: seq<NamedValue>, named': seq<NamedValue>,
                                           rest: seq<CommandValue>, moved: seq<bool>)
    requires |moved| == |parameters| && AsMeant(parameters, named, named', rest, moved)
    ensures BindAll(platform, parameters, named', KeptPositionals(parameters, named, rest, moved)) ==
            BindAll(platform, parameters, named, rest)
    decreases |parameters|
  {
    if parameters != [] {
      HeadChoice(parameters, named, rest, moved, named');
      MeantBindsAlike(platform, parameters[1..], named, named', Later(parameters, named, rest), moved[1..]);
    }
  }

  /** Names that stay apart are found as meant; `pairs` are all the pairs moved, those for earlier
      parameters first. */
  lemma {:induction false} ApartIsMeant(parameters: seq<CommandParameter>, named: seq<NamedValue>,
                                        rest: seq<CommandValue>, moved: seq<bool>, before: seq<NamedValue>,
                                        pairs: seq<NamedValue>)
    requires |moved| == |parameters| && MovedNamesApart(parameters, moved) && Unmatched(parameters, before)
    requires pairs == before + MovedPairs(parameters, named, rest, moved)
    ensures AsMeant(parameters, named, EmplaceAll(named, pairs), rest, moved)
    decreases |parameters|
  {
    if parameters != [] {
      HeadUnaffected(parameters, named, rest, moved, before);
      var before' := PairsStep(parameters, named, rest, moved, before);
      TailApart(parameters, moved);
      ApartIsMeant(parameters[1..], named, Later(parameters, named, rest), moved[1..], before', pairs);
    }
  }

  lemma {:induction false} EmplaceKnown(parameters: seq<CommandParameter>, named: seq<NamedValue>, key: string,
                                        value: CommandValue)
    requires Known(parameters, key)
    ensures FirstUnknown(parameters, Emplace(named, key, value)) == FirstUnknown(parameters, named)
    decreases |named|
  {
    if named != [] && named[0].0 != key {
      if Less(key, named[0].0) {
        assert ([(key, value)] + named)[1..] == named;
      } else {
        EmplaceKnown(parameters, named[1..], key, value);
      }
    }
  }

  lemma {:induction false} EmplaceAllKnown(parameters: seq<CommandParameter>, named: seq<NamedValue>,
                                           pairs: seq<NamedValue>)
    requires forall k :: 0 <= k < |pairs| ==> Known(parameters, pairs[k].0)
    ensures FirstUnknown(parameters, EmplaceAll(named, pairs)) == FirstUnknown(parameters, named)
    decreases |pairs|
  {
    if pairs != [] {
      EmplaceKnown(parameters, named, pairs[0].0, pairs[0].1);
      EmplaceAllKnown(parameters, Emplace(named, pairs[0].0, pairs[0].1), pairs[1..]);
    }
  }

  /** The invocation after the move. */
  function MovedBinding(platform: Platform, parameters: seq<CommandParameter>, executable: bool,
                        named: seq<NamedValue>, positional: seq<CommandValue>, moved: seq<bool>): BindingResult
    requires |moved| == |parameters|
  {
    BindingOf(platform, parameters, executable,
              EmplaceAll(named, MovedPairs(parameters, named, positional, moved)),
              KeptPositionals(parameters, named, positional, moved))
  }

  lemma {:induction false} MovedPairsKnown(parameters: seq<CommandParameter>, named: seq<NamedValue>,
                                           positional: seq<CommandValue>, moved: seq<bool>)
    requires |moved| == |parameters|
    ensures var pairs := MovedPairs(parameters, named, positional, moved);
            FirstUnknown(parameters, EmplaceAll(named, pairs)) == FirstUnknown(parameters, named)
  {
    var pairs := MovedPairs(parameters, named, positional, moved);
    MovedPairsNames(parameters, named, positional, moved);
    EmplaceAllKnown(parameters, named, pairs);
  }

  /** Passing any subset of the positionals under their parameters' canonical names instead changes
      neither the bindings, nor the error, nor how far the invocation gets. */
  lemma {:induction false} PositionalOrNamed(platform: Platform, parameters: seq<CommandParameter>, executable: bool,
                                             named: seq<NamedValue>, positional: seq<CommandValue>, moved: seq<bool>)
    requires |moved| == |parameters| && MovedNamesApart(parameters, moved)
    ensures MovedBinding(platform, parameters, executable, named, positional, moved) ==
            BindingOf(platform, parameters, executable, named, positional)
  {
    var pairs := MovedPairs(parameters, named, positional, moved);
    ApartIsMeant(parameters, named, positional, moved, [], pairs);
    MeantBindsAlike(platform, parameters, named, EmplaceAll(named, pairs), positional, moved);
    MovedPairsKnown(parameters, named, positional, moved);
  }

  // ----- exactly when it changes nothing

  /** Every value given by name or by position ends up in a binding that is not a default; so this count
      tells how many parameters are named. */
  function NotDefaulted(bindings: seq<Binding>): nat {
    if bindings == [] then 0 else (if bindings[0].owned then 0 else 1) + NotDefaulted(bindings[1..])
  }

  function NamedCount(parameters: seq<CommandParameter>, named: seq<NamedValue>): nat {
    if parameters == [] then 0
    else (if FirstMatch(named, parameters[0]).Some? then 1 else 0) + NamedCount(parameters[1..], named)
  }

  lemma {:induction false} ValuesBalance(platform: Platform, parameters: seq<CommandParameter>,
                                         named: seq<NamedValue>, rest: seq<CommandValue>)
    ensures var progress := BindAll(platform, parameters, named, rest);
            progress.Bound? ==>
              NotDefaulted(progress.bindings) + |progress.rest| == NamedCount(parameters, named) + |rest|
    decreases |parameters|
  {
    if parameters != [] {
      var first := BindOne(platform, parameters[0], Choose(parameters[0], named, rest));
      if first.Bound? {
        ValuesBalance(platform, parameters[1..], named, first.rest);
        var later := BindAll(platform, parameters[1..], named, first.rest);
        if later.Bound? && first.bindings != [] {
          assert (first.bindings + later.bindings)[1..] == later.bindings;
        } else if later.Bound? {
          assert first.bindings + later.bindings == later.bindings;
        }
      }
    }
  }

  /** What was found before is still found, and so are the moved values. */
  ghost predicate Grown(parameters: seq<CommandParameter>, named: seq<NamedValue>, named': seq<NamedValue>,
                        rest: seq<CommandValue>, moved: seq<bool>)
    requires |moved| == |parameters|
    decreases |parameters|
  {
    parameters == [] ||
    (&& (FirstMatch(named, parameters[0]).Some? || (Takes(parameters, named, rest) && moved[0]) ==>
           FirstMatch(named', parameters[0]).Some?)
     && Grown(parameters[1..], named, named', Later(parameters, named, rest), moved[1..]))
  }

  /** What was not found before is not found, unless it is a moved value. */
  ghost predicate NothingElse(parameters: seq<CommandParameter>, named: seq<NamedValue>, named': seq<NamedValue>,
                              rest: seq<CommandValue>, moved: seq<bool>)
    requires |moved| == |parameters|
    decreases |parameters|
  {
    parameters == [] ||
    (&& (FirstMatch(named, parameters[0]).None? && !(Takes(parameters, named, rest) && moved[0]) ==>
           FirstMatch(named', parameters[0]).None?)
     && NothingElse(parameters[1..], named, named', Later(parameters, named, rest), moved[1..]))
  }

  lemma {:induction false} PairsGrow(parameters: seq<CommandParameter>, named: seq<NamedValue>,
                                     rest: seq<CommandValue>, moved: seq<bool>, pairs: seq<NamedValue>)
    requires |moved| == |parameters|
    requires forall pair :: pair in MovedPairs(parameters, named, rest, moved) ==> pair in pairs
    ensures Grown(parameters, named, EmplaceAll(named, pairs), rest, moved)
    decreases |parameters|
  {
    if parameters != [] {
      EmplaceAllMisses(named, pairs, parameters[0]);
      if Takes(parameters, named, rest) && moved[0] {
        assert (parameters[0].name, rest[0]) in MovedPairs(parameters, named, rest, moved);
        var k :| 0 <= k < |pairs| && pairs[k] == (parameters[0].name, rest[0]);
        assert parameters[0].Matches(pairs[k].0);
      }
      PairsGrow(parameters[1..], named, Later(parameters, named, rest), moved[1..], pairs);
    }
  }

  lemma {:induction false} CountGrows(parameters: seq<CommandParameter>, named: seq<NamedValue>,
                                      named': seq<NamedValue>, rest: seq<CommandValue>, moved: seq<bool>)
    requires |moved| == |parameters| && Grown(parameters, named, named', rest, moved)
    ensures var n, n' := NamedCount(parameters, named), NamedCount(parameters, named');
            var pairs := MovedPairs(parameters, named, rest, moved);
            n + |pairs| <= n' && (n + |pairs| == n' ==> NothingElse(parameters, named, named', rest, moved))
    decreases |parameters|
  {
    if parameters != [] {
      CountGrows(parameters[1..], named, named', Later(parameters, named, rest), moved[1..]);
    }
  }

  lemma {:induction false} KeptCount(parameters: seq<CommandParameter>, named: seq<NamedValue>,
                                     rest: seq<CommandValue>, moved: seq<bool>)
    requires |moved| == |parameters|
    ensures |KeptPositionals(parameters, named, rest, moved)| + |MovedPairs(parameters, named, rest, moved)| == |rest|
    decreases |parameters|
  {
    if parameters != [] && rest != [] {
      KeptCount(parameters[1..], named, Later(parameters, named, rest), moved[1..]);
    }
  }

  lemma {:induction false} HeadDiffers(platform: Platform, parameters: seq<CommandParameter>, named: seq<NamedValue>,
                                       named': seq<NamedValue>, rest: seq<CommandValue>, kept: seq<CommandValue>)
    requires parameters != [] && BindAll(platform, parameters, named, rest).Bound?
    requires FirstMatch(named', parameters[0]).Some?
    requires Choose(parameters[0], named, rest).value.Some? && !Choose(parameters[0], named, rest).owned
    requires Choose(parameters[0], named, rest).value != FirstMatch(named', parameters[0])
    ensures BindAll(platform, parameters, named', kept) != BindAll(platform, parameters, named, rest)
  {
    var before, after := BindAll(platform, parameters, named, rest), BindAll(platform, parameters, named', kept);
    assert before.bindings[0].value == Choose(parameters[0], named, rest).value.value;
    if after.Bound? {
      assert after.bindings[0].value == FirstMatch(named', parameters[0]).value;
    }
  }

  lemma {:induction false} TailDiffers(platform: Platform, parameters: seq<CommandParameter>, named: seq<NamedValue>,
                                       named': seq<NamedValue>, rest: seq<CommandValue>, kept: seq<CommandValue>)
    requires parameters != [] && BindAll(platform, parameters, named, rest).Bound?
    requires var choice, choice' := Choose(parameters[0], named, rest), Choose(parameters[0], named', kept);
             && choice' == choice.(rest := choice'.rest)
             && BindAll(platform, parameters[1..], named', choice'.rest) !=
                BindAll(platform, parameters[1..], named, choice.rest)
    ensures BindAll(platform, parameters, named', kept) != BindAll(platform, parameters, named, rest)
  {
    var first := BindOne(platform, parameters[0], Choose(parameters[0], named, rest));
    var later := BindAll(platform, parameters[1..], named, first.rest);
    var later' := BindAll(platform, parameters[1..], named', Choose(parameters[0], named', kept).rest);
    if later'.Bound? && first.bindings + later'.bindings == first.bindings + later.bindings {
      assert (first.bindings + later'.bindings)[|first.bindings|..] == later'.bindings;
      assert (first.bindings + later.bindings)[|first.bindings|..] == later.bindings;
    }
  }

  /** The first parameter that finds something else is bound to something else. */
  lemma {:induction false} UnmeantDiffers(platform: Platform, parameters: seq<CommandParameter>,
                                          named: seq<NamedValue>, named': seq<NamedValue>,
                                          rest: seq<CommandValue>, moved: seq<bool>)
    requires |moved| == |parameters| && BindAll(platform, parameters, named, rest).Bound?
    requires Grown(parameters, named, named', rest, moved) && NothingElse(parameters, named, named', rest, moved)
    requires !AsMeant(parameters, named, named', rest, moved)
    ensures BindAll(platform, parameters, named', KeptPositionals(parameters, named, rest, moved)) !=
            BindAll(platform, parameters, named, rest)
    decreases |parameters|
  {
    var kept := KeptPositionals(parameters, named, rest, moved);
    var moves := Takes(parameters, named, rest) && moved[0];
    if FirstMatch(named', parameters[0]) == if moves then Some(rest[0]) else FirstMatch(named, parameters[0]) {
      HeadChoice(parameters, named, rest, moved, named');
      UnmeantDiffers(platform, parameters[1..], named, named', Later(parameters, named, rest), moved[1..]);
      TailDiffers(platform, parameters, named, named', rest, kept);
    } else {
      HeadDiffers(platform, parameters, named, named', rest, kept);
    }
  }

  lemma {:induction false} BoundAlike(platform: Platform, parameters: seq<CommandParameter>, executable: bool,
                                      named: seq<NamedValue>, positional: seq<CommandValue>,
                                      named': seq<NamedValue>, positional': seq<CommandValue>)
    requires BindingOf(platform, parameters, executable, named, positional).Ready?
    requires BindingOf(platform, parameters, executable, named', positional') ==
             BindingOf(platform, parameters, executable, named, positional)
    ensures var progress := BindAll(platform, parameters, named, positional);
            && progress == BindAll(platform, parameters, named', positional')
            && progress.Bound? && progress.rest == []
  {
    StoppedIsError(platform, parameters, named, positional);
    StoppedIsError(platform, parameters, named', positional');
  }

  /** A valid invocation binds the same after the move exactly when every parameter finds under its names
      what it is meant to, which a caller can look up in the arguments. */
  lemma {:induction false} MoveHarmlessIff(platform: Platform, parameters: seq<CommandParameter>, executable: bool,
                                           named: seq<NamedValue>, positional: seq<CommandValue>, moved: seq<bool>)
    requires |moved| == |parameters| && BindingOf(platform, parameters, executable, named, positional).Ready?
    ensures MovedBinding(platform, parameters, executable, named, positional, moved) ==
            BindingOf(platform, parameters, executable, named, positional)
            <==>
            AsMeant(parameters, named, EmplaceAll(named, MovedPairs(parameters, named, positional, moved)),
                    positional, moved)
  {
    var pairs := MovedPairs(parameters, named, positional, moved);
    var named', kept := EmplaceAll(named, pairs), KeptPositionals(parameters, named, positional, moved);
    var result := BindingOf(platform, parameters, executable, named, positional);
    MovedPairsKnown(parameters, named, positional, moved);
    if AsMeant(parameters, named, named', positional, moved) {
      MeantBindsAlike(platform, parameters, named, named', positional, moved);
    } else if MovedBinding(platform, parameters, executable, named, positional, moved) == result {
      BoundAlike(platform, parameters, executable, named, positional, named', kept);
      ValuesBalance(platform, parameters, named, positional);
      ValuesBalance(platform, parameters, named', kept);
      KeptCount(parameters, named, positional, moved);
      PairsGrow(parameters, named, positional, moved, pairs);
      CountGrows(parameters, named, named', positional, moved);
      UnmeantDiffers(platform, parameters, named, named', positional, moved);
      assert false;
    }
  }

  lemma {:induction false} MeantFindsNothing(parameters: seq<CommandParameter>, named: seq<NamedValue>,
                                             named': seq<NamedValue>, rest: seq<CommandValue>, moved: seq<bool>, i: nat)
    requires |moved| == |parameters| && AsMeant(parameters, named, named', rest, moved)
    requires i < |parameters| && !moved[i] && FirstMatch(named, parameters[i]).None?
    ensures FirstMatch(named', parameters[i]).None?
    decreases |parameters|
  {
    if i != 0 {
      MeantFindsNothing(parameters[1..], named, named', Later(parameters, named, rest), moved[1..], i - 1);
    }
  }

  /** In particular the proviso is needed wherever it matters: when a parameter without a named value, not
      itself moved, answers to the name of one that is, moving changes what the invocation does. */
  lemma {:induction false} NameClashBreaksTheMove(platform: Platform, parameters: seq<CommandParameter>,
                                                  executable: bool, named: seq<NamedValue>,
                                                  positional: seq<CommandValue>, moved: seq<bool>, i: nat, k: nat)
    requires |moved| == |parameters| && BindingOf(platform, parameters, executable, named, positional).Ready?
    requires i < |parameters| && !moved[i] && FirstMatch(named, parameters[i]).None?
    requires k < |MovedPairs(parameters, named, positional, moved)|
    requires parameters[i].Matches(MovedPairs(parameters, named, positional, moved)[k].0)
    ensures MovedBinding(platform, parameters, executable, named, positional, moved) !=
            BindingOf(platform, parameters, executable, named, positional)
  {
    var pairs := MovedPairs(parameters, named, positional, moved);
    MoveHarmlessIff(platform, parameters, executable, named, positional, moved);
    EmplaceAllMisses(named, pairs, parameters[i]);
    if AsMeant(parameters, named, EmplaceAll(named, pairs), positional, moved) {
      MeantFindsNothing(parameters, named, EmplaceAll(named, pairs), positional, moved, i);
    }
  }
}
