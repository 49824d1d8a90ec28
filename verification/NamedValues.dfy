/** The ordered map of named arguments, as the sequence of pairs an iteration over it sees. */
module NamedValues {
  import opened Prelude
  import opened CommandValues
  import opened CommandParameters

  type NamedValue = (string, CommandValue)

  /** `std::less` on command text. */
  predicate Less(a: string, b: string) {
    b != "" && (a == "" || a[0] < b[0] || (a[0] == b[0] && Less(a[1..], b[1..])))
  }

  predicate Sorted(named: seq<NamedValue>) {
    forall i, j :: 0 <= i < j < |named| ==> Less(named[i].0, named[j].0)
  }

  /** `emplace`: a key that is already there keeps its first value. */
  function Emplace(named: seq<NamedValue>, key: string, value: CommandValue): seq<NamedValue> {
    if named == [] then [(key, value)]
    else if named[0].0 == key then named
    else if Less(key, named[0].0) then [(key, value)] + named
    else [named[0]] + Emplace(named[1..], key, value)
  }

  function EmplaceAll(named: seq<NamedValue>, pairs: seq<NamedValue>): seq<NamedValue>
    decreases |pairs|
  {
    if pairs == [] then named
    else EmplaceAll(Emplace(named, pairs[0].0, pairs[0].1), pairs[1..])
  }

  /** The value of the first key, in key order, that names the parameter. */
  function FirstMatch(named: seq<NamedValue>, parameter: CommandParameter): Option<CommandValue> {
    if named == [] then None
    else if parameter.Matches(named[0].0) then Some(named[0].1)
    else FirstMatch(named[1..], parameter)
  }

  lemma {:induction false} FirstMatchAt(named: seq<NamedValue>, parameter: CommandParameter) returns (k: nat)
    ensures k <= |named| && forall j :: 0 <= j < k ==> named[j].0 != parameter.name && named[j].0 !in parameter.aliases
    ensures k < |named| ==> named[k].0 == parameter.name || named[k].0 in parameter.aliases
    ensures FirstMatch(named, parameter) == if k < |named| then Some(named[k].1) else None
  {
    k := 0;
    if named != [] && !parameter.Matches(named[0].0) {
      var later := FirstMatchAt(named[1..], parameter);
      k := later + 1;
      assert forall j :: 0 < j < |named| ==> named[j] == named[1..][j-1];
    }
  }

  /** A parameter gets the value of the first key, in key order, that is its name or one of its aliases. */
  lemma {:induction false} LookupIff(named: seq<NamedValue>, parameter: CommandParameter, value: CommandValue)
    ensures FirstMatch(named, parameter) == Some(value) <==>
            exists k ::
              && 0 <= k < |named| && named[k].1 == value
              && (named[k].0 == parameter.name || named[k].0 in parameter.aliases)
              && forall j :: 0 <= j < k ==> named[j].0 != parameter.name && named[j].0 !in parameter.aliases
  {
    var k := FirstMatchAt(named, parameter);
  }

  // ----- the order on keys

  lemma {:induction false} LessTransitive(a: string, b: string, c: string)
    requires Less(a, b) && Less(b, c)
    ensures Less(a, c)
  {
    if a != "" && a[0] == b[0] == c[0] {
      LessTransitive(a[1..], b[1..], c[1..]);
    }
  }

  /** The texts agree up to character `k`, and there `a` has the smaller one. */
  ghost predicate SmallerAt(a: string, b: string, k: nat) {
    k < |a| && k < |b| && a[k] < b[k] && forall j :: 0 <= j < k ==> a[j] == b[j]
  }

  ghost predicate ProperPrefix(a: string, b: string) {
    |a| < |b| && forall j :: 0 <= j < |a| ==> a[j] == b[j]
  }

  lemma {:induction false} SameStart(a: string, b: string, k: nat)
    requires a != "" && b != "" && a[0] == b[0]
    ensures SmallerAt(a, b, k + 1) <==> SmallerAt(a[1..], b[1..], k)
    ensures ProperPrefix(a, b) <==> ProperPrefix(a[1..], b[1..])
  {
    assert forall j :: 0 < j < |a| ==> a[j] == a[1..][j-1];
    assert forall j :: 0 < j < |b| ==> b[j] == b[1..][j-1];
    if SmallerAt(a, b, k + 1) {
      forall j | 0 <= j < k ensures a[1..][j] == b[1..][j] {
        assert a[j+1] == b[j+1];
      }
    }
    if ProperPrefix(a, b) {
      forall j | 0 <= j < |a[1..]| ensures a[1..][j] == b[1..][j] {
        assert a[j+1] == b[j+1];
      }
    }
  }

  /** The order on keys is lexicographic by character, a prefix coming first. */
  lemma {:induction false} LessIff(a: string, b: string)
    ensures Less(a, b) <==> ProperPrefix(a, b) || exists k: nat :: SmallerAt(a, b, k)
  {
    if a != "" && b != "" {
      if a[0] == b[0] {
        LessIff(a[1..], b[1..]);
        SameStart(a, b, 0);
        if k: nat :| SmallerAt(a[1..], b[1..], k) {
          SameStart(a, b, k);
        }
        if k: nat :| SmallerAt(a, b, k) {
          SameStart(a, b, k - 1);
        }
      } else {
        assert a[0] < b[0] ==> SmallerAt(a, b, 0);
      }
    }
  }

  lemma {:induction false} LessTotal(a: string, b: string)
    ensures !(Less(a, b) && Less(b, a)) && (a == b ==> !Less(a, b))
    ensures Less(a, b) || a == b || Less(b, a)
  {
    if a != "" && b != "" && a[0] == b[0] {
      LessTotal(a[1..], b[1..]);
      assert a == [a[0]] + a[1..] && b == [b[0]] + b[1..];
    }
  }

  // ----- it is a map that keeps its keys in order

  ghost predicate Holds(named: seq<NamedValue>, key: string, value: CommandValue) {
    (key, value) in named
  }

  lemma {:induction false} EmplaceIsInsertion(named: seq<NamedValue>, key: string, value: CommandValue)
    requires Sorted(named)
    ensures Sorted(Emplace(named, key, value))
    ensures forall pair :: pair in Emplace(named, key, value) <==>
                           pair in named || (pair == (key, value) && forall v :: !Holds(named, key, v))
  {
    if named != [] {
      var rest := named[1..];
      assert named == [named[0]] + rest;
      LessTotal(key, named[0].0);
      if named[0].0 == key {
        assert Holds(named, key, named[0].1);
      } else if Less(key, named[0].0) {
        forall j | 0 <= j < |named| ensures Less(key, named[j].0) && named[j].0 != key {
          if j != 0 { LessTransitive(key, named[0].0, named[j].0); }
          LessTotal(key, named[j].0);
        }
      } else {
        EmplaceIsInsertion(rest, key, value);
        assert forall v :: Holds(named, key, v) <==> Holds(rest, key, v);
        var grown := Emplace(rest, key, value);
        forall j | 0 <= j < |grown| ensures Less(named[0].0, grown[j].0) {
          assert grown[j] in grown;
          if grown[j] in rest {
            var i :| 0 <= i < |rest| && rest[i] == grown[j];
            assert named[i+1] == grown[j];
          }
        }
      }
    }
  }

  /** A key above all others goes to the end. */
  lemma {:induction false} EmplaceLast(named: seq<NamedValue>, key: string, value: CommandValue)
    requires forall i :: 0 <= i < |named| ==> Less(named[i].0, key)
    ensures Emplace(named, key, value) == named + [(key, value)]
  {
    if named != [] {
      LessTotal(named[0].0, key);
      EmplaceLast(named[1..], key, value);
      assert named == [named[0]] + named[1..];
    }
  }

  // ----- lookups after an insertion

  lemma {:induction false} EmplaceElsewhere(named: seq<NamedValue>, key: string, value: CommandValue,
                                            parameter: CommandParameter)
    requires !parameter.Matches(key)
    ensures FirstMatch(Emplace(named, key, value), parameter) == FirstMatch(named, parameter)
  {
    if named != [] && named[0].0 != key && !Less(key, named[0].0) {
      EmplaceElsewhere(named[1..], key, value, parameter);
    } else if named != [] && named[0].0 != key {
      assert ([(key, value)] + named)[1..] == named;
    }
  }

  lemma {:induction false} EmplaceHere(named: seq<NamedValue>, key: string, value: CommandValue,
                                       parameter: CommandParameter)
    requires parameter.Matches(key) && FirstMatch(named, parameter).None?
    ensures FirstMatch(Emplace(named, key, value), parameter) == Some(value)
  {
    if named != [] && named[0].0 != key && !Less(key, named[0].0) {
      EmplaceHere(named[1..], key, value, parameter);
    }
  }

  lemma {:induction false} EmplaceAllElsewhere(named: seq<NamedValue>, pairs: seq<NamedValue>,
                                               parameter: CommandParameter)
    requires forall i :: 0 <= i < |pairs| ==> !parameter.Matches(pairs[i].0)
    ensures FirstMatch(EmplaceAll(named, pairs), parameter) == FirstMatch(named, parameter)
    decreases |pairs|
  {
    if pairs != [] {
      EmplaceElsewhere(named, pairs[0].0, pairs[0].1, parameter);
      EmplaceAllElsewhere(Emplace(named, pairs[0].0, pairs[0].1), pairs[1..], parameter);
    }
  }

  lemma {:induction false} EmplaceAllHere(named: seq<NamedValue>, pairs: seq<NamedValue>, k: nat,
                                          parameter: CommandParameter)
    requires k < |pairs| && parameter.Matches(pairs[k].0) && FirstMatch(named, parameter).None?
    requires forall i :: 0 <= i < |pairs| && i != k ==> !parameter.Matches(pairs[i].0)
    ensures FirstMatch(EmplaceAll(named, pairs), parameter) == Some(pairs[k].1)
    decreases k
  {
    var next := Emplace(named, pairs[0].0, pairs[0].1);
    if k == 0 {
      EmplaceHere(named, pairs[0].0, pairs[0].1, parameter);
      EmplaceAllElsewhere(next, pairs[1..], parameter);
    } else {
      EmplaceElsewhere(named, pairs[0].0, pairs[0].1, parameter);
      EmplaceAllHere(next, pairs[1..], k - 1, parameter);
    }
  }

  lemma {:induction false} EmplaceMisses(named: seq<NamedValue>, key: string, value: CommandValue,
                                         parameter: CommandParameter)
    ensures FirstMatch(Emplace(named, key, value), parameter).None? <==>
            FirstMatch(named, parameter).None? && !parameter.Matches(key)
  {
    if named != [] && named[0].0 != key && !Less(key, named[0].0) {
      EmplaceMisses(named[1..], key, value, parameter);
    } else if named != [] && named[0].0 != key {
      assert ([(key, value)] + named)[1..] == named;
    }
  }

  /** A parameter finds nothing iff it found nothing before and answers to none of the new keys. */
  lemma {:induction false} EmplaceAllMisses(named: seq<NamedValue>, pairs: seq<NamedValue>, parameter: CommandParameter)
    ensures FirstMatch(EmplaceAll(named, pairs), parameter).None? <==>
            FirstMatch(named, parameter).None? && forall i :: 0 <= i < |pairs| ==> !parameter.Matches(pairs[i].0)
    decreases |pairs|
  {
    if pairs != [] {
      EmplaceMisses(named, pairs[0].0, pairs[0].1, parameter);
      EmplaceAllMisses(Emplace(named, pairs[0].0, pairs[0].1), pairs[1..], parameter);
      assert forall i :: 0 < i < |pairs| ==> pairs[i] == pairs[1..][i-1];
    }
  }

  lemma {:induction false} EmplaceAllSorted(named: seq<NamedValue>, pairs: seq<NamedValue>)
    requires Sorted(named + pairs)
    ensures EmplaceAll(named, pairs) == named + pairs
    decreases |pairs|
  {
    if pairs == [] {
      assert named + pairs == named;
    } else {
      var all := named + pairs;
      forall i | 0 <= i < |named| ensures Less(named[i].0, pairs[0].0) {
        assert all[i] == named[i] && all[|named|] == pairs[0];
      }
      EmplaceLast(named, pairs[0].0, pairs[0].1);
      assert all == (named + [(pairs[0].0, pairs[0].1)]) + pairs[1..];
      EmplaceAllSorted(named + [(pairs[0].0, pairs[0].1)], pairs[1..]);
    }
  }
}
