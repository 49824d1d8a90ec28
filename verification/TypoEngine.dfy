/**
 The typo engine of the registry: the single-row Levenshtein program `Distance` and the
 suggestion search built on it.

 The reference definition is not a recurrence but a language of edit scripts.  A script is read
 from left to right; it keeps, replaces, drops or inserts one character at a time, and every
 operation but `Keep` costs one.  `DistanceIsOptimal` says that the number the program returns is
 the cost of some script and that no script is cheaper.
 */
module TypoEngine {
  import opened Prelude

  datatype Edit = Keep | Substitute(char) | Insert(char) | Delete

  /** What one operation writes, and what it leaves of the text before it; None when it needs a
      character and there is none. */
  function Emit(op: Edit, left: string): Option<(string, string)> {
    match op
    case Insert(c) => Some(([c], left))
    case Keep => if left == "" then None else Some(([left[0]], left[1..]))
    case Substitute(c) => if left == "" then None else Some(([c], left[1..]))
    case Delete => if left == "" then None else Some(("", left[1..]))
  }

  function Prepend(prefix: string, rest: Option<string>): Option<string> {
    if rest.None? then None else Some(prefix + rest.value)
  }

  /** What a script makes of `left`; None when it does not use up `left` exactly. */
  function Apply(script: seq<Edit>, left: string): Option<string>
  {
    if script == [] then
      if left == "" then Some("") else None
    else
      var emitted := Emit(script[0], left);
      if emitted.None? then None
      else Prepend(emitted.value.0, Apply(script[1..], emitted.value.1))
  }

  function Cost(script: seq<Edit>): nat {
    if script == [] then 0 else (if script[0].Keep? then 0 else 1) + Cost(script[1..])
  }

  ghost predicate Rewrites(script: seq<Edit>, left: string, right: string) {
    Apply(script, left) == Some(right)
  }

  // ----- the recurrence the dynamic program fills in

  function Mismatch(x: char, y: char): nat {
    if x == y then 0 else 1
  }

  function Lev(left: string, right: string): nat
    decreases |left| + |right|
  {
    if left == "" then |right|
    else if right == "" then |left|
    else
      var l, r := left[..|left|-1], right[..|right|-1];
      Min(Min(Lev(left, r) + 1, Lev(l, right) + 1),
          Lev(l, r) + Mismatch(left[|left|-1], right[|right|-1]))
  }

  /** The same recurrence over prefix lengths: the table the program keeps one row of. */
  function Cell(left: string, right: string, i: nat, j: nat): nat
    requires i <= |left| && j <= |right|
  {
    if i == 0 then j
    else if j == 0 then i
    else
      Min(Min(Cell(left, right, i, j - 1) + 1, Cell(left, right, i - 1, j) + 1),
          Cell(left, right, i - 1, j - 1) + Mismatch(left[i-1], right[j-1]))
  }

  lemma {:induction false} CellIsLev(left: string, right: string, i: nat, j: nat)
    requires i <= |left| && j <= |right|
    ensures Cell(left, right, i, j) == Lev(left[..i], right[..j])
  {
    if i != 0 && j != 0 {
      assert left[..i][..i-1] == left[..i-1];
      assert right[..j][..j-1] == right[..j-1];
      CellIsLev(left, right, i, j - 1);
      CellIsLev(left, right, i - 1, j);
      CellIsLev(left, right, i - 1, j - 1);
    }
  }

  /** `row` is row `i` of the table. */
  ghost predicate IsTableRow(left: string, right: string, i: nat, row: seq<nat>) {
    && i <= |left| && |row| == |right| + 1
    && forall j :: 0 <= j <= |right| ==> row[j] == Cell(left, right, i, j)
  }

  /** `below` is the table row under `above` when the row is headed `i` and belongs to `x`. */
  ghost predicate RowBelow(above: seq<nat>, below: seq<nat>, i: nat, x: char, right: string) {
    && |above| == |below| == |right| + 1
    && below[0] == i
    && forall j :: 0 < j <= |right| ==>
         below[j] == Min(Min(below[j-1] + 1, above[j] + 1), above[j-1] + Mismatch(x, right[j-1]))
  }

  /** The table goes on below any of its rows. */
  lemma {:induction false} NextTableRow(left: string, right: string, i: nat, above: seq<nat>) returns (below: seq<nat>)
    requires 0 < i <= |left| && IsTableRow(left, right, i - 1, above)
    ensures IsTableRow(left, right, i, below) && RowBelow(above, below, i, left[i-1], right)
  {
    below := seq(|right| + 1, j requires 0 <= j <= |right| => Cell(left, right, i, j));
    forall j | 0 < j <= |right|
      ensures below[j] == Min(Min(below[j-1] + 1, above[j] + 1), above[j-1] + Mismatch(left[i-1], right[j-1]))
    {
    }
  }

  lemma {:induction false} CornerIsLev(left: string, right: string, row: seq<nat>)
    requires IsTableRow(left, right, |left|, row)
    ensures row[|right|] == Lev(left, right)
  {
    CellIsLev(left, right, |left|, |right|);
    assert left[..|left|] == left && right[..|right|] == right;
  }

  /** One row of the in-place program: the row is overwritten from left to right, and the value the
      current cell had one row earlier is carried along in `diagonal`. */
  method AdvanceRow(row: array<nat>, left: string, right: string, leftIndex: nat, ghost below: seq<nat>)
    requires 0 < leftIndex <= |left|
    requires RowBelow(row[..], below, leftIndex, left[leftIndex-1], right)
    modifies row
    ensures row[..] == below
  {
    ghost var above := row[..];
    var diagonal := row[0];
    row[0] := leftIndex;
    for rightIndex := 1 to |right| + 1
      invariant diagonal == above[rightIndex-1]
      invariant forall j :: 0 <= j < rightIndex ==> row[j] == below[j]
      invariant forall j :: rightIndex <= j <= |right| ==> row[j] == above[j]
    {
      var old' := row[rightIndex];
      row[rightIndex] :=
        Min(Min(row[rightIndex-1] + 1, row[rightIndex] + 1),
            diagonal + Mismatch(left[leftIndex-1], right[rightIndex-1]));
      diagonal := old';
    }
  }

  method Distance(left: string, right: string) returns (distance: nat)
    ensures distance == Lev(left, right)
  {
    var row := new nat[|right| + 1];
    for index := 0 to |right| + 1
      invariant forall j :: 0 <= j < index ==> row[j] == j
    {
      row[index] := index;
    }
    for leftIndex := 1 to |left| + 1
      invariant IsTableRow(left, right, leftIndex - 1, row[..])
    {
      ghost var below := NextTableRow(left, right, leftIndex, row[..]);
      AdvanceRow(row, left, right, leftIndex, below);
    }
    CornerIsLev(left, right, row[..]);
    distance := row[|right|];
  }

  // ----- appending one operation to a script

  function Append(rest: Option<string>, suffix: string): Option<string> {
    if rest.None? then None else Some(rest.value + suffix)
  }

  /** Running one more operation at the right end. */
  function ApplyLast(script: seq<Edit>, op: Edit, left: string): Option<string>
  {
    match op
    case Insert(c) => Append(Apply(script, left), [c])
    case Keep =>
      if left == "" then None else Append(Apply(script, left[..|left|-1]), [left[|left|-1]])
    case Substitute(c) =>
      if left == "" then None else Append(Apply(script, left[..|left|-1]), [c])
    case Delete =>
      if left == "" then None else Apply(script, left[..|left|-1])
  }

  lemma {:induction false} ApplyOne(op: Edit, left: string)
    ensures Apply([op], left) == ApplyLast([], op, left)
  {
    var nothing: seq<Edit> := [];
    assert [op][1..] == nothing;
    assert Apply([op], left) == ApplyLast([], op, left) by {
      match op {
        case Insert(c) => assert [c] + "" == "" + [c];
        case Keep => if left != "" { assert [left[0]] + "" == "" + [left[0]]; }
        case Substitute(c) => assert [c] + "" == "" + [c];
        case Delete => assert "" + "" == "";
      }
    }
  }

  lemma {:induction false} PrependAppend(a: string, o: Option<string>, b: string)
    ensures Append(Prepend(a, o), b) == Prepend(a, Append(o, b))
  {
    if o.Some? {
      assert (a + o.value) + b == a + (o.value + b);
    }
  }

  lemma {:induction false} ApplySnoc(script: seq<Edit>, op: Edit, left: string)
    ensures Apply(script + [op], left) == ApplyLast(script, op, left)
    ensures Cost(script + [op]) == Cost(script) + if op.Keep? then 0 else 1
    decreases |script|
  {
    if script == [] {
      assert script + [op] == [op];
      ApplyOne(op, left);
    } else {
      var first, rest := script[0], script[1..];
      assert script == [first] + rest;
      assert script + [op] == [first] + (rest + [op]);
      var remaining := if first.Insert? || left == "" then left else left[1..];
      ApplySnoc(rest, op, remaining);
      if left != "" {
        if !first.Insert? && |left| >= 2 {
          assert remaining[..|remaining|-1] == left[..|left|-1][1..];
        }
      }
      forall a: string, o: Option<string>, b: string
        ensures Append(Prepend(a, o), b) == Prepend(a, Append(o, b))
      {
        PrependAppend(a, o, b);
      }
    }
  }

  // ----- optimality

  lemma {:induction false} InsertAll(right: string) returns (script: seq<Edit>)
    ensures Rewrites(script, "", right) && Cost(script) == |right|
  {
    if right == "" {
      script := [];
    } else {
      var rest := InsertAll(right[1..]);
      script := [Insert(right[0])] + rest;
      assert script[1..] == rest && [right[0]] + right[1..] == right;
    }
  }

  lemma {:induction false} DeleteAll(left: string) returns (script: seq<Edit>)
    ensures Rewrites(script, left, "") && Cost(script) == |left|
  {
    if left == "" {
      script := [];
    } else {
      var rest := DeleteAll(left[1..]);
      script := [Delete] + rest;
      assert "" + "" == "";
    }
  }

  /** The recurrence is achieved by a script ... */
  lemma {:induction false} OptimalScript(left: string, right: string) returns (script: seq<Edit>)
    ensures Rewrites(script, left, right) && Cost(script) == Lev(left, right)
    decreases |left| + |right|
  {
    if left == "" {
      script := InsertAll(right);
    } else if right == "" {
      script := DeleteAll(left);
    } else {
      var l, r := left[..|left|-1], right[..|right|-1];
      var x, y := left[|left|-1], right[|right|-1];
      assert left == l + [x] && right == r + [y];
      var shorter, op;
      if Lev(left, right) == Lev(left, r) + 1 {
        shorter := OptimalScript(left, r);
        op := Insert(y);
      } else if Lev(left, right) == Lev(l, right) + 1 {
        shorter := OptimalScript(l, right);
        op := Delete;
      } else {
        shorter := OptimalScript(l, r);
        op := if x == y then Keep else Substitute(y);
      }
      ApplySnoc(shorter, op, left);
      script := shorter + [op];
    }
  }

  /** ... and no script beats it. */
  lemma {:induction false} NoCheaperScript(script: seq<Edit>, left: string, right: string)
    requires Rewrites(script, left, right)
    ensures Lev(left, right) <= Cost(script)
    decreases |script|
  {
    if script != [] {
      var rest, op := script[..|script|-1], script[|script|-1];
      assert script == rest + [op];
      ApplySnoc(rest, op, left);
      if op.Insert? {
        assert right[..|right|-1] == Apply(rest, left).value;
        NoCheaperScript(rest, left, right[..|right|-1]);
      } else if op.Delete? {
        NoCheaperScript(rest, left[..|left|-1], right);
      } else {
        assert right[..|right|-1] == Apply(rest, left[..|left|-1]).value;
        NoCheaperScript(rest, left[..|left|-1], right[..|right|-1]);
      }
    }
  }

  lemma {:induction false} DistanceIsOptimal(left: string, right: string)
    ensures exists script :: Rewrites(script, left, right) && Cost(script) == Lev(left, right)
    ensures forall script :: Rewrites(script, left, right) ==> Lev(left, right) <= Cost(script)
  {
    var script := OptimalScript(left, right);
    forall other | Rewrites(other, left, right) ensures Lev(left, right) <= Cost(other) {
      NoCheaperScript(other, left, right);
    }
  }

  // ----- the distance is a metric

  lemma {:induction false} LevBounds(a: string, b: string)
    ensures |a| - |b| <= Lev(a, b) && |b| - |a| <= Lev(a, b)
    ensures Lev(a, b) <= Max(|a|, |b|)
    decreases |a| + |b|
  {
    if a != "" && b != "" {
      LevBounds(a, b[..|b|-1]);
      LevBounds(a[..|a|-1], b);
      LevBounds(a[..|a|-1], b[..|b|-1]);
    }
  }

  lemma {:induction false} LevZero(a: string, b: string)
    ensures Lev(a, b) == 0 <==> a == b
    decreases |a| + |b|
  {
    if a != "" && b != "" {
      var a', b' := a[..|a|-1], b[..|b|-1];
      LevZero(a', b');
      assert a == a' + [a[|a|-1]] && b == b' + [b[|b|-1]];
    }
  }

  lemma {:induction false} LevSymmetric(a: string, b: string)
    ensures Lev(a, b) == Lev(b, a)
    decreases |a| + |b|
  {
    if a != "" && b != "" {
      LevSymmetric(a, b[..|b|-1]);
      LevSymmetric(a[..|a|-1], b);
      LevSymmetric(a[..|a|-1], b[..|b|-1]);
    }
  }

  lemma {:induction false} LevTriangle(a: string, b: string, c: string)
    ensures Lev(a, c) <= Lev(a, b) + Lev(b, c)
    decreases |a| + |b| + |c|
  {
    LevBounds(a, b);
    LevBounds(b, c);
    LevBounds(a, c);
    if a != "" && b != "" && c != "" {
      var a', b', c' := a[..|a|-1], b[..|b|-1], c[..|c|-1];
      if Lev(b, c) == Lev(b, c') + 1 {
        LevTriangle(a, b, c');
      } else if Lev(a, b) == Lev(a', b) + 1 {
        LevTriangle(a', b, c);
      } else if Lev(a, b) == Lev(a, b') + 1 {
        if Lev(b, c) == Lev(b', c) + 1 {
          LevTriangle(a, b', c);
        } else {
          LevTriangle(a, b', c');
        }
      } else if Lev(b, c) == Lev(b', c) + 1 {
        LevTriangle(a', b', c);
      } else {
        LevTriangle(a', b', c');
      }
    }
  }

  lemma {:induction false} DistanceIsMetric(a: string, b: string, c: string)
    ensures Lev(a, b) == 0 <==> a == b
    ensures Lev(a, b) == Lev(b, a)
    ensures Lev(a, c) <= Lev(a, b) + Lev(b, c)
    ensures Max(|a|, |b|) - Min(|a|, |b|) <= Lev(a, b) <= Max(|a|, |b|)
  {
    LevZero(a, b);
    LevSymmetric(a, b);
    LevTriangle(a, b, c);
    LevBounds(a, b);
  }

  // ----- suggestions

  /** The edit budget of a suggestion. */
  function Tolerance(token: string): nat {
    Max(2, |token| / 2)
  }

  /** `names[i]` is the suggestion for `token`: nothing is closer, nothing before it is as close,
      and it is within the budget. */
  ghost predicate IsSuggestion(names: seq<string>, token: string, i: nat) {
    && i < |names|
    && Lev(names[i], token) <= Tolerance(token)
    && (forall j :: 0 <= j < |names| ==> Lev(names[i], token) <= Lev(names[j], token))
    && (forall j :: 0 <= j < i ==> Lev(names[i], token) < Lev(names[j], token))
  }

  /** The search over the canonical child names.  The initial score is the largest machine word,
      which no distance reaches; None stands for it here. */
  method Suggest(names: seq<string>, token: string) returns (best: Option<nat>)
    ensures best.Some? ==> IsSuggestion(names, token, best.value)
    ensures best.None? ==> forall j :: 0 <= j < |names| ==> Tolerance(token) < Lev(names[j], token)
  {
    best := None;
    var score: nat := 0;
    for index := 0 to |names|
      invariant best.None? ==> index == 0
      invariant best.Some? ==> best.value < index && score == Lev(names[best.value], token)
      invariant best.Some? ==> forall j :: 0 <= j < index ==> score <= Lev(names[j], token)
      invariant best.Some? ==> forall j :: 0 <= j < best.value ==> score < Lev(names[j], token)
    {
      var distance := Distance(names[index], token);
      if best.None? || distance < score {
        score, best := distance, Some(index);
      }
    }
    if best.None? || score > Tolerance(token) {
      best := None;
    }
  }

  /** A name within the edit budget always draws a suggestion. */
  lemma {:induction false} NearMissIsSuggested(names: seq<string>, token: string, i: nat, script: seq<Edit>)
    requires i < |names| && Rewrites(script, names[i], token) && Cost(script) <= Tolerance(token)
    ensures exists k: nat :: IsSuggestion(names, token, k)
    decreases Cost(script), i
  {
    NoCheaperScript(script, names[i], token);
    if j: nat :| j < |names| && Lev(names[j], token) < Lev(names[i], token) {
      var better := OptimalScript(names[j], token);
      NearMissIsSuggested(names, token, j, better);
    } else if j: nat :| j < i && Lev(names[j], token) <= Lev(names[i], token) {
      var asGood := OptimalScript(names[j], token);
      NearMissIsSuggested(names, token, j, asGood);
    } else {
      assert IsSuggestion(names, token, i);
    }
  }

  /** There is a suggestion exactly when some name is at most two edits away from the token, or at most half
      as many as the token has characters. */
  lemma {:induction false} SuggestedIff(names: seq<string>, token: string)
    ensures (exists k: nat :: IsSuggestion(names, token, k)) <==>
            exists i :: 0 <= i < |names| && (Lev(names[i], token) <= 2 || 2 * Lev(names[i], token) <= |token|)
  {
    if i :| 0 <= i < |names| && (Lev(names[i], token) <= 2 || 2 * Lev(names[i], token) <= |token|) {
      var script := OptimalScript(names[i], token);
      NearMissIsSuggested(names, token, i, script);
    }
    if k: nat :| IsSuggestion(names, token, k) {
      assert Lev(names[k], token) <= 2 || 2 * Lev(names[k], token) <= |token|;
    }
  }

  /** There is one suggestion at most, and a name typed exactly can only draw itself. */
  lemma {:induction false} SuggestionUnique(names: seq<string>, token: string, k: nat, m: nat)
    requires IsSuggestion(names, token, k) && IsSuggestion(names, token, m)
    ensures k == m
    ensures token in names ==> names[k] == token
  {
    assert Lev(names[k], token) <= Lev(names[m], token) <= Lev(names[k], token);
    if j :| 0 <= j < |names| && names[j] == token {
      LevZero(names[j], token);
      LevZero(names[k], token);
    }
  }
}
