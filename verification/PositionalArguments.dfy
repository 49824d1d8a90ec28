/** Who consumes the positional arguments of an invocation, and in which order. */
module PositionalArguments {
  import opened Prelude
  import opened CommandValues
  import opened CommandParameters
  import opened NamedValues
  import opened ParameterBinding
  import opened BindingProperties

  // ----- laying out the bindings of a row of parameters

  /** What one parameter contributes: at most one binding, which may be fed by position. */
  datatype Cell = Cell(fed: bool, bindings: seq<Binding>)

  predicate Fitting(cell: Cell) {
    |cell.bindings| <= 1 && (cell.fed ==> |cell.bindings| == 1)
  }

  /** All bindings, in order. */
  function Flat(cells: seq<Cell>): seq<Binding> {
    if cells == [] then [] else Flat(cells[..|cells|-1]) + cells[|cells|-1].bindings
  }

  /** The cells that are fed, and where their bindings stand among all. */
  function Picks(cells: seq<Cell>): seq<nat> {
    if cells == [] then []
    else Picks(cells[..|cells|-1]) + if cells[|cells|-1].fed then [|cells| - 1] else []
  }

  function Slots(cells: seq<Cell>): seq<nat> {
    if cells == [] then []
    else Slots(cells[..|cells|-1]) + if cells[|cells|-1].fed then [|Flat(cells[..|cells|-1])|] else []
  }

  ghost predicate Increasing(indices: seq<nat>, bound: nat) {
    && (forall a :: 0 <= a < |indices| ==> indices[a] < bound)
    && (forall a, b :: 0 <= a < b < |indices| ==> indices[a] < indices[b])
  }

  lemma {:induction false} PicksIncrease(cells: seq<Cell>)
    requires forall c :: c in cells ==> Fitting(c)
    ensures |Picks(cells)| == |Slots(cells)|
    ensures Increasing(Picks(cells), |cells|) && Increasing(Slots(cells), |Flat(cells)|)
  {
    if cells != [] {
      var front, last := cells[..|cells|-1], cells[|cells|-1];
      assert last in cells && Fitting(last);
      PicksIncrease(front);
    }
  }

  lemma {:induction false} PicksBelow(cells: seq<Cell>)
    ensures forall n :: n in Picks(cells) ==> n < |cells|
  {
    if cells != [] {
      PicksBelow(cells[..|cells|-1]);
    }
  }

  lemma {:induction false} PickedIffFed(cells: seq<Cell>, j: nat)
    requires j < |cells|
    ensures j in Picks(cells) <==> cells[j].fed
  {
    var front := cells[..|cells|-1];
    if j < |front| {
      assert front[j] == cells[j];
      PickedIffFed(front, j);
    } else {
      PicksBelow(front);
    }
  }

  /** The k-th fed cell's binding is in the k-th slot. */
  lemma {:induction false} SlotHoldsPick(cells: seq<Cell>, k: nat)
    requires forall c :: c in cells ==> Fitting(c)
    requires k < |Picks(cells)| == |Slots(cells)|
    ensures Picks(cells)[k] < |cells| && Slots(cells)[k] < |Flat(cells)|
    ensures cells[Picks(cells)[k]] == Cell(true, [Flat(cells)[Slots(cells)[k]]])
  {
    var front, last := cells[..|cells|-1], cells[|cells|-1];
    assert last in cells && Fitting(last);
    PicksIncrease(front);
    if k < |Picks(front)| {
      SlotHoldsPick(front, k);
      assert front[Picks(front)[k]] == cells[Picks(front)[k]];
    } else {
      assert Picks(cells)[k] == |front| && Slots(cells)[k] == |Flat(front)|;
    }
  }

  /** Every other binding is that of a cell that is not fed. */
  lemma {:induction false} OtherSlot(cells: seq<Cell>, b: nat) returns (j: nat)
    requires forall c :: c in cells ==> Fitting(c)
    requires b < |Flat(cells)| && b !in Slots(cells)
    ensures j < |cells| && cells[j] == Cell(false, [Flat(cells)[b]])
  {
    var front, last := cells[..|cells|-1], cells[|cells|-1];
    assert last in cells && Fitting(last);
    if b < |Flat(front)| {
      assert forall n :: n in Slots(front) ==> n in Slots(cells);
      j := OtherSlot(front, b);
      assert front[j] == cells[j];
    } else {
      j := |front|;
      assert last.fed ==> b in Slots(front) + [b];
    }
  }

  // ----- the cells of an invocation

  predicate Feeds(parameters: seq<CommandParameter>, named: seq<NamedValue>, positional: seq<CommandValue>, i: nat)
    requires i < |parameters|
  {
    Positional(parameters[i], named) && Rank(parameters, named, i) < |positional|
  }

  function CellOf(parameters: seq<CommandParameter>, named: seq<NamedValue>, positional: seq<CommandValue>,
                  i: nat): (cell: Cell)
    requires i < |parameters|
    ensures Fitting(cell)
  {
    Cell(Feeds(parameters, named, positional, i), SuppliedBinding(parameters, named, positional, i))
  }

  /** The cells of the first `n` parameters. */
  function Cells(parameters: seq<CommandParameter>, named: seq<NamedValue>, positional: seq<CommandValue>,
                 n: nat): seq<Cell>
    requires n <= |parameters|
  {
    seq(n, i requires 0 <= i < n => CellOf(parameters, named, positional, i))
  }

  lemma {:induction false} CellsStep(parameters: seq<CommandParameter>, named: seq<NamedValue>,
                                     positional: seq<CommandValue>, n: nat)
    requires n < |parameters|
    ensures var cells := Cells(parameters, named, positional, n + 1);
            && cells[..n] == Cells(parameters, named, positional, n)
            && cells[n] == CellOf(parameters, named, positional, n)
  {
  }

  lemma {:induction false} FlatIsSupplied(parameters: seq<CommandParameter>, named: seq<NamedValue>,
                                          positional: seq<CommandValue>, n: nat)
    requires n <= |parameters|
    ensures Flat(Cells(parameters, named, positional, n)) + SuppliedBindings(parameters, named, positional, n) ==
            SuppliedBindings(parameters, named, positional, 0)
  {
    if n == 0 {
      assert Flat(Cells(parameters, named, positional, 0)) == [];
    } else {
      FlatIsSupplied(parameters, named, positional, n - 1);
      CellsStep(parameters, named, positional, n - 1);
    }
  }

  /** The k-th fed parameter has rank k, and as many are fed as there are positionals to take. */
  lemma {:induction false} PicksRanked(parameters: seq<CommandParameter>, named: seq<NamedValue>,
                                       positional: seq<CommandValue>, n: nat)
    requires n <= |parameters|
    ensures var picks := Picks(Cells(parameters, named, positional, n));
            && |picks| == Taken(parameters, named, positional, n)
            && forall k :: 0 <= k < |picks| ==> picks[k] < n && Rank(parameters, named, picks[k]) == k
  {
    if n != 0 {
      PicksRanked(parameters, named, positional, n - 1);
      CellsStep(parameters, named, positional, n - 1);
    }
  }

  // ----- the positionals are consumed once and in order

  /** Binding `b` is parameter `j` fed with `value` by position. */
  ghost predicate Fed(parameters: seq<CommandParameter>, named: seq<NamedValue>, j: nat, b: Binding,
                      value: CommandValue)
  {
    && j < |parameters| && FirstMatch(named, parameters[j]).None? && !parameters[j].namedOnly
    && b == Binding(parameters[j].name, value, false)
  }

  /** Binding `b` holds the default of its parameter, or a value given under a key of its parameter. */
  ghost predicate NotFed(parameters: seq<CommandParameter>, named: seq<NamedValue>, b: Binding) {
    exists j :: 0 <= j < |parameters| && b.name == parameters[j].name &&
      if b.owned then
        && FirstMatch(named, parameters[j]).None?
        && parameters[j].default.Some? && b.value == Text(parameters[j].default.value)
      else FirstMatch(named, parameters[j]) == Some(b.value)
  }

  lemma {:induction false} OthersNotFed(parameters: seq<CommandParameter>, named: seq<NamedValue>,
                                        positional: seq<CommandValue>, b: nat)
    requires var cells := Cells(parameters, named, positional, |parameters|);
             b < |Flat(cells)| && b !in Slots(cells)
    ensures NotFed(parameters, named, Flat(Cells(parameters, named, positional, |parameters|))[b])
  {
    var j := OtherSlot(Cells(parameters, named, positional, |parameters|), b);
  }

  lemma {:induction false} PickIsFed(parameters: seq<CommandParameter>, named: seq<NamedValue>,
                                     positional: seq<CommandValue>, k: nat)
    requires var cells := Cells(parameters, named, positional, |parameters|);
             k < |positional| && k < |Picks(cells)| == |Slots(cells)| && Slots(cells)[k] < |Flat(cells)|
    ensures var cells := Cells(parameters, named, positional, |parameters|);
            Fed(parameters, named, Picks(cells)[k], Flat(cells)[Slots(cells)[k]], positional[k])
  {
    SlotHoldsPick(Cells(parameters, named, positional, |parameters|), k);
    PicksRanked(parameters, named, positional, |parameters|);
  }

  /** When the callback runs, the positionals have been consumed exactly once each and in order: the k-th by
      parameter `takers[k]`, which is not named-only and lacks a named value, as binding `slots[k]`.  The
      takers are the first such parameters, and every other binding holds a default or a named value. */
  lemma {:induction false} PositionalTakenOnce(platform: Platform, parameters: seq<CommandParameter>, executable: bool,
                                               named: seq<NamedValue>, positional: seq<CommandValue>,
                                               bindings: seq<Binding>)
    returns (takers: seq<nat>, slots: seq<nat>)
    requires BindingOf(platform, parameters, executable, named, positional) == Ready(bindings)
    ensures |takers| == |slots| == |positional|
    ensures Increasing(takers, |parameters|) && Increasing(slots, |bindings|)
    ensures forall k :: 0 <= k < |positional| ==>
              Fed(parameters, named, takers[k], bindings[slots[k]], positional[k])
    ensures forall j :: 0 <= j < |parameters| && Positional(parameters[j], named) ==>
              (j in takers <==> Rank(parameters, named, j) < |positional|)
    ensures forall b :: 0 <= b < |bindings| && b !in slots ==> NotFed(parameters, named, bindings[b])
  {
    var n := |parameters|;
    var cells := Cells(parameters, named, positional, n);
    CallbackReachedIff(platform, parameters, executable, named, positional);
    FlatIsSupplied(parameters, named, positional, n);
    assert Flat(cells) == bindings;
    takers, slots := Picks(cells), Slots(cells);
    PicksIncrease(cells);
    PicksRanked(parameters, named, positional, n);
    forall k | 0 <= k < |positional| ensures Fed(parameters, named, takers[k], bindings[slots[k]], positional[k]) {
      PickIsFed(parameters, named, positional, k);
    }
    forall j | 0 <= j < n && Positional(parameters[j], named)
      ensures j in takers <==> Rank(parameters, named, j) < |positional|
    {
      PickedIffFed(cells, j);
    }
    forall b | 0 <= b < |bindings| && b !in slots ensures NotFed(parameters, named, bindings[b]) {
      OthersNotFed(parameters, named, positional, b);
    }
  }
}
