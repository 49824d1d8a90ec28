/**
 Running a bound command: the recursive middleware chain around before-hooks, callback and
 after-hooks, over an explicit trace.
 */
module Execution {
  import opened Prelude

  datatype CommandResult = CommandResult(success: bool, code: int, message: string)

  datatype Outcome = Returned(result: CommandResult) | Threw(what: string)

  /** The handlers of one node.  What they answer may depend on which run of `execute` this is. */
  datatype Handlers = Handlers(
    before: seq<nat -> CommandResult>,
    callback: nat -> Outcome,
    after: seq<nat -> CommandResult>,
    deprecated: bool,
    deprecationMessage: string)

  /** A middleware calls `next` a number of times and makes one result of theirs. */
  datatype Middleware = Middleware(calls: nat, combine: seq<CommandResult> -> CommandResult)

  datatype Event =
    | Enter(middleware: nat)
    | Exit(middleware: nat)
    | BeginRun(run: nat)
    | RanBefore(index: nat)
    | RanCallback
    | RanAfter(index: nat)
    | EndRun(run: nat)

  // ----- one run of `execute`

  /** Number of before-hooks that run: up to and including the first one that fails. */
  function BeforesRun(before: seq<nat -> CommandResult>, run: nat): (n: nat)
    ensures n <= |before|
  {
    if before == [] then 0
    else if !before[0](run).success then 1
    else 1 + BeforesRun(before[1..], run)
  }

  predicate BeforesSucceed(handlers: Handlers, run: nat) {
    forall i :: 0 <= i < |handlers.before| ==> handlers.before[i](run).success
  }

  /** A failing after-hook replaces the result only while that is still a success. */
  function AfterResult(result: CommandResult, after: seq<nat -> CommandResult>, run: nat): CommandResult
    decreases |after|
  {
    if after == [] then result
    else
      var afterResult := after[0](run);
      AfterResult(if !afterResult.success && result.success then afterResult else result, after[1..], run)
  }

  function WithWarning(handlers: Handlers, result: CommandResult): CommandResult {
    if !handlers.deprecated then result
    else
      result.(message :=
        "Deprecated command"
        + (if handlers.deprecationMessage != "" then ": " + handlers.deprecationMessage else "")
        + (if result.message != "" then "\n" + result.message else ""))
  }

  function BeforeEvents(n: nat): seq<Event> {
    if n == 0 then [] else BeforeEvents(n - 1) + [RanBefore(n - 1)]
  }

  function AfterEvents(n: nat): seq<Event> {
    if n == 0 then [] else AfterEvents(n - 1) + [RanAfter(n - 1)]
  }

  function RunTrace(handlers: Handlers, run: nat): seq<Event> {
    if !BeforesSucceed(handlers, run) then BeforeEvents(BeforesRun(handlers.before, run))
    else
      BeforeEvents(|handlers.before|) + [RanCallback]
      + if handlers.callback(run).Threw? then [] else AfterEvents(|handlers.after|)
  }

  function RunResult(handlers: Handlers, run: nat): CommandResult {
    if !BeforesSucceed(handlers, run) then
      handlers.before[BeforesRun(handlers.before, run) - 1](run)
    else
      match handlers.callback(run)
      case Threw(what) => CommandResult(false, 1, what)
      case Returned(result) => WithWarning(handlers, AfterResult(result, handlers.after, run))
  }

  lemma {:induction false} FirstFailure(before: seq<nat -> CommandResult>, run: nat, i: nat)
    requires i < |before| && !before[i](run).success
    requires forall j :: 0 <= j < i ==> before[j](run).success
    ensures BeforesRun(before, run) == i + 1
  {
    if i != 0 {
      FirstFailure(before[1..], run, i - 1);
    }
  }

  lemma {:induction false} AllBeforesRun(before: seq<nat -> CommandResult>, run: nat)
    requires forall j :: 0 <= j < |before| ==> before[j](run).success
    ensures BeforesRun(before, run) == |before|
  {
    if before != [] {
      AllBeforesRun(before[1..], run);
    }
  }

  method Execute(handlers: Handlers, run: nat) returns (result: CommandResult, trace: seq<Event>)
    ensures result == RunResult(handlers, run)
    ensures trace == [BeginRun(run)] + RunTrace(handlers, run) + [EndRun(run)]
  {
    trace := [BeginRun(run)];
    for i := 0 to |handlers.before|
      invariant trace == [BeginRun(run)] + BeforeEvents(i)
      invariant forall j :: 0 <= j < i ==> handlers.before[j](run).success
    {
      result := handlers.before[i](run);
      trace := trace + [RanBefore(i)];
      if !result.success {
        FirstFailure(handlers.before, run, i);
        trace := trace + [EndRun(run)];
        return;
      }
    }
    AllBeforesRun(handlers.before, run);
    trace := trace + [RanCallback];
    var outcome := handlers.callback(run);
    if outcome.Threw? {
      trace := trace + [EndRun(run)];
      return CommandResult(false, 1, outcome.what), trace;
    }
    result := outcome.result;
    ghost var soFar := trace;
    for i := 0 to |handlers.after|
      invariant trace == soFar + AfterEvents(i)
      invariant AfterResult(result, handlers.after[i..], run) == AfterResult(outcome.result, handlers.after, run)
    {
      var afterResult := handlers.after[i](run);
      trace := trace + [RanAfter(i)];
      if !afterResult.success && result.success {
        result := afterResult;
      }
    }
    result := WithWarning(handlers, result);
    trace := trace + [EndRun(run)];
  }

  // ----- what one run does

  lemma {:induction false} EventsListed(n: nat)
    ensures forall event :: event in BeforeEvents(n) <==> event.RanBefore? && event.index < n
    ensures forall event :: event in AfterEvents(n) <==> event.RanAfter? && event.index < n
  {
    if n != 0 {
      EventsListed(n - 1);
    }
  }

  /** `j` is the first hook of the list that fails. */
  ghost predicate FirstFailing(hooks: seq<nat -> CommandResult>, run: nat, j: nat) {
    j < |hooks| && !hooks[j](run).success && forall k :: 0 <= k < j ==> hooks[k](run).success
  }

  lemma {:induction false} AfterResultFails(result: CommandResult, after: seq<nat -> CommandResult>, run: nat)
    ensures AfterResult(result, after, run).success <==>
            result.success && forall j :: 0 <= j < |after| ==> after[j](run).success
    ensures !result.success ==> AfterResult(result, after, run) == result
    ensures forall j: nat :: result.success && FirstFailing(after, run, j) ==>
              AfterResult(result, after, run) == after[j](run)
    decreases |after|
  {
    if after != [] {
      var afterResult := after[0](run);
      var next := if !afterResult.success && result.success then afterResult else result;
      AfterResultFails(next, after[1..], run);
      if result.success && afterResult.success {
        forall j: nat | FirstFailing(after, run, j)
          ensures AfterResult(result, after, run) == after[j](run)
        {
          assert after[1..][j-1] == after[j];
          forall k | 0 <= k < j - 1 ensures after[1..][k](run).success {
            assert after[1..][k] == after[k+1];
          }
          assert FirstFailing(after[1..], run, j - 1);
        }
        assert forall j :: 0 <= j < |after[1..]| ==> after[1..][j] == after[j+1];
      }
    }
  }

  lemma {:induction false} BeforesRunIsFirstFailure(before: seq<nat -> CommandResult>, run: nat)
    requires exists i :: 0 <= i < |before| && !before[i](run).success
    ensures var n := BeforesRun(before, run);
            1 <= n && !before[n-1](run).success && forall k :: 0 <= k < n - 1 ==> before[k](run).success
  {
    if before[0](run).success {
      var i :| 0 <= i < |before| && !before[i](run).success;
      assert before[1..][i-1] == before[i];
      BeforesRunIsFirstFailure(before[1..], run);
      var n := BeforesRun(before[1..], run);
      forall k | 0 <= k < n ensures before[k](run).success {
        if k != 0 {
          assert before[1..][k-1] == before[k];
        }
      }
    }
  }

  /** A before-hook runs iff all those before it have succeeded. */
  lemma {:induction false} BeforesShape(handlers: Handlers, run: nat, i: nat)
    ensures RanBefore(i) in RunTrace(handlers, run) <==>
              i < |handlers.before| && forall k :: 0 <= k < i ==> handlers.before[k](run).success
  {
    EventsListed(|handlers.before|);
    EventsListed(|handlers.after|);
    EventsListed(BeforesRun(handlers.before, run));
    if !BeforesSucceed(handlers, run) {
      BeforesRunIsFirstFailure(handlers.before, run);
    }
  }

  /** The before-hooks, and the after-hooks, that a trace shows running, in order. */
  function BeforesIn(trace: seq<Event>): seq<nat> {
    if trace == [] then []
    else (if trace[0].RanBefore? then [trace[0].index] else []) + BeforesIn(trace[1..])
  }

  function AftersIn(trace: seq<Event>): seq<nat> {
    if trace == [] then []
    else (if trace[0].RanAfter? then [trace[0].index] else []) + AftersIn(trace[1..])
  }

  function Count(from: nat, n: nat): seq<nat> {
    if n == 0 then [] else Count(from, n - 1) + [from + n - 1]
  }

  lemma {:induction false} BeforesInConcat(a: seq<Event>, b: seq<Event>)
    ensures BeforesIn(a + b) == BeforesIn(a) + BeforesIn(b)
    decreases |a|
  {
    if a == [] {
      assert a + b == b;
    } else {
      var head := if a[0].RanBefore? then [a[0].index] else [];
      assert (a + b)[0] == a[0] && (a + b)[1..] == a[1..] + b;
      BeforesInConcat(a[1..], b);
      assert (head + BeforesIn(a[1..])) + BeforesIn(b) == head + (BeforesIn(a[1..]) + BeforesIn(b));
    }
  }

  lemma {:induction false} AftersInConcat(a: seq<Event>, b: seq<Event>)
    ensures AftersIn(a + b) == AftersIn(a) + AftersIn(b)
    decreases |a|
  {
    if a == [] {
      assert a + b == b;
    } else {
      var head := if a[0].RanAfter? then [a[0].index] else [];
      assert (a + b)[0] == a[0] && (a + b)[1..] == a[1..] + b;
      AftersInConcat(a[1..], b);
      assert (head + AftersIn(a[1..])) + AftersIn(b) == head + (AftersIn(a[1..]) + AftersIn(b));
    }
  }

  lemma {:induction false} HooksSnoc(trace: seq<Event>, last: Event)
    ensures BeforesIn(trace + [last]) == BeforesIn(trace) + if last.RanBefore? then [last.index] else []
    ensures AftersIn(trace + [last]) == AftersIn(trace) + if last.RanAfter? then [last.index] else []
  {
    BeforesInConcat(trace, [last]);
    AftersInConcat(trace, [last]);
    assert [last][1..] == [];
  }

  lemma {:induction false} BeforesListed(n: nat)
    ensures BeforesIn(BeforeEvents(n)) == Count(0, n) && AftersIn(BeforeEvents(n)) == []
  {
    if n != 0 {
      var earlier := BeforeEvents(n - 1);
      BeforesListed(n - 1);
      HooksSnoc(earlier, RanBefore(n - 1));
      assert BeforeEvents(n) == earlier + [RanBefore(n - 1)];
      assert Count(0, n) == Count(0, n - 1) + [n - 1];
    }
  }

  lemma {:induction false} AftersListed(n: nat)
    ensures BeforesIn(AfterEvents(n)) == [] && AftersIn(AfterEvents(n)) == Count(0, n)
  {
    if n != 0 {
      var earlier := AfterEvents(n - 1);
      AftersListed(n - 1);
      HooksSnoc(earlier, RanAfter(n - 1));
      assert AfterEvents(n) == earlier + [RanAfter(n - 1)];
      assert Count(0, n) == Count(0, n - 1) + [n - 1];
    }
  }

  /** The callback runs iff every before-hook succeeds; then, iff it returns rather than throws, every
      after-hook runs, even when the callback reported failure. */
  lemma {:induction false} RunShape(handlers: Handlers, run: nat)
    ensures RanCallback in RunTrace(handlers, run) <==> BeforesSucceed(handlers, run)
    ensures forall j: nat :: RanAfter(j) in RunTrace(handlers, run) <==>
              j < |handlers.after| && BeforesSucceed(handlers, run) && handlers.callback(run).Returned?
  {
    EventsListed(|handlers.before|);
    EventsListed(|handlers.after|);
    EventsListed(BeforesRun(handlers.before, run));
  }

  /** Hooks run once each and in order: the before-hooks up to the first failure, the after-hooks all or
      none. */
  lemma {:induction false} HooksInOrder(handlers: Handlers, run: nat)
    ensures AftersIn(RunTrace(handlers, run)) ==
            if BeforesSucceed(handlers, run) && handlers.callback(run).Returned? then Count(0, |handlers.after|) else []
    ensures BeforesSucceed(handlers, run) ==> BeforesIn(RunTrace(handlers, run)) == Count(0, |handlers.before|)
    ensures forall j: nat :: FirstFailing(handlers.before, run, j) ==>
              BeforesIn(RunTrace(handlers, run)) == Count(0, j + 1)
  {
    var n := |handlers.before|;
    var called := BeforeEvents(n) + [RanCallback];
    if BeforesSucceed(handlers, run) {
      var later := if handlers.callback(run).Threw? then [] else AfterEvents(|handlers.after|);
      BeforesListed(n);
      AftersListed(|handlers.after|);
      HooksSnoc(BeforeEvents(n), RanCallback);
      BeforesInConcat(called, later);
      AftersInConcat(called, later);
    } else {
      BeforesListed(BeforesRun(handlers.before, run));
      forall j: nat | FirstFailing(handlers.before, run, j) ensures BeforesRun(handlers.before, run) == j + 1 {
        FirstFailure(handlers.before, run, j);
      }
    }
  }

  /** A run succeeds iff the hooks before, the callback and the hooks after all do.  A failing before-hook
      is reported as it is, an exception as code 1 with its text; otherwise the callback's own failure
      is, or that of the first failing after-hook. */
  lemma {:induction false} RunSucceedsIff(handlers: Handlers, run: nat)
    ensures RunResult(handlers, run).success <==>
            && BeforesSucceed(handlers, run)
            && handlers.callback(run).Returned?
            && handlers.callback(run).result.success
            && forall j :: 0 <= j < |handlers.after| ==> handlers.after[j](run).success
    ensures forall j: nat :: FirstFailing(handlers.before, run, j) ==>
              RunResult(handlers, run) == handlers.before[j](run)
    ensures BeforesSucceed(handlers, run) && handlers.callback(run).Threw? ==>
              RunResult(handlers, run) == CommandResult(false, 1, handlers.callback(run).what)
    ensures BeforesSucceed(handlers, run) && handlers.callback(run).Returned? && !handlers.callback(run).result.success
            ==> RunResult(handlers, run).code == handlers.callback(run).result.code
    ensures BeforesSucceed(handlers, run) && handlers.callback(run).Returned? && handlers.callback(run).result.success
            ==> forall j: nat :: FirstFailing(handlers.after, run, j) ==>
                  RunResult(handlers, run).code == handlers.after[j](run).code
  {
    if !BeforesSucceed(handlers, run) {
      BeforesRunIsFirstFailure(handlers.before, run);
      forall j: nat | FirstFailing(handlers.before, run, j)
        ensures RunResult(handlers, run) == handlers.before[j](run)
      {
        FirstFailure(handlers.before, run, j);
      }
    } else if handlers.callback(run).Returned? {
      AfterResultFails(handlers.callback(run).result, handlers.after, run);
    }
  }

  lemma {:induction false} NothingFails(result: CommandResult, after: seq<nat -> CommandResult>, run: nat)
    requires forall j :: 0 <= j < |after| ==> after[j](run).success
    ensures AfterResult(result, after, run) == result
    decreases |after|
  {
    if after != [] {
      assert forall j :: 0 <= j < |after[1..]| ==> after[1..][j] == after[j+1];
      NothingFails(result, after[1..], run);
    }
  }

  /** What a run answers once the callback has returned, on a command that is not deprecated: the callback's
      own result, unless that was a success and an after-hook failed; then the first such hook's result. */
  lemma {:induction false} RunAnswers(handlers: Handlers, run: nat)
    requires BeforesSucceed(handlers, run) && handlers.callback(run).Returned? && !handlers.deprecated
    ensures var own := handlers.callback(run).result;
            && (!own.success || (forall j :: 0 <= j < |handlers.after| ==> handlers.after[j](run).success) ==>
                  RunResult(handlers, run) == own)
            && (own.success ==> forall j: nat :: FirstFailing(handlers.after, run, j) ==>
                  RunResult(handlers, run) == handlers.after[j](run))
  {
    AfterResultFails(handlers.callback(run).result, handlers.after, run);
    if forall j :: 0 <= j < |handlers.after| ==> handlers.after[j](run).success {
      NothingFails(handlers.callback(run).result, handlers.after, run);
    }
  }

  /** A deprecated command answers as it would if it were not, except that a run whose callback returned
      has the warning in front of its message. */
  lemma {:induction false} DeprecationWarns(handlers: Handlers, run: nat)
    requires handlers.deprecated
    ensures var answer, plain := RunResult(handlers, run), RunResult(handlers.(deprecated := false), run);
            && answer.success == plain.success && answer.code == plain.code
            && (!BeforesSucceed(handlers, run) || handlers.callback(run).Threw? ==> answer == plain)
            && (BeforesSucceed(handlers, run) && handlers.callback(run).Returned? ==>
                  answer.message == "Deprecated command"
                    + (if handlers.deprecationMessage == "" then "" else ": " + handlers.deprecationMessage)
                    + (if plain.message == "" then "" else "\n" + plain.message))
  {
    assert BeforesSucceed(handlers.(deprecated := false), run) == BeforesSucceed(handlers, run);
  }

  // ----- the chain

  datatype Chained = Chained(result: CommandResult, trace: seq<Event>, runs: nat)
  datatype Repeated = Repeated(results: seq<CommandResult>, trace: seq<Event>, runs: nat)

  /** `chain(index)`, entered when `runs` runs of `execute` have taken place. */
  function Chain(middleware: seq<Middleware>, handlers: Handlers, index: nat, runs: nat): Chained
    requires index <= |middleware|
    decreases |middleware| - index, 0
  {
    if index == |middleware| then
      Chained(RunResult(handlers, runs), [BeginRun(runs)] + RunTrace(handlers, runs) + [EndRun(runs)], runs + 1)
    else
      var inner := Repeat(middleware, handlers, index, middleware[index].calls, runs);
      Chained(middleware[index].combine(inner.results), [Enter(index)] + inner.trace + [Exit(index)], inner.runs)
  }

  /** `calls` successive calls of `next` by middleware `index`. */
  function Repeat(middleware: seq<Middleware>, handlers: Handlers, index: nat, calls: nat, runs: nat): Repeated
    requires index < |middleware|
    decreases |middleware| - index - 1, calls + 1
  {
    if calls == 0 then Repeated([], [], runs)
    else
      var first := Repeat(middleware, handlers, index, calls - 1, runs);
      var last := Chain(middleware, handlers, index + 1, first.runs);
      Repeated(first.results + [last.result], first.trace + last.trace, last.runs)
  }

  function Product(middleware: seq<Middleware>, index: nat): nat
    requires index <= |middleware|
    decreases |middleware| - index
  {
    if index == |middleware| then 1 else middleware[index].calls * Product(middleware, index + 1)
  }

  /** The runs recorded in a trace, in order. */
  function RunsIn(trace: seq<Event>): seq<nat> {
    if trace == [] then []
    else (if trace[0].BeginRun? then [trace[0].run] else []) + RunsIn(trace[1..])
  }

  lemma {:induction false} RunsInConcat(a: seq<Event>, b: seq<Event>)
    ensures RunsIn(a + b) == RunsIn(a) + RunsIn(b)
    decreases |a|
  {
    if a == [] {
      assert a + b == b;
      assert RunsIn(a) + RunsIn(b) == RunsIn(b);
    } else {
      var head := if a[0].BeginRun? then [a[0].run] else [];
      assert (a + b)[0] == a[0] && (a + b)[1..] == a[1..] + b;
      RunsInConcat(a[1..], b);
      assert (head + RunsIn(a[1..])) + RunsIn(b) == head + (RunsIn(a[1..]) + RunsIn(b));
    }
  }

  lemma {:induction false} CountConcat(from: nat, m: nat, n: nat)
    ensures Count(from, m) + Count(from + m, n) == Count(from, m + n)
  {
    if n == 0 {
      assert Count(from, m) + [] == Count(from, m);
    } else {
      CountConcat(from, m, n - 1);
      assert Count(from, m) + (Count(from + m, n - 1) + [from + m + n - 1]) ==
             (Count(from, m) + Count(from + m, n - 1)) + [from + m + n - 1];
    }
  }

  lemma {:induction false} NoRunsInside(handlers: Handlers, run: nat, n: nat)
    ensures RunsIn(BeforeEvents(n)) == [] && RunsIn(AfterEvents(n)) == []
  {
    if n != 0 {
      NoRunsInside(handlers, run, n - 1);
      RunsInConcat(BeforeEvents(n - 1), [RanBefore(n - 1)]);
      RunsInConcat(AfterEvents(n - 1), [RanAfter(n - 1)]);
    }
  }

  lemma {:induction false} OneRun(handlers: Handlers, run: nat)
    ensures RunsIn([BeginRun(run)] + RunTrace(handlers, run) + [EndRun(run)]) == [run]
  {
    var hooks := RunTrace(handlers, run);
    NoRunsInside(handlers, run, BeforesRun(handlers.before, run));
    NoRunsInside(handlers, run, |handlers.before|);
    NoRunsInside(handlers, run, |handlers.after|);
    RunsInConcat(BeforeEvents(|handlers.before|), [RanCallback]);
    RunsInConcat(BeforeEvents(|handlers.before|) + [RanCallback],
                 if handlers.callback(run).Threw? then [] else AfterEvents(|handlers.after|));
    RunsInConcat([BeginRun(run)], hooks);
    RunsInConcat([BeginRun(run)] + hooks, [EndRun(run)]);
  }

  /** The chain runs `execute` as often as the product of the call counts says, numbering the runs
      without gap or repetition. */
  lemma {:induction false} ChainRunsProduct(middleware: seq<Middleware>, handlers: Handlers, index: nat, runs: nat)
    requires index <= |middleware|
    ensures var chained := Chain(middleware, handlers, index, runs);
            && chained.runs == runs + Product(middleware, index)
            && RunsIn(chained.trace) == Count(runs, Product(middleware, index))
    decreases |middleware| - index, 0
  {
    if index == |middleware| {
      OneRun(handlers, runs);
      assert Count(runs, 1) == Count(runs, 0) + [runs];
    } else {
      var calls := middleware[index].calls;
      RepeatRunsProduct(middleware, handlers, index, calls, runs);
      var inner := Repeat(middleware, handlers, index, calls, runs);
      RunsInConcat([Enter(index)], inner.trace);
      RunsInConcat([Enter(index)] + inner.trace, [Exit(index)]);
    }
  }

  lemma {:induction false} OneMoreRun(first: Repeated, last: Chained, runs: nat, m: nat, n: nat)
    requires first.runs == runs + m && RunsIn(first.trace) == Count(runs, m)
    requires RunsIn(last.trace) == Count(first.runs, n)
    ensures RunsIn(first.trace + last.trace) == Count(runs, m + n)
  {
    RunsInConcat(first.trace, last.trace);
    CountConcat(runs, m, n);
  }

  lemma {:induction false} RepeatRunsProduct(middleware: seq<Middleware>, handlers: Handlers, index: nat, calls: nat,
                                             runs: nat)
    requires index < |middleware|
    ensures var repeated := Repeat(middleware, handlers, index, calls, runs);
            && repeated.runs == runs + calls * Product(middleware, index + 1)
            && RunsIn(repeated.trace) == Count(runs, calls * Product(middleware, index + 1))
    decreases |middleware| - index - 1, calls + 1
  {
    var product := Product(middleware, index + 1);
    if calls != 0 {
      var first := Repeat(middleware, handlers, index, calls - 1, runs);
      RepeatRunsProduct(middleware, handlers, index, calls - 1, runs);
      ChainRunsProduct(middleware, handlers, index + 1, first.runs);
      OneMoreRun(first, Chain(middleware, handlers, index + 1, first.runs), runs, (calls - 1) * product, product);
      assert Repeat(middleware, handlers, index, calls, runs).trace ==
             first.trace + Chain(middleware, handlers, index + 1, first.runs).trace;
    } else {
      assert calls * product == 0;
    }
  }

  /** A middleware gets one result for each of its calls of `next`, in order: that of the rest of the chain,
      entered after as many runs as the earlier calls made. */
  lemma {:induction false} ResultsInOrder(middleware: seq<Middleware>, handlers: Handlers, index: nat, calls: nat,
                                          runs: nat)
    requires index < |middleware|
    ensures var results := Repeat(middleware, handlers, index, calls, runs).results;
            && |results| == calls
            && forall k: nat :: k < calls ==>
                 results[k] == Chain(middleware, handlers, index + 1, runs + k * Product(middleware, index + 1)).result
    decreases calls
  {
    if calls != 0 {
      ResultsInOrder(middleware, handlers, index, calls - 1, runs);
      RepeatRunsProduct(middleware, handlers, index, calls - 1, runs);
    }
  }

  /** What the chain answers: at its end the result of the run, and before that what the middleware makes of
      the results it got; of none, if it never calls `next`. */
  lemma {:induction false} ChainAnswers(middleware: seq<Middleware>, handlers: Handlers, index: nat, runs: nat)
    requires index <= |middleware|
    ensures index == |middleware| ==> Chain(middleware, handlers, index, runs).result == RunResult(handlers, runs)
    ensures index < |middleware| ==>
              var calls := middleware[index].calls;
              exists results ::
                && |results| == calls
                && Chain(middleware, handlers, index, runs).result == middleware[index].combine(results)
                && forall k: nat :: k < calls ==>
                     results[k] ==
                     Chain(middleware, handlers, index + 1, runs + k * Product(middleware, index + 1)).result
  {
    if index < |middleware| {
      ResultsInOrder(middleware, handlers, index, middleware[index].calls, runs);
    }
  }

  /** Reading a trace with `depth` middlewares open, the first `depth` ones: a middleware may only be
      entered next in registration order, only the innermost may be left, and the command runs only
      inside all `n` of them.  None when the trace breaks these rules, else the depth at its end. */
  function Nesting(trace: seq<Event>, n: nat, depth: nat): Option<nat>
    decreases |trace|
  {
    if trace == [] then Some(depth)
    else
      match trace[0]
      case Enter(i) => if i == depth < n then Nesting(trace[1..], n, depth + 1) else None
      case Exit(i) => if i + 1 == depth then Nesting(trace[1..], n, i) else None
      case _ => if depth == n then Nesting(trace[1..], n, depth) else None
  }

  lemma {:induction false} NestingConcat(a: seq<Event>, b: seq<Event>, n: nat, depth: nat)
    ensures Nesting(a + b, n, depth) ==
            if Nesting(a, n, depth).None? then None else Nesting(b, n, Nesting(a, n, depth).value)
    decreases |a|
  {
    if a == [] {
      assert a + b == b;
    } else {
      assert (a + b)[1..] == a[1..] + b;
      match a[0] {
        case Enter(i) => if i == depth < n { NestingConcat(a[1..], b, n, depth + 1); }
        case Exit(i) => if i + 1 == depth { NestingConcat(a[1..], b, n, i); }
        case _ => if depth == n { NestingConcat(a[1..], b, n, depth); }
      }
    }
  }

  predicate Inner(event: Event) {
    !event.Enter? && !event.Exit?
  }

  lemma {:induction false} InnerNesting(trace: seq<Event>, n: nat)
    requires forall k :: 0 <= k < |trace| ==> Inner(trace[k])
    ensures Nesting(trace, n, n) == Some(n)
    decreases |trace|
  {
    if trace != [] {
      assert Inner(trace[0]);
      forall k | 0 <= k < |trace[1..]| ensures Inner(trace[1..][k]) {
        assert trace[1..][k] == trace[k+1];
      }
      InnerNesting(trace[1..], n);
    }
  }

  lemma {:induction false} RunIsInner(handlers: Handlers, run: nat)
    ensures forall k :: 0 <= k < |RunTrace(handlers, run)| ==> Inner(RunTrace(handlers, run)[k])
  {
    var trace := RunTrace(handlers, run);
    forall k | 0 <= k < |trace| ensures Inner(trace[k]) {
      EventsListed(BeforesRun(handlers.before, run));
      EventsListed(|handlers.before|);
      EventsListed(|handlers.after|);
      assert trace[k] in trace;
    }
  }

  /** The chain nests in registration order and closes everything it opens. */
  lemma {:induction false} ChainNests(middleware: seq<Middleware>, handlers: Handlers, index: nat, runs: nat)
    requires index <= |middleware|
    ensures Nesting(Chain(middleware, handlers, index, runs).trace, |middleware|, index) == Some(index)
    decreases |middleware| - index, 0
  {
    var n := |middleware|;
    if index == n {
      RunIsInner(handlers, runs);
      InnerNesting([BeginRun(runs)] + RunTrace(handlers, runs) + [EndRun(runs)], n);
    } else {
      var inner := Repeat(middleware, handlers, index, middleware[index].calls, runs);
      RepeatNests(middleware, handlers, index, middleware[index].calls, runs);
      NestingConcat([Enter(index)] + inner.trace, [Exit(index)], n, index);
      NestingConcat([Enter(index)], inner.trace, n, index);
    }
  }

  lemma {:induction false} RepeatNests(middleware: seq<Middleware>, handlers: Handlers, index: nat, calls: nat,
                                       runs: nat)
    requires index < |middleware|
    ensures Nesting(Repeat(middleware, handlers, index, calls, runs).trace, |middleware|, index + 1) == Some(index + 1)
    decreases |middleware| - index - 1, calls + 1
  {
    if calls != 0 {
      var first := Repeat(middleware, handlers, index, calls - 1, runs);
      RepeatNests(middleware, handlers, index, calls - 1, runs);
      ChainNests(middleware, handlers, index + 1, first.runs);
      NestingConcat(first.trace, Chain(middleware, handlers, index + 1, first.runs).trace, |middleware|, index + 1);
    }
  }

  /** Middlewares that call `next` once and hand its result on are invisible in the result. */
  lemma {:induction false} TransparentChain(middleware: seq<Middleware>, handlers: Handlers, index: nat, runs: nat)
    requires index <= |middleware|
    requires forall i :: index <= i < |middleware| ==>
               middleware[i].calls == 1 && forall r :: middleware[i].combine([r]) == r
    ensures Chain(middleware, handlers, index, runs).result == RunResult(handlers, runs)
    decreases |middleware| - index
  {
    if index < |middleware| {
      TransparentChain(middleware, handlers, index + 1, runs);
      var inner := Repeat(middleware, handlers, index, 1, runs);
      assert Repeat(middleware, handlers, index, 0, runs) == Repeated([], [], runs);
      assert inner.results == [RunResult(handlers, runs)];
    }
  }
}
