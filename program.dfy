/**
  The program's flow: validate every strategy, then evaluate the strategies selected
  by the optional name filter, in configuration order. Fetching a series and reading
  the clock are parameters: `fetch` gives the bar series of a currency, `now` the instant.
*/
module Program {

  import opened Wrappers
  import opened Clock
  import opened Strategies
  import opened Momentum
  import opened Evaluator

  /** A strategy is evaluated when the filter is empty or names it exactly. */
  predicate Selected(s: Strategy, filter: string)
  {
    filter == "" || s.name == filter
  }

  /** The strategies the filter selects, in configuration order. */
  function Filtered(strategies: seq<Strategy>, filter: string): (r: seq<Strategy>)
    ensures |r| <= |strategies|
    ensures forall k :: 0 <= k < |r| ==> r[k] in strategies && Selected(r[k], filter)
  {
    if |strategies| == 0 then []
    else
      var last := strategies[|strategies| - 1];
      Filtered(strategies[..|strategies| - 1], filter) + (if Selected(last, filter) then [last] else [])
  }

  /** An empty filter selects every strategy, in order. */
  lemma {:induction false} EmptyFilterSelectsAll(strategies: seq<Strategy>)
    ensures Filtered(strategies, "") == strategies
  {
    if |strategies| > 0 {
      EmptyFilterSelectsAll(strategies[..|strategies| - 1]);
      assert strategies[..|strategies| - 1] + [strategies[|strategies| - 1]] == strategies;
    }
  }

  /** A strategy is selected exactly when it is configured and the filter is empty or its name. */
  lemma {:induction false} FilteredMembership(strategies: seq<Strategy>, filter: string, s: Strategy)
    ensures s in Filtered(strategies, filter) <==> s in strategies && Selected(s, filter)
  {
    if |strategies| > 0 {
      var init := strategies[..|strategies| - 1];
      FilteredMembership(init, filter, s);
      assert strategies == init + [strategies[|strategies| - 1]];
    }
  }

  /** Selection keeps configuration order: filtering a concatenation filters each part. */
  lemma {:induction false} FilteredAppend(a: seq<Strategy>, b: seq<Strategy>, filter: string)
    ensures Filtered(a + b, filter) == Filtered(a, filter) + Filtered(b, filter)
  {
    if |b| == 0 {
      assert a + b == a;
    } else {
      var init := b[..|b| - 1];
      FilteredAppend(a, init, filter);
      assert (a + b)[..|a + b| - 1] == a + init;
      assert (a + b)[|a + b| - 1] == b[|b| - 1];
    }
  }

  /** A non-empty filter only ever picks strategies with exactly that name. */
  lemma NamedFilterSelectsByName(strategies: seq<Strategy>, filter: string)
    requires filter != ""
    ensures forall k :: 0 <= k < |Filtered(strategies, filter)| ==> Filtered(strategies, filter)[k].name == filter
  {
  }

  /** Whenever a selected strategy gets past its weekday gate there is a bar series to read. */
  predicate SeriesAvailable(strategies: seq<Strategy>, filter: string, fetch: string -> seq<Record>, now: int)
  {
    forall i :: 0 <= i < |strategies| && Selected(strategies[i], filter) && WeekdayOf(now) in strategies[i].weekdays
      ==> |fetch(strategies[i].currency)| > 0
  }

  /**
    `evaluateStrategies`: skips every strategy the filter does not select and evaluates
    the others, in configuration order, each against the series of its own currency.
  */
  method EvaluateStrategies(strategies: seq<Strategy>, filter: string, fetch: string -> seq<Record>, now: int)
    returns (results: seq<(Strategy, Outcome)>)
    requires SeriesAvailable(strategies, filter, fetch, now)
    ensures |results| == |Filtered(strategies, filter)|
    ensures forall k :: 0 <= k < |results| ==>
      var s := Filtered(strategies, filter)[k];
      (WeekdayOf(now) in s.weekdays ==> |fetch(s.currency)| > 0)
      && results[k] == (s, Evaluation(s, fetch(s.currency), now))
  {
    results := [];
    var i := 0;
    while i < |strategies|
      invariant 0 <= i <= |strategies|
      invariant |results| == |Filtered(strategies[..i], filter)|
      invariant forall k :: 0 <= k < |results| ==>
        var s := Filtered(strategies[..i], filter)[k];
        (WeekdayOf(now) in s.weekdays ==> |fetch(s.currency)| > 0)
        && results[k] == (s, Evaluation(s, fetch(s.currency), now))
    {
      var strategy := strategies[i];
      assert strategies[..i + 1][..i] == strategies[..i];
      if filter != "" && strategy.name != filter {
        i := i + 1;
        continue;
      }
      var outcome := Evaluate(strategy, fetch(strategy.currency), now);
      results := results + [(strategy, outcome)];
      i := i + 1;
    }
    assert strategies[..i] == strategies;
  }

  /** What a run of the program produces: a fatal configuration error, or the evaluations. */
  datatype Run = Aborted(index: nat, error: ConfigError) | Completed(results: seq<(Strategy, Outcome)>)

  /**
    Validation runs first, over all strategies; any invalid strategy aborts the run
    before a single strategy is evaluated.
  */
  method RunProgram(strategies: seq<Strategy>, filter: string, fetch: string -> seq<Record>, now: int)
    returns (run: Run)
    requires (forall i :: 0 <= i < |strategies| ==> WellFormed(strategies[i]))
      ==> SeriesAvailable(strategies, filter, fetch, now)
    ensures run.Aborted? <==> exists i :: 0 <= i < |strategies| && !WellFormed(strategies[i])
    ensures run.Aborted? ==>
      && run.index < |strategies|
      && (forall j :: 0 <= j < run.index ==> WellFormed(strategies[j]))
      && CheckStrategy(strategies[run.index]) == Some(run.error)
    ensures run.Completed? ==>
      && |run.results| == |Filtered(strategies, filter)|
      && forall k :: 0 <= k < |run.results| ==>
        var s := Filtered(strategies, filter)[k];
        WellFormed(s)
        && (WeekdayOf(now) in s.weekdays ==> |fetch(s.currency)| > 0)
        && run.results[k] == (s, Evaluation(s, fetch(s.currency), now))
  {
    var validation := Validate(strategies);
    if validation.Fatal? {
      return Aborted(validation.index, validation.error);
    }
    var results := EvaluateStrategies(strategies, filter, fetch, now);
    forall k | 0 <= k < |results|
      ensures WellFormed(Filtered(strategies, filter)[k])
    {
      var s := Filtered(strategies, filter)[k];
      assert s in strategies;
    }
    return Completed(results);
  }
}
