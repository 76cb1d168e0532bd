/**
  Strategy definitions and their validation at start-up (`Configuration.validate`).
*/
module Strategies {

  import opened Wrappers
  import opened Clock

  /**
    One configured strategy. `greaterThan` and `lessThan` are the optional percentage
    thresholds (nil pointers in the configuration), `weekdays` the days on which it is
    eligible and `times` its times of day, as durations in seconds since midnight.
  */
  datatype Strategy = Strategy(
    name: string,
    currency: string,
    offset: int,
    greaterThan: Option<real>,
    lessThan: Option<real>,
    weekdays: seq<Weekday>,
    times: seq<int>)

  /** The fatal configuration errors, each naming the check that failed. */
  datatype ConfigError =
    | MissingName
    | MissingCurrency(strategy: string)
    | InvalidOffset(strategy: string)
    | MissingMomentumConstraint(strategy: string)

  /** Outcome of validation: every strategy accepted, or the first offending one and why. */
  datatype Validation = Accepted | Fatal(index: nat, error: ConfigError)

  /** What validation demands of every strategy, as one conjunction. */
  predicate WellFormed(s: Strategy)
  {
    && s.name != ""
    && s.currency != ""
    && s.offset > 0
    && (s.greaterThan.Some? || s.lessThan.Some?)
  }

  /**
    The error validation reports for one strategy: the first of the checks, taken in
    the order name, currency, offset, thresholds, that the strategy fails.
  */
  function CheckStrategy(s: Strategy): (e: Option<ConfigError>)
    ensures e.None? <==> WellFormed(s)
    ensures s.name == "" ==> e == Some(MissingName)
    ensures s.name != "" && s.currency == "" ==> e == Some(MissingCurrency(s.name))
    ensures s.name != "" && s.currency != "" && s.offset <= 0 ==> e == Some(InvalidOffset(s.name))
    ensures s.name != "" && s.currency != "" && s.offset > 0 && s.greaterThan.None? && s.lessThan.None?
      ==> e == Some(MissingMomentumConstraint(s.name))
  {
    if s.name == "" then Some(MissingName)
    else if s.currency == "" then Some(MissingCurrency(s.name))
    else if s.offset <= 0 then Some(InvalidOffset(s.name))
    else if s.greaterThan.None? && s.lessThan.None? then Some(MissingMomentumConstraint(s.name))
    else None
  }

  /**
    Checks the strategies in configuration order and stops at the first failure.
    Accepts exactly when every strategy is well formed; otherwise reports the first
    strategy that is not, every strategy before it being well formed, with the error
    of the first check it fails.
  */
  method Validate(strategies: seq<Strategy>) returns (v: Validation)
    ensures v.Accepted? <==> forall i :: 0 <= i < |strategies| ==> WellFormed(strategies[i])
    ensures v.Fatal? ==>
      && v.index < |strategies|
      && (forall j :: 0 <= j < v.index ==> WellFormed(strategies[j]))
      && CheckStrategy(strategies[v.index]) == Some(v.error)
  {
    var i := 0;
    while i < |strategies|
      invariant 0 <= i <= |strategies|
      invariant forall j :: 0 <= j < i ==> WellFormed(strategies[j])
    {
      var strategy := strategies[i];
      if strategy.name == "" {
        return Fatal(i, MissingName);
      }
      if strategy.currency == "" {
        return Fatal(i, MissingCurrency(strategy.name));
      }
      if strategy.offset <= 0 {
        return Fatal(i, InvalidOffset(strategy.name));
      }
      if strategy.greaterThan.None? && strategy.lessThan.None? {
        return Fatal(i, MissingMomentumConstraint(strategy.name));
      }
      i := i + 1;
    }
    return Accepted;
  }
}
