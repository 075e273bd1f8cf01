/**
 * The load-once latch every data source shares.
 *
 * A data source is loaded through `load`, which runs the source's own
 * `perform_load` only while the `is_loaded` flag is clear and raises the flag
 * after that call returns. A failing `perform_load` therefore leaves the
 * flag clear and the next `load` tries again; once one run has succeeded,
 * every later `load` does nothing.
 *
 * `Latch` is the flag together with two ghost counters: how many times
 * `perform_load` was started and how many of those runs succeeded. The
 * outcome of each run is a parameter, since what a run does is up to the
 * data source.
 */
module DataManager {

  datatype Latch = Latch(isLoaded: bool, runs: nat, successes: nat)

  /** A new data source: not loaded, nothing run yet. */
  const Unloaded: Latch := Latch(false, 0, 0)

  /** One `load`, where `succeeded` is how `perform_load` would end. */
  function Load(l: Latch, succeeded: bool): (l': Latch)
    ensures l'.isLoaded <==> l.isLoaded || succeeded
    ensures l.isLoaded ==> l' == l
    ensures !l.isLoaded ==> l'.runs == l.runs + 1
  {
    if l.isLoaded then l
    else Latch(succeeded, l.runs + 1, l.successes + if succeeded then 1 else 0)
  }

  /** A sequence of `load` calls with the given outcomes, oldest first. */
  function Run(l: Latch, outcomes: seq<bool>): (l': Latch)
    ensures l'.isLoaded <==> l.isLoaded || true in outcomes
    ensures l.runs <= l'.runs <= l.runs + |outcomes|
  {
    if outcomes == [] then l
    else
      assert outcomes == outcomes[..|outcomes| - 1] + [outcomes[|outcomes| - 1]];
      Load(Run(l, outcomes[..|outcomes| - 1]), outcomes[|outcomes| - 1])
  }

  /** The flag is raised exactly when one run has succeeded, and a run only
      succeeds once it was started. */
  ghost predicate Consistent(l: Latch)
  {
    && l.successes == (if l.isLoaded then 1 else 0)
    && l.successes <= l.runs
  }

  /** How many runs a sequence of calls starts from `Unloaded`: one per call
      up to and including the first success, none after it. */
  function RunsUntilLoaded(outcomes: seq<bool>): (n: nat)
    ensures n <= |outcomes|
  {
    if outcomes == [] then 0
    else if outcomes[0] then 1
    else 1 + RunsUntilLoaded(outcomes[1..])
  }

  lemma LoadKeepsConsistent(l: Latch, succeeded: bool)
    requires Consistent(l)
    ensures Consistent(Load(l, succeeded))
  {
  }

  /** Once loaded, any further calls leave the latch as it is. */
  lemma {:induction false} LoadedStaysPut(l: Latch, outcomes: seq<bool>)
    requires l.isLoaded
    ensures Run(l, outcomes) == l
  {
    if outcomes != [] {
      LoadedStaysPut(l, outcomes[..|outcomes| - 1]);
    }
  }

  /** Appending calls to a sequence is running them from where it ended. */
  lemma {:induction false} RunConcat(l: Latch, a: seq<bool>, b: seq<bool>)
    ensures Run(l, a + b) == Run(Run(l, a), b)
  {
    if b == [] {
      assert a + b == a;
    } else {
      assert (a + b)[..|a + b| - 1] == a + b[..|b| - 1];
      RunConcat(l, a, b[..|b| - 1]);
    }
  }

  /** From a new data source, any sequence of `load` calls leaves the latch
      consistent, raised exactly when some call succeeded, having started
      `perform_load` once per call up to the first success and no more — so
      `perform_load` succeeds at most once. */
  lemma {:induction false} RunFromUnloaded(outcomes: seq<bool>)
    ensures Consistent(Run(Unloaded, outcomes))
    ensures Run(Unloaded, outcomes).successes <= 1
    ensures Run(Unloaded, outcomes).isLoaded <==> true in outcomes
    ensures Run(Unloaded, outcomes).runs == RunsUntilLoaded(outcomes)
  {
    if outcomes == [] {
    } else {
      var first := Load(Unloaded, outcomes[0]);
      var rest := outcomes[1..];
      assert outcomes == [outcomes[0]] + rest;
      RunConcat(Unloaded, [outcomes[0]], rest);
      assert Run(Unloaded, [outcomes[0]]) == first by {
        assert [outcomes[0]][..0] == [];
      }
      if outcomes[0] {
        LoadedStaysPut(first, rest);
      } else {
        RunFromUnloaded(rest);
        assert first == Latch(false, 1, 0);
        RunShifted(rest);
      }
    }
  }

  /** A run that starts after one failed call is the same run with one more
      start counted. */
  lemma {:induction false} RunShifted(outcomes: seq<bool>)
    ensures Run(Latch(false, 1, 0), outcomes)
         == Run(Unloaded, outcomes).(runs := Run(Unloaded, outcomes).runs + 1)
  {
    if outcomes != [] {
      RunShifted(outcomes[..|outcomes| - 1]);
    }
  }
}
