/** The load and reset flags of PySimulation and the OPF flag of PyOptimizationState in
    python/griddyn_python.cpp.  What the solver, the file system and the loader answer are
    parameters; GridDyn is built with its optimization library. */
module GridLifecycle {

  datatype Outcome = Done | ExecutionError | FileLoadError | InvalidObjectError | InvalidParameterError | LoaderError

  /** One call of a load function, as far as the simulation is concerned. */
  datatype Load =
    | Refused                      // turned down before the simulation was touched
    | FileLoad(ok: bool)           // load()
    | RunnerLoad(ok: bool)         // loadFromString() or loadFromArgs()

  predicate Succeeded(l: Load)
  {
    !l.Refused? && l.ok
  }

  predicate Reached(l: Load)
  {
    !l.Refused?
  }

  ghost predicate AnySucceeded(h: seq<Load>)
  {
    exists i :: 0 <= i < |h| && Succeeded(h[i])
  }

  /** The only successful load is the last one that reached the simulation, and it came from
      arguments or a string. */
  ghost predicate OnlyLoad(h: seq<Load>, i: int)
  {
    && 0 <= i < |h| && h[i] == RunnerLoad(true)
    && (forall j :: 0 <= j < |h| && j != i ==> !Succeeded(h[j]))
    && (forall j :: i < j < |h| ==> !Reached(h[j]))
  }

  ghost predicate Resettable(h: seq<Load>)
  {
    exists i :: OnlyLoad(h, i)
  }

  lemma HistoryStep(h: seq<Load>, l: Load)
    ensures AnySucceeded(h + [l]) <==> AnySucceeded(h) || Succeeded(l)
    ensures Resettable(h + [l]) <==> if Reached(l) then l == RunnerLoad(true) && !AnySucceeded(h) else Resettable(h)
  {
    var n := |h|;
    var g := h + [l];
    assert forall i :: 0 <= i < n ==> g[i] == h[i];
    assert g[n] == l;
    if AnySucceeded(h) {
      var i :| 0 <= i < n && Succeeded(h[i]);
      assert Succeeded(g[i]);
    }
    if Reached(l) {
      if l == RunnerLoad(true) && !AnySucceeded(h) {
        assert OnlyLoad(g, n);
      }
      if Resettable(g) {
        var i :| OnlyLoad(g, i);
        assert i == n;
        assert forall j :: 0 <= j < n ==> !Succeeded(g[j]);
      }
    } else {
      if Resettable(h) {
        var i :| OnlyLoad(h, i);
        assert OnlyLoad(g, i);
      }
      if Resettable(g) {
        var i :| OnlyLoad(g, i);
        assert OnlyLoad(h, i);
      }
    }
  }

  class PySimulation {
    const optimizationSimulation: bool
    var hasLoadedSystem: bool
    var runnerResetAvailable: bool
    var modelInitialized: bool
    var optimizer: string
    ghost var history: seq<Load>

    /** The flags say what the history says. */
    ghost predicate Valid()
      reads this
    {
      && (hasLoadedSystem <==> AnySucceeded(history))
      && (runnerResetAvailable <==> Resettable(history))
      && (modelInitialized ==> optimizationSimulation && optimizer != "")
    }

    /** PySimulation(name, type). */
    constructor (optimization: bool)
      ensures Valid() && history == [] && optimizationSimulation == optimization && !modelInitialized
    {
      optimizationSimulation := optimization;
      hasLoadedSystem, runnerResetAvailable, modelInitialized, optimizer := false, false, false, "";
      history := [];
    }

    /** load(): `present` the file exists, `available` the runner has a simulation, `loads` loadFile
        returns and does not throw. */
    method LoadFile(present: bool, available: bool, loads: bool) returns (r: Outcome)
      requires Valid()
      modifies this`hasLoadedSystem, this`runnerResetAvailable, this`history
      ensures Valid() && history ==
              old(history) + [if modelInitialized || !present || !available then Refused else FileLoad(loads)]
      ensures r == if modelInitialized then ExecutionError else if !present then FileLoadError
                   else if !available then InvalidObjectError else if loads then Done else LoaderError
    {
      if modelInitialized || !present || !available {
        HistoryStep(history, Refused);
        history := history + [Refused];
        return if modelInitialized then ExecutionError else if !present then FileLoadError else InvalidObjectError;
      }
      HistoryStep(history, FileLoad(loads));
      history := history + [FileLoad(loads)];
      runnerResetAvailable := false;
      if !loads {
        return LoaderError;
      }
      hasLoadedSystem := true;
      r := Done;
    }

    /** loadFromString() and loadFromArgs(): `result` is the status of the runner, `throws` says
        that it did not come to a status. */
    method LoadByRunner(throws: bool, result: int) returns (r: Outcome)
      requires Valid()
      modifies this`hasLoadedSystem, this`runnerResetAvailable, this`history
      ensures Valid() && history == old(history) + [RunnerLoad(!throws && result == 0)]
      ensures r == if throws then LoaderError else if result != 0 then ExecutionError else Done
    {
      HistoryStep(history, RunnerLoad(!throws && result == 0));
      history := history + [RunnerLoad(!throws && result == 0)];
      var canReset := !hasLoadedSystem;
      runnerResetAvailable := false;
      if throws {
        return LoaderError;
      }
      if result != 0 {
        return ExecutionError;
      }
      runnerResetAvailable := canReset && result == 0;
      hasLoadedSystem := hasLoadedSystem || result == 0;
      r := Done;
    }

    /** reset(): it reaches the runner exactly when the only load that succeeded came from arguments
        or a string, nothing was loaded over it, and this is no optimization simulation.  The
        flags stay. */
    method Reset(result: int) returns (r: Outcome, reached: bool)
      requires Valid()
      ensures reached <==> Resettable(history) && !optimizationSimulation
      ensures r == Done <==> reached && result == 0
      ensures r in {Done, ExecutionError}
    {
      if !runnerResetAvailable {
        return ExecutionError, false;
      }
      if optimizationSimulation {
        return ExecutionError, false;
      }
      reached := true;
      r := if result != 0 then ExecutionError else Done;
    }

    /** The gate of solveOpf(): the first call that gets through fixes the optimizer, later calls
        have to name the same one.  `known` says that the optimizer exists and is a native one,
        `initializes` that initializeOptimizationModel returns. */
    method PrepareOpf(optimizerType: string, known: bool, initializes: bool) returns (r: Outcome)
      requires Valid()
      modifies this`modelInitialized, this`optimizer
      ensures Valid()
      ensures old(modelInitialized) ==> modelInitialized && optimizer == old(optimizer)
      ensures r == Done <==>
                && optimizationSimulation && known
                && (if old(modelInitialized)
                    then old(optimizer) == (if optimizerType == "" then "native" else optimizerType)
                    else initializes)
      ensures r == Done ==> modelInitialized && optimizer == if optimizerType == "" then "native" else optimizerType
      ensures r != Done ==> modelInitialized == old(modelInitialized) && optimizer == old(optimizer)
      ensures r == LoaderError <==> optimizationSimulation && known && !old(modelInitialized) && !initializes
      ensures r == ExecutionError <==> !optimizationSimulation
      ensures r in {Done, ExecutionError, InvalidParameterError, LoaderError}
    {
      if !optimizationSimulation {
        return ExecutionError;
      }
      var name := if optimizerType == "" then "native" else optimizerType;
      if !known {
        return InvalidParameterError;
      }
      if modelInitialized && name != optimizer {
        return InvalidParameterError;
      }
      if !modelInitialized {
        if !initializes {
          return LoaderError;
        }
        modelInitialized, optimizer := true, name;
      }
      r := Done;
    }
  }
}
