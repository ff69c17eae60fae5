/**
 The random (and, by alias, grid) hyperparameter search: the enumeration of
 conditions (expand, shuffle in place, cap at `nIter`) and the driver loop that
 evaluates each yielded condition, records it, persists the whole history and
 keeps the best result. The expanded grid is an input, the randomness of the
 shuffle is a nondeterministic choice, and the results file and the progress
 report are a ghost event log.
 */
module Optimizers {
  import opened Search

  /** The default iteration cap, 1e10 in the source. */
  const DefaultNIter: int := 10_000_000_000

  /** The end index Python uses for the slice `s[:n]` of a sequence of length `len`. */
  function SliceEnd(n: int, len: nat): (e: nat)
    ensures e <= len
  {
    if n < 0 then (if len + n < 0 then 0 else len + n)
    else if n < len then n else len
  }

  /** The conditions left after the cap: the list is cut to `conds[:nIter]` only when `nIter` is below its length. */
  function Cap<T>(conds: seq<T>, nIter: int): (r: seq<T>)
    ensures |r| <= |conds| && r == conds[..|r|]
    ensures 0 <= nIter ==> |r| == if nIter < |conds| then nIter else |conds|
    ensures nIter < 0 ==> |r| == if |conds| + nIter < 0 then 0 else |conds| + nIter
  {
    if nIter < |conds| then conds[..SliceEnd(nIter, |conds|)] else conds
  }

  /** The in-place shuffle: a Fisher-Yates pass where each swap partner is an unspecified choice. */
  method Shuffle<T>(a: array<T>)
    modifies a
    ensures multiset(a[..]) == multiset(old(a[..]))
  {
    var i := a.Length - 1;
    while i > 0
      invariant i < a.Length
      invariant multiset(a[..]) == multiset(old(a[..]))
    {
      var j :| 0 <= j <= i;
      a[i], a[j] := a[j], a[i];
      i := i - 1;
    }
  }

  /** What is taken from a prefix of a permutation of the grid is in the grid, with no more copies than the grid has. */
  lemma PrefixOfPermutation<T>(grid: seq<T>, p: seq<T>, taken: seq<T>)
    requires multiset(p) == multiset(grid)
    requires |taken| <= |p| && taken == p[..|taken|]
    ensures multiset(taken) <= multiset(grid)
    ensures forall c :: c in taken ==> c in grid
  {
    assert p == taken + p[|taken|..];
    forall c | c in taken ensures c in grid {
      assert c in multiset(taken);
      assert c in multiset(grid);
    }
  }

  /**
   The random search. `nIter` is the iteration cap the source keeps in `self.n_iter`;
   `events` is every write to the results file and every progress report, oldest first.
   */
  class Random {
    var nIter: int
    ghost var events: seq<Event>

    constructor (nIter: int)
      ensures this.nIter == nIter && events == []
    {
      this.nIter := nIter;
      events := [];
    }

    /** A search built without an explicit cap. */
    constructor Default()
      ensures nIter == DefaultNIter && events == []
    {
      nIter := DefaultNIter;
      events := [];
    }

    /**
     The list the condition generator walks: the expanded grid shuffled in place and
     then capped at the current `nIter`. The yields themselves, each of which adds one
     to `nIter`, are the iterations of `Optimize`'s loop.
     */
    method ConditionGenerator(grid: seq<Condition>) returns (conditions: seq<Condition>)
      ensures exists p :: multiset(p) == multiset(grid) && conditions == Cap(p, nIter)
      ensures 0 <= nIter ==> |conditions| == if nIter < |grid| then nIter else |grid|
      ensures nIter < 0 ==> |conditions| == if |grid| + nIter < 0 then 0 else |grid| + nIter
      ensures multiset(conditions) <= multiset(grid)
    {
      var a := new Condition[|grid|](i requires 0 <= i < |grid| => grid[i]);
      assert a[..] == grid;
      Shuffle(a);
      assert |a[..]| == |multiset(a[..])| == |grid|;
      conditions := Cap(a[..], nIter);
      PrefixOfPermutation(grid, a[..], conditions);
    }

    /**
     One search run over the expanded grid. Returns the best error and its record
     (`None` while no error has beaten the sentinel); `yielded` is the order in which
     the conditions were evaluated.
     */
    method Optimize(evaluate: Condition -> Outcome, grid: seq<Condition>)
      returns (bestError: int, bestCondition: Option<Condition>, ghost yielded: seq<Condition>)
      modifies this
      ensures exists p :: multiset(p) == multiset(grid) && yielded == Cap(p, old(nIter))
      ensures 0 <= old(nIter) ==> |yielded| == if old(nIter) < |grid| then old(nIter) else |grid|
      ensures multiset(yielded) <= multiset(grid)
      ensures nIter == old(nIter) + |yielded|
      ensures Incumbent(bestError, bestCondition) == Best(evaluate, yielded)
      ensures IsFirstMinimum(evaluate, yielded, Incumbent(bestError, bestCondition))
      ensures yielded == [] ==> bestError == Sentinel && bestCondition == None
      ensures events == old(events) + Trace(History(evaluate, yielded))
    {
      var conditions := ConditionGenerator(grid);
      yielded := conditions;
      bestError, bestCondition := EvaluateAll(evaluate, conditions);
      BestIsFirstMinimum(evaluate, yielded);
    }

    /**
     The driver's loop over what the generator yields: each resumption adds one to
     `nIter`; each condition is evaluated, annotated and appended to the history, the
     history is written out, the best-so-far state is updated and a report is rendered.
     */
    method EvaluateAll(evaluate: Condition -> Outcome, conditions: seq<Condition>)
      returns (bestError: int, bestCondition: Option<Condition>)
      modifies this`nIter, this`events
      ensures nIter == old(nIter) + |conditions|
      ensures Incumbent(bestError, bestCondition) == Best(evaluate, conditions)
      ensures events == old(events) + Trace(History(evaluate, conditions))
    {
      bestError := Sentinel;
      bestCondition := None;
      var conditionHistory: seq<Condition> := [];
      var i := 0;
      while i < |conditions|
        invariant 0 <= i <= |conditions|
        invariant nIter == old(nIter) + i
        invariant conditionHistory == History(evaluate, conditions[..i])
        invariant Incumbent(bestError, bestCondition) == Best(evaluate, conditions[..i])
        invariant events == old(events) + Trace(conditionHistory)
      {
        // the generator resumes: count the yield and hand out the next condition
        nIter := nIter + 1;
        var condition := conditions[i];
        var outcome := evaluate(condition);
        condition := Annotate(condition, outcome);
        HistoryStep(evaluate, conditions, i);
        BestStep(evaluate, conditions, i);
        TraceStep(conditionHistory, condition);
        conditionHistory := conditionHistory + [condition];
        events := events + [Write(conditionHistory)];
        if outcome.error < bestError {
          bestError := outcome.error;
          bestCondition := Some(condition);
        }
        events := events + [Report];
        i := i + 1;
      }
      assert conditions[..i] == conditions;
    }
  }

  /** The grid search is the random search under another name. */
  type Grid = Random
}
