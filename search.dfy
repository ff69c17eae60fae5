/**
 The bookkeeping of one hyperparameter search run: how an evaluated condition
 becomes a record, the ordered history of records, the best-so-far rule with its
 strict comparison against a sentinel, and the sequence of histories written to
 the results file. Everything here is a pure specification; the search loop that
 follows it is `Optimizers.Random.Optimize`.
 */
module Search {

  datatype Option<T> = None | Some(value: T)

  /** A value stored in a condition dictionary: a parameter value, an error or an info payload. */
  datatype Value = Number(n: int) | Text(s: string)

  /** A condition maps parameter names to values; once evaluated it also holds "error" and "info". */
  type Condition = map<string, Value>

  /** What evaluating one condition produces: the error (lower is better) and an opaque info payload. */
  datatype Outcome = Outcome(error: int, info: Value)

  const ErrorKey: string := "error"
  const InfoKey: string := "info"

  /** The initial best error, 1e10 in the source; errors are modelled as integers. */
  const Sentinel: int := 10_000_000_000

  /** The record of an evaluated condition: the condition dictionary with "error" and "info" written into it. */
  function Annotate(c: Condition, o: Outcome): (r: Condition)
    ensures r.Keys == c.Keys + {ErrorKey, InfoKey}
    ensures r[ErrorKey] == Number(o.error) && r[InfoKey] == o.info
    ensures forall k :: k in c && k != ErrorKey && k != InfoKey ==> r[k] == c[k]
  {
    c[ErrorKey := Number(o.error)][InfoKey := o.info]
  }

  /** The history after evaluating `conds` in order: one record appended per condition. */
  function History(ev: Condition -> Outcome, conds: seq<Condition>): (h: seq<Condition>)
    ensures |h| == |conds|
  {
    if conds == [] then []
    else
      var last := conds[|conds| - 1];
      History(ev, conds[..|conds| - 1]) + [Annotate(last, ev(last))]
  }

  /** The history lists exactly one record per evaluated condition, in evaluation order. */
  lemma {:induction false} HistoryOrder(ev: Condition -> Outcome, conds: seq<Condition>)
    ensures forall i :: 0 <= i < |conds| ==> History(ev, conds)[i] == Annotate(conds[i], ev(conds[i]))
  {
    if conds != [] {
      HistoryOrder(ev, conds[..|conds| - 1]);
    }
  }

  /** The history after the first k evaluations is the first k records of any later history. */
  lemma {:induction false} HistoryPrefix(ev: Condition -> Outcome, conds: seq<Condition>, k: nat)
    requires k <= |conds|
    ensures History(ev, conds[..k]) == History(ev, conds)[..k]
  {
    if k < |conds| {
      var n := |conds| - 1;
      HistoryPrefix(ev, conds[..n], k);
      assert conds[..n][..k] == conds[..k];
      var h := History(ev, conds[..n]);
      assert History(ev, conds) == h + [Annotate(conds[n], ev(conds[n]))];
      assert (h + [Annotate(conds[n], ev(conds[n]))])[..k] == h[..k];
    } else {
      assert conds[..k] == conds;
    }
  }

  /** The best-so-far state: the best error and the record that achieved it, if any. */
  datatype Incumbent = Incumbent(error: int, condition: Option<Condition>)

  /** One step of the best-so-far rule: a strictly smaller error replaces the incumbent. */
  function Consider(b: Incumbent, c: Condition, o: Outcome): (r: Incumbent)
    ensures r.error <= b.error && r.error <= o.error
    ensures r == b || r == Incumbent(o.error, Some(Annotate(c, o)))
    ensures o.error == b.error ==> r == b
  {
    if o.error < b.error then Incumbent(o.error, Some(Annotate(c, o))) else b
  }

  /** The best-so-far state after evaluating `conds` in order, starting from the sentinel. */
  function Best(ev: Condition -> Outcome, conds: seq<Condition>): (b: Incumbent)
    ensures b.error <= Sentinel
    ensures b.condition == None ==> b.error == Sentinel
  {
    if conds == [] then Incumbent(Sentinel, None)
    else
      var last := conds[|conds| - 1];
      Consider(Best(ev, conds[..|conds| - 1]), last, ev(last))
  }

  /** Evaluating the condition at position i extends the history by its record. */
  lemma HistoryStep(ev: Condition -> Outcome, conds: seq<Condition>, i: nat)
    requires i < |conds|
    ensures History(ev, conds[..i + 1]) == History(ev, conds[..i]) + [Annotate(conds[i], ev(conds[i]))]
  {
    assert conds[..i + 1][..i] == conds[..i];
  }

  /** Evaluating the condition at position i is one step of the best-so-far rule. */
  lemma BestStep(ev: Condition -> Outcome, conds: seq<Condition>, i: nat)
    requires i < |conds|
    ensures Best(ev, conds[..i + 1]) == Consider(Best(ev, conds[..i]), conds[i], ev(conds[i]))
  {
    assert conds[..i + 1][..i] == conds[..i];
  }

  /** Position k holds the first condition whose error equals b's error, and b holds its record. */
  ghost predicate FirstAttains(ev: Condition -> Outcome, conds: seq<Condition>, k: int, b: Incumbent)
  {
    && 0 <= k < |conds|
    && ev(conds[k]).error == b.error
    && b.condition == Some(Annotate(conds[k], ev(conds[k])))
    && forall j :: 0 <= j < k ==> b.error < ev(conds[j]).error
  }

  /**
   Reference definition of the search's answer: the error is the minimum of the
   sentinel and all errors; there is a best condition exactly when some error is
   below the sentinel, and then it is the record of the first condition attaining
   the minimum.
   */
  ghost predicate IsFirstMinimum(ev: Condition -> Outcome, conds: seq<Condition>, b: Incumbent)
  {
    && b.error <= Sentinel
    && (forall i :: 0 <= i < |conds| ==> b.error <= ev(conds[i]).error)
    && (b.condition == None <==> forall i :: 0 <= i < |conds| ==> Sentinel <= ev(conds[i]).error)
    && (b.condition == None ==> b.error == Sentinel)
    && (b.condition.Some? ==> exists k :: FirstAttains(ev, conds, k, b))
  }

  /** The strict best-so-far rule computes the first minimum, so ties keep the earliest condition. */
  lemma {:induction false} BestIsFirstMinimum(ev: Condition -> Outcome, conds: seq<Condition>)
    ensures IsFirstMinimum(ev, conds, Best(ev, conds))
  {
    if conds != [] {
      var n := |conds| - 1;
      var prefix, last := conds[..n], conds[n];
      BestIsFirstMinimum(ev, prefix);
      var prev := Best(ev, prefix);
      assert forall i :: 0 <= i < n ==> conds[i] == prefix[i];
      if ev(last).error < prev.error {
        assert FirstAttains(ev, conds, n, Best(ev, conds));
      } else if prev.condition.Some? {
        var k :| FirstAttains(ev, prefix, k, prev);
        assert FirstAttains(ev, conds, k, Best(ev, conds));
      }
    }
  }

  /**
   The reference definition admits one answer only. Dafny finds this proof on its
   own; the body spells out the argument for the reader: both answers have the
   same error, and the first position attaining it is the same.
   */
  lemma FirstMinimumUnique(ev: Condition -> Outcome, conds: seq<Condition>, b1: Incumbent, b2: Incumbent)
    requires IsFirstMinimum(ev, conds, b1) && IsFirstMinimum(ev, conds, b2)
    ensures b1 == b2
  {
    if b1.condition.Some? {
      var k1 :| FirstAttains(ev, conds, k1, b1);
      var k2 :| FirstAttains(ev, conds, k2, b2);
      assert b1.error == b2.error;
      assert k1 == k2;
    }
  }

  /** The best error never increases as evaluations go on, and a best condition, once found, stays found. */
  lemma {:induction false} BestNonIncreasing(ev: Condition -> Outcome, conds: seq<Condition>, i: nat, j: nat)
    requires i <= j <= |conds|
    ensures Best(ev, conds[..j]).error <= Best(ev, conds[..i]).error
    ensures Best(ev, conds[..i]).condition.Some? ==> Best(ev, conds[..j]).condition.Some?
  {
    if i < j {
      BestNonIncreasing(ev, conds, i, j - 1);
      assert conds[..j][..j - 1] == conds[..j - 1];
    }
  }

  /** The best condition returned is one of the history's records. */
  lemma {:induction false} BestIsRecorded(ev: Condition -> Outcome, conds: seq<Condition>)
    ensures Best(ev, conds).condition.Some? ==> Best(ev, conds).condition.value in History(ev, conds)
  {
    BestIsFirstMinimum(ev, conds);
    HistoryOrder(ev, conds);
    if Best(ev, conds).condition.Some? {
      var k :| FirstAttains(ev, conds, k, Best(ev, conds));
      assert History(ev, conds)[k] == Best(ev, conds).condition.value;
    }
  }

  /** What the run does to the results file and the progress report, in order. */
  datatype Event = Write(records: seq<Condition>) | Report

  /**
   The events of a run whose history is `h`: after each evaluation, the whole
   history so far is written to the results file, then a progress report is
   rendered from that file.
   */
  function Trace(h: seq<Condition>): (t: seq<Event>)
    ensures |t| == 2 * |h|
  {
    if h == [] then [] else Trace(h[..|h| - 1]) + [Write(h), Report]
  }

  /** Writes and reports alternate; the i-th write holds exactly the first i + 1 records. */
  lemma {:induction false} TraceAlternates(h: seq<Condition>)
    ensures forall k :: 0 <= k < |Trace(h)| ==>
      Trace(h)[k] == if k % 2 == 0 then Write(h[..k / 2 + 1]) else Report
  {
    if h != [] {
      var n := |h| - 1;
      TraceAlternates(h[..n]);
      assert Trace(h) == Trace(h[..n]) + [Write(h), Report];
      forall k | 0 <= k < 2 * n
        ensures Trace(h)[k] == if k % 2 == 0 then Write(h[..k / 2 + 1]) else Report
      {
        assert Trace(h)[k] == Trace(h[..n])[k];
        assert h[..n][..k / 2 + 1] == h[..k / 2 + 1];
      }
      assert h[..n + 1] == h;
    }
  }

  /** Appending a record appends one write of the new history and one report. */
  lemma TraceStep(h: seq<Condition>, x: Condition)
    ensures Trace(h + [x]) == Trace(h) + [Write(h + [x]), Report]
  {
    assert (h + [x])[..|h|] == h;
  }
}
