/** The bounded retry around the ProteinMPNN subprocess in
    `calc_designability`: each attempt either raises (the launch or the wait
    failed) or returns the child's exit code. A raised attempt is counted,
    logged as "Attempt n/5", and re-raised once the count passes four; a
    non-negative exit code ends the loop; a negative exit code (a child
    killed by a signal) loops again without being counted. */
module DesignRetry {

  /** What one launch of the ProteinMPNN subprocess does. */
  datatype Attempt = Raised | Returned(code: int)

  /** How the loop ends, given the attempts the environment supplies.
      `log` lists the attempt numbers of the "Failed ProteinMPNN" messages.
      `Pending` means the supplied attempts ran out while the loop was still
      running (the real loop would launch again). */
  datatype Outcome =
    | Completed(code: int, log: seq<nat>)
    | Reraised(log: seq<nat>)
    | Pending(tries: nat, log: seq<nat>)

  /** The limit after which an exception is re-raised (`num_tries > 4`). */
  const MaxTries: nat := 5

  /** An attempt that makes `ret < 0` false. */
  predicate Exits(a: Attempt) {
    a.Returned? && a.code >= 0
  }

  /** The loop from attempt `i` on. `tries` is `num_tries`; `ret` is not
      kept because it is negative whenever the loop is running. */
  function Loop(outs: seq<Attempt>, i: nat, tries: nat, log: seq<nat>): (r: Outcome)
    requires i <= |outs|
    ensures |log| <= |r.log| && r.log[..|log|] == log
    ensures r.Completed? ==> r.code >= 0 && exists p :: i <= p < |outs| && outs[p] == Returned(r.code)
    ensures r.Reraised? ==> |r.log| > |log| && r.log[|r.log| - 1] >= MaxTries
    ensures r.Pending? ==> r.tries >= tries
    decreases |outs| - i
  {
    if i == |outs| then Pending(tries, log)
    else
      match outs[i]
      case Returned(c) =>
        if c >= 0 then Completed(c, log) else Loop(outs, i + 1, tries, log)
      case Raised =>
        var n := tries + 1;
        if n > MaxTries - 1 then Reraised(log + [n])
        else Loop(outs, i + 1, n, log + [n])
  }

  /** The loop as it starts: `num_tries = 0`, `ret = -1`, nothing logged. */
  function RunDesign(outs: seq<Attempt>): (r: Outcome)
    ensures r.log == AttemptLog(|r.log|)
    ensures r.Completed? ==> r.code >= 0 && Returned(r.code) in outs
    ensures r.Pending? ==> r.tries == |r.log|
  {
    LoopMeetsExpected(outs, 0, 0);
    assert AttemptLog(0) == [];
    Loop(outs, 0, 0, [])
  }

  /* ----------------------------------------------------------------------
     The outcome read off the attempts, without the loop
     ---------------------------------------------------------------------- */

  /** The attempt numbers 1, 2, ..., k. */
  function AttemptLog(k: nat): (r: seq<nat>)
    ensures |r| == k
    ensures forall i :: 0 <= i < k ==> r[i] == i + 1
  {
    seq(k, i => i + 1)
  }

  /** The index of the first attempt at or after `i` that exits, or `|outs|`
      if none does. */
  function ExitFrom(outs: seq<Attempt>, i: nat): (r: nat)
    requires i <= |outs|
    ensures i <= r <= |outs|
    ensures forall p :: i <= p < r ==> !Exits(outs[p])
    ensures r < |outs| ==> Exits(outs[r])
    decreases |outs| - i
  {
    if i == |outs| || Exits(outs[i]) then i else ExitFrom(outs, i + 1)
  }

  /** Number of raised attempts among `outs[i..j]`. */
  function RaisesIn(outs: seq<Attempt>, i: nat, j: nat): nat
    requires i <= j <= |outs|
    decreases j - i
  {
    if i == j then 0 else (if outs[i].Raised? then 1 else 0) + RaisesIn(outs, i + 1, j)
  }

  /** The first attempt that ends the loop normally, or `|outs|`. */
  function ExitPoint(outs: seq<Attempt>): nat {
    ExitFrom(outs, 0)
  }

  /** The exceptions raised before that attempt. */
  function Failures(outs: seq<Attempt>): nat {
    RaisesIn(outs, 0, ExitPoint(outs))
  }

  /** The outcome read off the attempts from `i` on, with `t` failures
      already counted: the failures before the first exit decide between a
      re-raise on the fifth failure, a normal exit, and a loop still
      running. */
  function Expected(outs: seq<Attempt>, i: nat, t: nat): Outcome
    requires i <= |outs|
  {
    var e := ExitFrom(outs, i);
    var n := t + RaisesIn(outs, i, e);
    if n >= MaxTries then Reraised(AttemptLog(MaxTries))
    else if e < |outs| then Completed(outs[e].code, AttemptLog(n))
    else Pending(n, AttemptLog(n))
  }

  lemma AttemptLogNext(k: nat)
    ensures AttemptLog(k) + [k + 1] == AttemptLog(k + 1)
  {
  }

  /** The loop computes the expected outcome from any count below the limit. */
  lemma {:induction false} LoopMeetsExpected(outs: seq<Attempt>, i: nat, t: nat)
    requires i <= |outs| && t < MaxTries
    ensures Loop(outs, i, t, AttemptLog(t)) == Expected(outs, i, t)
    decreases |outs| - i
  {
    if i < |outs| && !Exits(outs[i]) {
      match outs[i]
      case Returned(c) =>
        LoopMeetsExpected(outs, i + 1, t);
      case Raised =>
        AttemptLogNext(t);
        if t + 1 < MaxTries {
          LoopMeetsExpected(outs, i + 1, t + 1);
        }
    }
  }

  /** The retry loop, from its initial state, yields the expected outcome. */
  lemma RunDesignMeetsExpected(outs: seq<Attempt>)
    ensures RunDesign(outs) == Expected(outs, 0, 0)
  {
    LoopMeetsExpected(outs, 0, 0);
    assert AttemptLog(0) == [];
  }

  /* ----------------------------------------------------------------------
     The promised behaviour
     ---------------------------------------------------------------------- */

  /** Fewer than five failures before the first non-negative exit code: the
      loop exits normally with that code, having logged one message per
      failure, numbered 1, 2, .... */
  lemma ExitsAfterFewFailures(outs: seq<Attempt>)
    requires ExitPoint(outs) < |outs| && Failures(outs) < MaxTries
    ensures RunDesign(outs) == Completed(outs[ExitPoint(outs)].code, AttemptLog(Failures(outs)))
    ensures outs[ExitPoint(outs)].code >= 0
  {
    RunDesignMeetsExpected(outs);
  }

  /** A fifth failure before any non-negative exit code re-raises, after the
      messages for attempts 1 to 5. */
  lemma FifthFailureReraises(outs: seq<Attempt>)
    requires Failures(outs) >= MaxTries
    ensures RunDesign(outs) == Reraised([1, 2, 3, 4, 5])
  {
    RunDesignMeetsExpected(outs);
    assert AttemptLog(MaxTries) == [1, 2, 3, 4, 5];
  }

  /** The three outcomes, each characterised in both directions. */
  lemma OutcomeCases(outs: seq<Attempt>)
    ensures RunDesign(outs).Reraised? <==> Failures(outs) >= MaxTries
    ensures RunDesign(outs).Completed? <==> ExitPoint(outs) < |outs| && Failures(outs) < MaxTries
    ensures RunDesign(outs).Pending? <==> ExitPoint(outs) == |outs| && Failures(outs) < MaxTries
  {
    RunDesignMeetsExpected(outs);
  }

  /** A failed-attempt message is never logged more than five times. */
  lemma LogBounded(outs: seq<Attempt>)
    ensures |RunDesign(outs).log| <= MaxTries
  {
    RunDesignMeetsExpected(outs);
  }

  /* ----------------------------------------------------------------------
     Negative exit codes
     ---------------------------------------------------------------------- */

  /** Past an inserted attempt, the loop on the longer list runs in step
      with the loop on the shorter one, one index behind. */
  lemma {:induction false} LoopShifted(xs: seq<Attempt>, a: Attempt, ys: seq<Attempt>, j: nat, t: nat, log: seq<nat>)
    requires |xs| < j <= |xs| + 1 + |ys|
    ensures Loop(xs + [a] + ys, j, t, log) == Loop(xs + ys, j - 1, t, log)
    decreases |xs| + 1 + |ys| - j
  {
    var s := xs + [a] + ys;
    var s' := xs + ys;
    if j < |s| {
      assert s[j] == s'[j - 1];
      LoopShifted(xs, a, ys, j + 1, t, log);
      LoopShifted(xs, a, ys, j + 1, t + 1, log + [t + 1]);
    }
  }

  /** Before the inserted attempt both lists agree, so the loops agree up to
      it; at it, a negative exit code is passed over. */
  lemma {:induction false} LoopSkipsNegative(xs: seq<Attempt>, c: int, ys: seq<Attempt>, i: nat, t: nat, log: seq<nat>)
    requires c < 0 && i <= |xs|
    ensures Loop(xs + [Returned(c)] + ys, i, t, log) == Loop(xs + ys, i, t, log)
    decreases |xs| - i
  {
    var s := xs + [Returned(c)] + ys;
    var s' := xs + ys;
    if i == |xs| {
      assert s[i] == Returned(c);
      LoopShifted(xs, Returned(c), ys, i + 1, t, log);
    } else {
      assert s[i] == s'[i] == xs[i];
      LoopSkipsNegative(xs, c, ys, i + 1, t, log);
      LoopSkipsNegative(xs, c, ys, i + 1, t + 1, log + [t + 1]);
    }
  }

  /** Negative exit codes are not counted: inserting one anywhere changes
      nothing about how the loop ends or what it logs. */
  lemma NegativeReturnIgnored(xs: seq<Attempt>, c: int, ys: seq<Attempt>)
    requires c < 0
    ensures RunDesign(xs + [Returned(c)] + ys) == RunDesign(xs + ys)
  {
    LoopSkipsNegative(xs, c, ys, 0, 0, []);
  }
}
