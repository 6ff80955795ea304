/**
 The engine against the bug it was built for: lending models that round differently. The first
 reported divergence is the first operation on which rounding bites, and for a candidate against the
 reference it is the first step that gives money away.
 */
module RoundingTheorems {
  import opened Wrappers
  import opened Arithmetic
  import opened Scenario
  import opened Engine
  import opened EngineTheorems
  import opened Lending
  import opened LendingTheorems

  /**
   An operation whose exact share count is fractional, which the two policies round
   differently, and which at least the side that rounds down accepts.
   */
  predicate RoundingBites(e: Policy, a: Policy, p: Pool, op: Op) {
    match op
    case Deposit(_, amount) => e.deposit != a.deposit && Inexact(p, amount) && amount <= p.userBalance
    case Withdraw(_, amount) =>
      e.withdraw != a.withdraw && Inexact(p, amount) && Wrap(amount * p.shares) / p.deposits <= p.userShares
    case _ => false
  }

  lemma WithoutABiteTheStepsCoincide(e: Policy, a: Policy, p: Pool, op: Op)
    requires !RoundingBites(e, a, p, op)
    ensures Step(e, p, op) == Step(a, p, op)
  {
    if (op.Deposit? || op.Withdraw?) && p.shares > 0 && p.deposits > 0 {
      QuotientBounds(Wrap(op.amount * p.shares), p.deposits);
    }
  }

  lemma ConsecutiveCountsLookDifferent(x: nat)
    ensures x % U64_LIMIT != (x + 1) % U64_LIMIT
  {
  }

  lemma WrappedCountsLookTheSame(x: int)
    ensures Wrap(x) % U64_LIMIT == x % U64_LIMIT
  {
    var q := x / U128_LIMIT;
    assert x == Wrap(x) + U64_LIMIT * (U64_LIMIT * q);
    SameRemainder(Wrap(x), U64_LIMIT * q);
  }

  lemma SameRemainder(r: int, k: int)
    ensures (r + U64_LIMIT * k) % U64_LIMIT == r % U64_LIMIT
  {
  }

  /** Where rounding bites, the two counts differ by one. */
  lemma BittenCounts(p: Pool, amount: u128)
    requires Inexact(p, amount)
    ensures SharesFor(p, amount, Up) == SharesFor(p, amount, Down) + 1
    ensures SharesFor(p, amount, Down) == Wrap(amount * p.shares) / p.deposits
  {
  }

  /** A bite is visible, although observations are truncated to 64 bits. */
  lemma ABiteShows(e: Policy, a: Policy, p: Pool, op: Op)
    requires RoundingBites(e, a, p, op)
    ensures Round(op, ReplyTo(Code(e), p, op), ReplyTo(Code(a), p, op)).Disagrees()
  {
    hide SharesFor, Wrap, Inexact, Interest;
    BittenCounts(p, op.amount);
    var low := SharesFor(p, op.amount, Down);
    var x, y := Step(e, p, op), Step(a, p, op);
    if op.Deposit? {
      WrappedCountsLookTheSame(p.userShares + low);
      WrappedCountsLookTheSame(p.userShares + low + 1);
      ConsecutiveCountsLookDifferent(p.userShares + low);
      assert Observe(x.0).userShares != Observe(y.0).userShares;
    } else if low + 1 <= p.userShares {
      ConsecutiveCountsLookDifferent(p.userShares - low - 1);
      assert Observe(x.0).userShares != Observe(y.0).userShares;
    }
  }

  /** `first` is the first operation of the run on which rounding bites. */
  ghost predicate IsFirstBite(first: Option<nat>, e: Policy, a: Policy, p: Pool, ops: seq<Op>) {
    match first
    case Some(i) =>
      && i < |ops| && RoundingBites(e, a, Run(e, p, ops[..i]), ops[i])
      && forall j :: 0 <= j < i ==> !RoundingBites(e, a, Run(e, p, ops[..j]), ops[j])
    case None => forall j :: 0 <= j < |ops| ==> !RoundingBites(e, a, Run(e, p, ops[..j]), ops[j])
  }

  lemma {:induction false} TogetherUntilTheBite(e: Policy, a: Policy, p: Pool, ops: seq<Op>, i: nat)
    requires i <= |ops| && forall j :: 0 <= j < i ==> !RoundingBites(e, a, Run(e, p, ops[..j]), ops[j])
    ensures Run(e, p, ops[..i]) == Run(a, p, ops[..i])
  {
    hide RoundingBites, Step;
    if i > 0 {
      TogetherUntilTheBite(e, a, p, ops, i - 1);
      assert ops[..i][..i - 1] == ops[..i - 1];
      WithoutABiteTheStepsCoincide(e, a, Run(e, p, ops[..i - 1]), ops[i - 1]);
    }
  }

  /**
   For any two roundings: the report's first divergence is the first bite, on a deposit or a
   withdrawal; until then both models are in the same state, and a run on which rounding
   never bites reports no divergence.
   */
  lemma FirstDivergenceIsFirstBite(e: Policy, a: Policy, p: Pool, t: Terms, ops: seq<Op>)
    ensures
      var rounds := Rounds(Code(e), p, Code(a), p, ops);
      var first := ReportOf(OnExamined, t, (Observe(p), Observe(p)), rounds).firstDivergence;
      && IsFirstBite(first, e, a, p, ops)
      && forall i :: 0 <= i <= (if first.Some? then first.value else |ops|) ==>
           Run(e, p, ops[..i]) == Run(a, p, ops[..i])
  {
    hide RoundingBites, Observe, BaselineAfter, Divergences, Violations, AgreedErrors;
    var rounds := Rounds(Code(e), p, Code(a), p, ops);
    var first := FirstIndex(Divergences(OnExamined, (Observe(p), Observe(p)), rounds));
    CompareReportsTheFirstDisagreement(Code(e), p, Code(a), p, t, ops);
    var n := if first.Some? then first.value else |ops|;
    TogetherBefore(e, a, p, ops, n);
    if first.Some? {
      ADisagreementIsABite(e, a, p, ops, n);
    }
  }

  lemma TogetherBefore(e: Policy, a: Policy, p: Pool, ops: seq<Op>, n: nat)
    requires n <= |ops|
    requires forall j :: 0 <= j < n ==> !RoundAt(Code(e), p, Code(a), p, ops, j).Disagrees()
    ensures forall j :: 0 <= j < n ==> !RoundingBites(e, a, Run(e, p, ops[..j]), ops[j])
    ensures forall i :: 0 <= i <= n ==> Run(e, p, ops[..i]) == Run(a, p, ops[..i])
  {
    hide RoundingBites, Run, RoundAt;
    forall i: nat | i < n
      ensures !RoundingBites(e, a, Run(e, p, ops[..i]), ops[i])
    {
      NoBiteBefore(e, a, p, ops, n, i);
    }
    forall i: nat | i <= n
      ensures Run(e, p, ops[..i]) == Run(a, p, ops[..i])
    {
      TogetherUntilTheBite(e, a, p, ops, i);
    }
  }

  lemma ADisagreementIsABite(e: Policy, a: Policy, p: Pool, ops: seq<Op>, n: nat)
    requires n < |ops| && Run(e, p, ops[..n]) == Run(a, p, ops[..n])
    ensures RoundAt(Code(e), p, Code(a), p, ops, n).Disagrees()
      ==> RoundingBites(e, a, Run(e, p, ops[..n]), ops[n])
  {
    hide RoundingBites, Step, Observe;
    RoundInTermsOfRuns(e, a, p, ops, n);
    if !RoundingBites(e, a, Run(e, p, ops[..n]), ops[n]) {
      WithoutABiteTheStepsCoincide(e, a, Run(e, p, ops[..n]), ops[n]);
    }
  }

  lemma RoundInTermsOfRuns(e: Policy, a: Policy, p: Pool, ops: seq<Op>, i: nat)
    requires i < |ops|
    ensures RoundAt(Code(e), p, Code(a), p, ops, i)
      == Round(ops[i], ReplyTo(Code(e), Run(e, p, ops[..i]), ops[i]), ReplyTo(Code(a), Run(a, p, ops[..i]), ops[i]))
  {
    RunIsAfter(e, p, ops[..i]);
    RunIsAfter(a, p, ops[..i]);
  }

  lemma {:induction false} NoBiteBefore(e: Policy, a: Policy, p: Pool, ops: seq<Op>, n: nat, i: nat)
    requires i < n <= |ops|
    requires forall j :: 0 <= j < n ==> !RoundAt(Code(e), p, Code(a), p, ops, j).Disagrees()
    ensures !RoundingBites(e, a, Run(e, p, ops[..i]), ops[i])
  {
    hide RoundingBites, Step;
    forall j | 0 <= j < i
      ensures !RoundingBites(e, a, Run(e, p, ops[..j]), ops[j])
    {
      NoBiteBefore(e, a, p, ops, n, j);
    }
    TogetherUntilTheBite(e, a, p, ops, i);
    RoundInTermsOfRuns(e, a, p, ops, i);
    if RoundingBites(e, a, Run(e, p, ops[..i]), ops[i]) {
      ABiteShows(e, a, Run(e, p, ops[..i]), ops[i]);
    }
  }

  /** Against the reference, rounding bites exactly where the candidate gives money away, whatever it rounds. */
  lemma BitesGiveAway(a: Policy, p: Pool, op: Op)
    ensures RoundingBites(REFERENCE, a, p, op) <==> GivesAway(a, p, op)
  {
    if op.Withdraw? && Inexact(p, op.amount) {
      hide Wrap, Inexact;
      BittenCounts(p, op.amount);
    }
  }

  /**
   What the engine finds and what the economics lose are the same: over a run of any candidate
   with shares outstanding throughout, the comparison with the reference reports a divergence
   if and only if some step of the candidate lowers the price of a share.
   */
  lemma NoDivergenceIffPriceNeverFalls(a: Policy, p: Pool, t: Terms, ops: seq<Op>)
    requires Priced(p) && RunFits(a, p, ops) && AlwaysShared(a, p, ops)
    ensures
      var rounds := Rounds(Code(REFERENCE), p, Code(a), p, ops);
      ReportOf(OnExamined, t, (Observe(p), Observe(p)), rounds).firstDivergence.None?
      <==> PriceHoldsThroughout(a, p, ops)
  {
    hide GivesAway, RoundingBites, Run, Observe, BaselineAfter, Divergences, Violations, AgreedErrors, PriceHoldsThroughout;
    var rounds := Rounds(Code(REFERENCE), p, Code(a), p, ops);
    var first := ReportOf(OnExamined, t, (Observe(p), Observe(p)), rounds).firstDivergence;
    FirstDivergenceIsFirstBite(REFERENCE, a, p, t, ops);
    PriceNeverFallsIff(a, p, ops);
    if first.Some? {
      BitesGiveAway(a, Run(REFERENCE, p, ops[..first.value]), ops[first.value]);
    } else {
      forall i | 0 <= i < |ops|
        ensures !GivesAway(a, Run(a, p, ops[..i]), ops[i])
      {
        BitesGiveAway(a, Run(REFERENCE, p, ops[..i]), ops[i]);
      }
    }
  }

  /** Both kinds of lending model qualify for the trace comparison: a rejection changes nothing. */
  lemma {:induction false} LendingRejectionsChangeNothing(e: Policy, a: Policy, p: Pool, q: Pool, ops: seq<Op>)
    ensures RejectionsChangeNothing((Observe(p), Observe(q)), Rounds(Code(e), p, Code(a), q, ops))
  {
    hide Step;
    var rounds := Rounds(Code(e), p, Code(a), q, ops);
    if ops != [] {
      var n := |ops| - 1;
      LendingRejectionsChangeNothing(e, a, p, q, ops[..n]);
      RoundsOfPrefix(Code(e), p, Code(a), q, ops, n);
      BaselineIsObserved(e, a, p, q, ops[..n]);
      RunIsAfter(e, p, ops[..n]);
      RunIsAfter(a, q, ops[..n]);
      RejectionChangesNothing(e, Run(e, p, ops[..n]), ops[n]);
      RejectionChangesNothing(a, Run(a, q, ops[..n]), ops[n]);
    }
  }

  lemma BaselineIsObserved(e: Policy, a: Policy, p: Pool, q: Pool, ops: seq<Op>)
    ensures BaselineAfter(Always, (Observe(p), Observe(q)), Rounds(Code(e), p, Code(a), q, ops))
         == (Observe(Run(e, p, ops)), Observe(Run(a, q, ops)))
  {
    hide Step;
    if ops != [] {
      RunIsAfter(e, p, ops[..|ops| - 1]);
      RunIsAfter(a, q, ops[..|ops| - 1]);
    }
  }

  /** Across the engine, the model and the checks: comparing two lending models never reports share_conservation. */
  lemma ShareConservationIsNeverReported(e: Policy, a: Policy, p: Pool, q: Pool, t: Terms, ops: seq<Op>)
    requires p.userShares == p.shares && q.userShares == q.shares
    ensures forall v :: v in Violations(t, Rounds(Code(e), p, Code(a), q, ops)) ==> v.broken != ShareConservation
  {
    hide Step, Observe, Holds;
    forall v | v in Violations(t, Rounds(Code(e), p, Code(a), q, ops))
      ensures v.broken != ShareConservation
    {
      ViolationsAreExact(t, Rounds(Code(e), p, Code(a), q, ops), v);
      ReplyConservesShares(e, p, ops, v.opIndex);
      ReplyConservesShares(a, q, ops, v.opIndex);
    }
  }

  lemma ReplyConservesShares(policy: Policy, p: Pool, ops: seq<Op>, i: nat)
    requires p.userShares == p.shares && i < |ops|
    ensures Holds(ShareConservation, ReplyTo(Code(policy), After(Code(policy), p, ops[..i]), ops[i]).obs)
  {
    hide Step;
    assert ops[..i + 1][..i] == ops[..i];
    RunIsAfter(policy, p, ops[..i]);
    SharesAreConserved(policy, p, ops[..i + 1]);
  }
}
