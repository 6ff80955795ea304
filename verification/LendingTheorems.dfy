/** Conservation, share price, solvency and overflow bounds over whole runs of the lending model. */
module LendingTheorems {
  import opened Arithmetic
  import opened Scenario
  import opened Engine
  import opened Lending

  // ---- whatever the rounding ---------------------------------------------------------------

  /** The single user owns every share. */
  lemma {:induction false} SharesAreConserved(policy: Policy, p: Pool, ops: seq<Op>)
    requires p.userShares == p.shares
    ensures var q := Run(policy, p, ops); q.userShares == q.shares && Holds(ShareConservation, Observe(q))
  {
    if ops != [] {
      hide SharesFor, Wrap, Interest, SaturatingAdd, SaturatingSub;
      var op, was := ops[|ops| - 1], Run(policy, p, ops[..|ops| - 1]);
      SharesAreConserved(policy, p, ops[..|ops| - 1]);
      if op.Withdraw? && Accepted(policy, was, op) {
        WrapIsIdentity(was.shares - SharesFor(was, op.amount, policy.withdraw));
      }
    }
  }

  predicate Backed(p: Pool) {
    p.vault + p.borrows >= p.deposits
  }

  lemma StepKeepsBacking(policy: Policy, p: Pool, op: Op)
    requires Backed(p) && Fits(policy, p, op)
    ensures var q := Step(policy, p, op).0; Backed(q) && q.userBalance + q.vault >= p.userBalance + p.vault
  {
    hide Step, SharesFor, Fits, Interest, Wrap;
    RejectionChangesNothing(policy, p, op);
    if Accepted(policy, p, op) {
      StepIsExact(policy, p, op);
    }
  }

  /** Deposits stay backed, and what user and vault hold together never falls. */
  lemma {:induction false} BackingIsKept(policy: Policy, p: Pool, ops: seq<Op>)
    requires Backed(p) && RunFits(policy, p, ops)
    ensures var q := Run(policy, p, ops); Backed(q) && q.userBalance + q.vault >= p.userBalance + p.vault
  {
    if ops != [] {
      BackingIsKept(policy, p, ops[..|ops| - 1]);
      StepKeepsBacking(policy, Run(policy, p, ops[..|ops| - 1]), ops[|ops| - 1]);
    }
  }

  // ---- the price of a share, under every rounding ----------------------------------------------

  /** The single user owns every share, and shares are worth something. */
  predicate Priced(p: Pool) {
    p.userShares == p.shares && (p.shares > 0 ==> p.deposits > 0)
  }

  /** The exact share count is fractional. */
  predicate Inexact(p: Pool, amount: u128) {
    p.shares > 0 && p.deposits > 0 && Wrap(amount * p.shares) % p.deposits != 0
  }

  /** An accepted operation whose fractional share count is rounded in the user's favour. */
  predicate GivesAway(policy: Policy, p: Pool, op: Op) {
    match op
    case Deposit(_, amount) => amount <= p.userBalance && policy.deposit == Up && Inexact(p, amount)
    case Withdraw(_, amount) => Accepted(policy, p, op) && policy.withdraw == Down && Inexact(p, amount)
    case _ => false
  }

  /** A share of q is worth at least as much as one of p: deposits / shares, cross-multiplied. */
  predicate PriceHolds(p: Pool, q: Pool) {
    p.deposits * q.shares <= q.deposits * p.shares
  }

  /** Rounded quotients against the exact one. */
  lemma RoundedAgainstExact(n: u128, d: u128, rounding: Rounding)
    requires d > 0
    ensures var r := DivRound(n, d, rounding);
      && (r * d <= n <==> rounding == Down || n % d == 0)
      && (n <= r * d <==> rounding == Up || n % d == 0)
      && n < (r + 1) * d
  {
    QuotientBounds(n, d);
    DivRoundIsTight(n, d);
    var q := n / d;
    assert (q + 1) * d == q * d + d && (q + 2) * d == q * d + d + d;
  }

  lemma SharesAreRounded(p: Pool, amount: u128, rounding: Rounding)
    requires p.shares > 0 && p.deposits > 0 && ProductFits(p, amount)
    ensures SharesFor(p, amount, rounding) == DivRound(amount * p.shares, p.deposits, rounding)
    ensures Inexact(p, amount) <==> (amount * p.shares) % p.deposits != 0
  {
    WrapIsIdentity(amount * p.shares);
  }

  lemma LessThanAll(a: int, s: int, b: int, d: int)
    requires 0 < s && 0 <= d && b + 1 <= s && a * s < (b + 1) * d
    ensures a < d
  {
    MulMono(b + 1, s, d);
    assert s * d == d * s;
    if a >= d {
      MulMono(d, a, s);
    }
  }

  /** A withdrawal that leaves shares behind takes less than all deposits. */
  lemma PartialWithdrawal(policy: Policy, p: Pool, amount: u128)
    requires Priced(p) && ProductFits(p, amount) && SharesFor(p, amount, policy.withdraw) < p.shares
    ensures amount < p.deposits
  {
    hide SharesFor, DivRound, Inexact;
    SharesAreRounded(p, amount, policy.withdraw);
    RoundedAgainstExact(amount * p.shares, p.deposits, policy.withdraw);
    LessThanAll(amount, p.shares, SharesFor(p, amount, policy.withdraw), p.deposits);
  }

  lemma StepKeepsPriced(policy: Policy, p: Pool, op: Op)
    requires Priced(p) && Fits(policy, p, op)
    ensures Priced(Step(policy, p, op).0)
  {
    hide Step, Fits, Interest, Wrap;
    RejectionChangesNothing(policy, p, op);
    if Accepted(policy, p, op) {
      StepIsExact(policy, p, op);
      if op.Withdraw? && SharesFor(p, op.amount, policy.withdraw) < p.shares {
        PartialWithdrawal(policy, p, op.amount);
      }
    }
  }

  /** One step keeps the price of a share exactly when it does not round in the user's favour. */
  lemma StepKeepsPriceIff(policy: Policy, p: Pool, op: Op)
    requires Priced(p) && Fits(policy, p, op) && p.shares > 0 && Step(policy, p, op).0.shares > 0
    ensures PriceHolds(p, Step(policy, p, op).0) <==> !GivesAway(policy, p, op)
  {
    hide Step, Fits, Interest, Wrap, SharesFor;
    var q := Step(policy, p, op).0;
    RejectionChangesNothing(policy, p, op);
    if Accepted(policy, p, op) {
      StepIsExact(policy, p, op);
      match op
      case Deposit(_, amount) => MintedAgainstExact(policy, p, amount);
      case Withdraw(_, amount) =>
        PartialWithdrawal(policy, p, amount);
        BurnedAgainstExact(policy, p, amount);
      case Accrue(_) => MulMono(p.deposits, q.deposits, p.shares);
      case _ =>
    } else {
      assert op.Deposit? ==> !(op.amount <= p.userBalance) by {
        DepositAccepted(policy, p, op);
      }
    }
  }

  lemma DepositAccepted(policy: Policy, p: Pool, op: Op)
    ensures op.Deposit? ==> (Accepted(policy, p, op) <==> op.amount <= p.userBalance)
  {
  }

  lemma RatioHoldsIff(d: int, s: int, da: int, ds: int)
    ensures d * (s + ds) <= (d + da) * s <==> ds * d <= da * s
  {
    assert d * (s + ds) == d * s + ds * d;
    assert (d + da) * s == d * s + da * s;
  }

  lemma MintedAgainstExact(policy: Policy, p: Pool, amount: u128)
    requires p.shares > 0 && p.deposits > 0 && ProductFits(p, amount)
    ensures p.deposits * (p.shares + SharesFor(p, amount, policy.deposit)) <= (p.deposits + amount) * p.shares
      <==> policy.deposit == Down || !Inexact(p, amount)
  {
    hide SharesFor, Inexact, DivRound;
    SharesAreRounded(p, amount, policy.deposit);
    RoundedAgainstExact(amount * p.shares, p.deposits, policy.deposit);
    RatioHoldsIff(p.deposits, p.shares, amount, SharesFor(p, amount, policy.deposit));
  }

  lemma BurnedAgainstExact(policy: Policy, p: Pool, amount: u128)
    requires p.shares > 0 && p.deposits > 0 && ProductFits(p, amount)
    ensures p.deposits * (p.shares - SharesFor(p, amount, policy.withdraw)) <= (p.deposits - amount) * p.shares
      <==> policy.withdraw == Up || !Inexact(p, amount)
  {
    hide SharesFor, Inexact, DivRound;
    SharesAreRounded(p, amount, policy.withdraw);
    RoundedAgainstExact(amount * p.shares, p.deposits, policy.withdraw);
    var burned: int, taken: int := SharesFor(p, amount, policy.withdraw), amount;
    NegatedFactors(burned, p.deposits, taken, p.shares);
    RatioHoldsIff(p.deposits, p.shares, -taken, -burned);
    assert p.shares + -burned == p.shares - burned && p.deposits + -taken == p.deposits - taken;
  }

  lemma NegatedFactors(a: int, b: int, c: int, d: int)
    ensures (-a) * b <= (-c) * d <==> c * d <= a * b
  {
    assert (-a) * b == -(a * b) && (-c) * d == -(c * d);
  }

  /** The pool has shares outstanding at every point of the run. */
  predicate AlwaysShared(policy: Policy, p: Pool, ops: seq<Op>) {
    Run(policy, p, ops).shares > 0 && (ops == [] || AlwaysShared(policy, p, ops[..|ops| - 1]))
  }

  /** No operation of the run rounds in the user's favour. */
  predicate NothingGivenAway(policy: Policy, p: Pool, ops: seq<Op>) {
    forall i :: 0 <= i < |ops| ==> !GivesAway(policy, Run(policy, p, ops[..i]), ops[i])
  }

  predicate PriceHoldsAt(policy: Policy, p: Pool, ops: seq<Op>, i: nat)
    requires i < |ops|
  {
    PriceHolds(Run(policy, p, ops[..i]), Run(policy, p, ops[..i + 1]))
  }

  /** No step of the run lowers the price. */
  predicate PriceHoldsThroughout(policy: Policy, p: Pool, ops: seq<Op>) {
    forall i: nat :: i < |ops| ==> PriceHoldsAt(policy, p, ops, i)
  }

  lemma NothingGivenAwayByStep(policy: Policy, p: Pool, ops: seq<Op>)
    requires ops != []
    ensures NothingGivenAway(policy, p, ops)
      <==> (&& NothingGivenAway(policy, p, ops[..|ops| - 1])
            && !GivesAway(policy, Run(policy, p, ops[..|ops| - 1]), ops[|ops| - 1]))
  {
    hide Run, GivesAway;
    var n := |ops| - 1;
    forall i | 0 <= i < n
      ensures GivesAway(policy, Run(policy, p, ops[..n][..i]), ops[..n][i])
        == GivesAway(policy, Run(policy, p, ops[..i]), ops[i])
    {
      assert ops[..n][..i] == ops[..i];
    }
  }

  lemma PriceHoldsInPrefix(policy: Policy, p: Pool, ops: seq<Op>, n: nat, i: nat)
    requires i < n <= |ops|
    ensures PriceHoldsAt(policy, p, ops[..n], i) == PriceHoldsAt(policy, p, ops, i)
  {
    hide Run, PriceHolds;
    assert ops[..n][..i] == ops[..i] && ops[..n][..i + 1] == ops[..i + 1];
  }

  lemma PriceHoldsByStep(policy: Policy, p: Pool, ops: seq<Op>)
    requires ops != []
    ensures PriceHoldsThroughout(policy, p, ops)
      <==> (&& PriceHoldsThroughout(policy, p, ops[..|ops| - 1])
            && PriceHolds(Run(policy, p, ops[..|ops| - 1]), Run(policy, p, ops)))
  {
    hide Run, PriceHolds;
    var n := |ops| - 1;
    assert ops[..n + 1] == ops;
    assert PriceHoldsAt(policy, p, ops, n) == PriceHolds(Run(policy, p, ops[..n]), Run(policy, p, ops));
    hide PriceHoldsAt;
    forall i: nat | i < n
      ensures PriceHoldsAt(policy, p, ops[..n], i) == PriceHoldsAt(policy, p, ops, i)
    {
      PriceHoldsInPrefix(policy, p, ops, n, i);
    }
  }

  /**
   Over a run with shares outstanding throughout, whatever the rounding: no step lowers the
   price of a share if and only if none rounds in the user's favour, and then the price at
   the end is at least the price at the start.
   */
  lemma {:induction false} PriceNeverFallsIff(policy: Policy, p: Pool, ops: seq<Op>)
    requires Priced(p) && RunFits(policy, p, ops) && AlwaysShared(policy, p, ops)
    ensures Priced(Run(policy, p, ops)) && p.shares > 0
    ensures PriceHoldsThroughout(policy, p, ops) <==> NothingGivenAway(policy, p, ops)
    ensures NothingGivenAway(policy, p, ops) ==> PriceHolds(p, Run(policy, p, ops))
  {
    hide Step, GivesAway, PriceHolds;
    if ops == [] {
      SamePriceHolds(p);
    } else {
      hide NothingGivenAway, PriceHoldsThroughout, Priced, Fits;
      var n := |ops| - 1;
      PriceNeverFallsIff(policy, p, ops[..n]);
      var m := Run(policy, p, ops[..n]);
      StepKeepsPriced(policy, m, ops[n]);
      StepKeepsPriceIff(policy, m, ops[n]);
      NothingGivenAwayByStep(policy, p, ops);
      PriceHoldsByStep(policy, p, ops);
      if NothingGivenAway(policy, p, ops) {
        PricesCompose(p, m, Run(policy, p, ops));
      }
    }
  }

  lemma SamePriceHolds(p: Pool)
    ensures PriceHolds(p, p)
  {
  }

  lemma PricesCompose(p: Pool, m: Pool, q: Pool)
    requires PriceHolds(p, m) && PriceHolds(m, q) && m.shares > 0
    ensures PriceHolds(p, q)
  {
    RatiosCompose(p.deposits, p.shares, m.deposits, m.shares, q.deposits, q.shares);
  }

  // ---- the reference policy -----------------------------------------------------------------

  /** No more shares than deposits, all of them the user's. */
  predicate Healthy(p: Pool) {
    p.userShares == p.shares && p.shares <= p.deposits
  }

  /** A deposit mints at most the amount. */
  lemma MintBound(p: Pool, amount: u128)
    requires Healthy(p) && ProductFits(p, amount)
    ensures SharesFor(p, amount, Down) <= amount
    ensures SharesFor(p, amount, Down) * p.deposits <= amount * p.shares || p.shares == 0 || p.deposits == 0
  {
    if p.shares != 0 && p.deposits != 0 {
      var minted := SharesFor(p, amount, Down);
      DivRoundIsTight(amount * p.shares, p.deposits);
      MulMono(p.shares, p.deposits, amount);
      MulCancel(minted, amount, p.deposits);
    }
  }

  /** An accepted withdrawal never exceeds the deposits and burns at least its worth. */
  lemma BurnBound(p: Pool, amount: u128)
    requires Healthy(p) && ProductFits(p, amount) && SharesFor(p, amount, Up) <= p.userShares
    ensures amount <= p.deposits
    ensures amount * p.shares <= SharesFor(p, amount, Up) * p.deposits
    ensures p.shares - SharesFor(p, amount, Up) <= p.deposits - amount
  {
    if p.shares != 0 {
      DivRoundIsTight(amount * p.shares, p.deposits);
      BurnArithmetic(p.deposits, p.shares, amount, SharesFor(p, amount, Up));
    }
  }

  lemma BurnArithmetic(d: nat, s: nat, a: nat, b: nat)
    requires 0 < s <= d && b <= s && a * s <= b * d
    ensures a <= d && s - b <= d - a
  {
    MulMono(b, s, d);
    assert s * d == d * s;
    MulCancel(a, d, s);
    // (s - b) * d <= s * d - a * s == s * (d - a) <= d * (d - a)
    MulMono(s, d, d - a);
    assert (s - b) * d == s * d - b * d;
    assert s * (d - a) == s * d - a * s;
    assert d * (d - a) == (d - a) * d;
    MulCancel(s - b, d - a, d);
  }

  /** Shares never exceed deposits. */
  lemma ReferenceStep(p: Pool, op: Op)
    requires Healthy(p) && Fits(REFERENCE, p, op)
    ensures Healthy(Step(REFERENCE, p, op).0)
  {
    hide Step, SharesFor, Fits, Interest, Wrap;
    RejectionChangesNothing(REFERENCE, p, op);
    if Accepted(REFERENCE, p, op) {
      StepIsExact(REFERENCE, p, op);
      match op
      case Deposit(_, amount) => MintBound(p, amount);
      case Withdraw(_, amount) => BurnBound(p, amount);
      case _ =>
    }
  }

  lemma {:induction false} HealthIsKept(p: Pool, ops: seq<Op>)
    requires Healthy(p) && RunFits(REFERENCE, p, ops)
    ensures Healthy(Run(REFERENCE, p, ops))
  {
    if ops != [] {
      HealthIsKept(p, ops[..|ops| - 1]);
      ReferenceStep(Run(REFERENCE, p, ops[..|ops| - 1]), ops[|ops| - 1]);
    }
  }

  /** Share price never falls over a run segment in which shares stay outstanding. */
  lemma SharePriceNeverFalls(p: Pool, ops: seq<Op>)
    requires Healthy(p) && RunFits(REFERENCE, p, ops) && AlwaysShared(REFERENCE, p, ops)
    ensures var q := Run(REFERENCE, p, ops); p.deposits * q.shares <= q.deposits * p.shares
    ensures PriceHoldsThroughout(REFERENCE, p, ops)
  {
    hide Run, RunFits, AlwaysShared, Inexact;
    PriceNeverFallsIff(REFERENCE, p, ops);
    assert NothingGivenAway(REFERENCE, p, ops);
  }

  lemma RatiosCompose(d0: nat, s0: nat, d1: nat, s1: nat, d2: nat, s2: nat)
    requires d0 * s1 <= d1 * s0 && d1 * s2 <= d2 * s1 && s1 > 0
    ensures d0 * s2 <= d2 * s0
  {
    MulMono(d0 * s1, d1 * s0, s2);
    MulMono(d1 * s2, d2 * s1, s0);
    assert (d0 * s1) * s2 == (d0 * s2) * s1;
    assert (d1 * s0) * s2 == (d1 * s2) * s0;
    assert (d2 * s1) * s0 == (d2 * s0) * s1;
    MulCancel(d0 * s2, d2 * s0, s1);
  }

  /** Value put in and taken out by the accepted operations of a run. */
  function PutIn(p: Pool, ops: seq<Op>): nat {
    if ops == [] then 0
    else
      var op, before := ops[|ops| - 1], Run(REFERENCE, p, ops[..|ops| - 1]);
      PutIn(p, ops[..|ops| - 1]) + (if op.Deposit? && Accepted(REFERENCE, before, op) then op.amount else 0)
  }

  function TakenOut(p: Pool, ops: seq<Op>): nat {
    if ops == [] then 0
    else
      var op, before := ops[|ops| - 1], Run(REFERENCE, p, ops[..|ops| - 1]);
      TakenOut(p, ops[..|ops| - 1]) + (if op.Withdraw? && Accepted(REFERENCE, before, op) then op.amount else 0)
  }

  predicate OnlyDepositsAndWithdrawals(ops: seq<Op>) {
    forall op :: op in ops ==> op.Deposit? || op.Withdraw?
  }

  lemma {:induction false} DepositsAreFlows(p: Pool, ops: seq<Op>)
    requires Healthy(p) && RunFits(REFERENCE, p, ops) && OnlyDepositsAndWithdrawals(ops)
    ensures Run(REFERENCE, p, ops).deposits == p.deposits + PutIn(p, ops) - TakenOut(p, ops)
  {
    hide Step, SharesFor, Fits, Interest, Wrap;
    if ops != [] {
      var n := |ops| - 1;
      DepositsAreFlows(p, ops[..n]);
      HealthIsKept(p, ops[..n]);
      var m, op := Run(REFERENCE, p, ops[..n]), ops[n];
      assert op in ops;
      RejectionChangesNothing(REFERENCE, m, op);
      if Accepted(REFERENCE, m, op) {
        StepIsExact(REFERENCE, m, op);
      }
      if op.Withdraw? && Accepted(REFERENCE, m, op) {
        BurnBound(m, op.amount);
      }
    }
  }

  /** No free money: ending with at least the starting shares means having withdrawn no more than was deposited. */
  lemma NoFreeMoneyInTheReference(p: Pool, ops: seq<Op>)
    requires Healthy(p) && RunFits(REFERENCE, p, ops) && AlwaysShared(REFERENCE, p, ops)
    requires OnlyDepositsAndWithdrawals(ops)
    requires Run(REFERENCE, p, ops).shares >= p.shares
    ensures TakenOut(p, ops) <= PutIn(p, ops)
  {
    var q := Run(REFERENCE, p, ops);
    SharePriceNeverFalls(p, ops);
    PriceNeverFallsIff(REFERENCE, p, ops);
    DepositsAreFlows(p, ops);
    MulMono(p.shares, q.shares, p.deposits);
    assert q.shares * p.deposits == p.deposits * q.shares;
    MulCancel(p.deposits, q.deposits, p.shares);
  }

  lemma RunOneMore(policy: Policy, p: Pool, ops: seq<Op>, op: Op)
    ensures Run(policy, p, ops + [op]) == Step(policy, Run(policy, p, ops), op).0
  {
    hide Step;
    assert (ops + [op])[..|ops|] == ops;
  }

  lemma NoOperations(policy: Policy, p: Pool)
    ensures Run(policy, p, []) == p
  {
  }

  /** A user with 10 units deposits 1, borrows it, and 2 units of interest accrue. */
  const ACCRUED_START := Pool(0, 0, 0, 0, 0, 10, 1, 10_000)
  const ACCRUED_OPS := [Deposit("user", 1)] + [Borrow("user", 1)] + [Accrue(2)]

  lemma AccruedPool()
    ensures Run(FLOOR_CANDIDATE, ACCRUED_START, ACCRUED_OPS) == Pool(3, 3, 1, 0, 1, 10, 1, 10_000)
  {
    hide Run, Step;
    NoOperations(FLOOR_CANDIDATE, ACCRUED_START);
    assert [] + [Deposit("user", 1)] == [Deposit("user", 1)];
    RunOneMore(FLOOR_CANDIDATE, ACCRUED_START, [], Deposit("user", 1));
    RunOneMore(FLOOR_CANDIDATE, ACCRUED_START, [Deposit("user", 1)], Borrow("user", 1));
    RunOneMore(FLOOR_CANDIDATE, ACCRUED_START, [Deposit("user", 1)] + [Borrow("user", 1)], Accrue(2));
    DepositStep();
    BorrowStep();
    AccrueStep();
  }

  lemma DepositStep()
    ensures Step(FLOOR_CANDIDATE, ACCRUED_START, Deposit("user", 1)).0 == Pool(1, 0, 1, 1, 1, 9, 1, 10_000)
  {
    hide Interest, DivRound, SaturatingSub;
  }

  lemma BorrowStep()
    ensures Step(FLOOR_CANDIDATE, Pool(1, 0, 1, 1, 1, 9, 1, 10_000), Borrow("user", 1)).0 == Pool(1, 1, 1, 0, 1, 10, 1, 10_000)
  {
    hide Interest, SharesFor, SaturatingSub;
  }

  lemma AccrueStep()
    ensures Step(FLOOR_CANDIDATE, Pool(1, 1, 1, 0, 1, 10, 1, 10_000), Accrue(2)).0 == Pool(3, 3, 1, 0, 1, 10, 1, 10_000)
  {
    hide SharesFor, Wrap, SaturatingSub;
    assert Interest(Pool(1, 1, 1, 0, 1, 10, 1, 10_000), 2) == 2;
  }

  /** The floor candidate gives money away: after a run from the start, a withdrawal that burns no share. */
  lemma FloorCandidateGivesMoneyAway()
    ensures ACCRUED_START == Start(1, 10_000, [AccountSpec(User, "user", 10)])
    ensures var p := Run(FLOOR_CANDIDATE, ACCRUED_START, ACCRUED_OPS);
      var q := Step(FLOOR_CANDIDATE, p, Withdraw("user", 2)).0;
      && q.shares == p.shares && q.userShares == p.userShares
      && q.deposits < p.deposits && q.userBalance > p.userBalance
  {
    hide Run;
    AccruedPool();
    WrapIsIdentity(2);
    assert SharesFor(Pool(3, 3, 1, 0, 1, 10, 1, 10_000), 2, Down) == 0;
  }

  // ---- solvency ------------------------------------------------------------------------------

  /** How far an accepted withdrawal of the last operation overdraws the vault. */
  function OverdrawnBy(p: Pool, op: Op): nat {
    if op.Withdraw? && Accepted(REFERENCE, p, op) && op.amount > p.vault then op.amount - p.vault else 0
  }

  function Overdrawn(p: Pool, ops: seq<Op>): nat {
    if ops == [] then 0
    else Overdrawn(p, ops[..|ops| - 1]) + OverdrawnBy(Run(REFERENCE, p, ops[..|ops| - 1]), ops[|ops| - 1])
  }

  /** No accrual of the run reaches the u128 ceiling. */
  predicate AccrualUnsaturated(p: Pool, ops: seq<Op>) {
    ops == []
    || (&& AccrualUnsaturated(p, ops[..|ops| - 1])
        && var m, op := Run(REFERENCE, p, ops[..|ops| - 1]), ops[|ops| - 1];
           op.Accrue? ==>
             && m.deposits + Interest(m, op.seconds) < U128_LIMIT
             && m.borrows + Interest(m, op.seconds) < U128_LIMIT)
  }

  /** vault + borrows - deposits is exactly what withdrawals have overdrawn. */
  lemma {:induction false} SurplusIsOverdraft(p: Pool, ops: seq<Op>)
    requires Healthy(p) && RunFits(REFERENCE, p, ops) && AccrualUnsaturated(p, ops)
    ensures var q := Run(REFERENCE, p, ops);
      q.vault + q.borrows - q.deposits == p.vault + p.borrows - p.deposits + Overdrawn(p, ops)
  {
    hide Step, SharesFor, Fits, Interest, Wrap;
    if ops != [] {
      var n := |ops| - 1;
      SurplusIsOverdraft(p, ops[..n]);
      HealthIsKept(p, ops[..n]);
      var m, op := Run(REFERENCE, p, ops[..n]), ops[n];
      RejectionChangesNothing(REFERENCE, m, op);
      if Accepted(REFERENCE, m, op) {
        StepIsExact(REFERENCE, m, op);
      }
      if op.Withdraw? && Accepted(REFERENCE, m, op) {
        BurnBound(m, op.amount);
      }
    }
  }

  predicate SmallEnoughToObserve(p: Pool) {
    p.deposits < U64_LIMIT && p.borrows < U64_LIMIT && p.shares < U64_LIMIT && p.vault < U64_LIMIT
  }

  /**
   Solvency is conditional: a run from the start is solvent exactly when the vault still
   covers everything ever overdrawn; vault backing is never reported broken.
   */
  lemma SolventIffOverdraftCovered(price: u64, rate: u64, accounts: seq<AccountSpec>, ops: seq<Op>)
    requires var p := Start(price, rate, accounts); RunFits(REFERENCE, p, ops) && AccrualUnsaturated(p, ops)
    ensures var p := Start(price, rate, accounts);
      var q := Run(REFERENCE, p, ops);
      && (q.deposits >= q.borrows <==> Overdrawn(p, ops) <= q.vault)
      && (SmallEnoughToObserve(q) ==>
            && (Holds(Solvency, Observe(q)) <==> Overdrawn(p, ops) <= q.vault)
            && Holds(VaultBacking, Observe(q)))
  {
    hide Run, RunFits, AccrualUnsaturated, Overdrawn;
    SurplusIsOverdraft(Start(price, rate, accounts), ops);
  }

  /** Withdraw does not check liquidity: deposit 10, borrow 10, withdraw 5 ends insolvent. */
  lemma OverdraftCanMakeInsolvent()
    ensures var p := Start(1, 0, [AccountSpec(User, "user", 10)]);
      var q := Run(REFERENCE, p, [Deposit("user", 10)] + [Borrow("user", 10)]);
      && Holds(Solvency, Observe(q)) && Accepted(REFERENCE, q, Withdraw("user", 5))
      && !Holds(Solvency, Observe(Step(REFERENCE, q, Withdraw("user", 5)).0))
  {
    hide Run;
    var p := Start(1, 0, [AccountSpec(User, "user", 10)]);
    assert p == Pool(0, 0, 0, 0, 0, 10, 1, 0);
    NoOperations(REFERENCE, p);
    assert [] + [Deposit("user", 10)] == [Deposit("user", 10)];
    RunOneMore(REFERENCE, p, [], Deposit("user", 10));
    RunOneMore(REFERENCE, p, [Deposit("user", 10)], Borrow("user", 10));
    var q := Pool(10, 10, 10, 0, 10, 10, 1, 0);
    WrapIsIdentity(50);
    assert SharesFor(q, 5, Up) == 5;
  }

  // ---- overflow ---------------------------------------------------------------------------------

  predicate AmountsAtMost(ops: seq<Op>, m: nat) {
    forall op :: op in ops && (op.Deposit? || op.Withdraw? || op.Borrow? || op.Repay?) ==> op.amount <= m
  }

  function DepositCount(ops: seq<Op>): nat {
    if ops == [] then 0 else DepositCount(ops[..|ops| - 1]) + (if ops[|ops| - 1].Deposit? then 1 else 0)
  }

  /** The additions of a reference step do not wrap. */
  predicate AddsFit(p: Pool, op: Op) {
    match op
    case Deposit(_, amount) =>
      amount <= p.userBalance ==> p.deposits + amount < U128_LIMIT && p.vault + amount < U128_LIMIT
    case Withdraw(_, amount) => Accepted(REFERENCE, p, op) ==> p.userBalance + amount < U128_LIMIT
    case Borrow(_, amount) =>
      amount <= p.vault ==> p.borrows + amount < U128_LIMIT && p.userBalance + amount < U128_LIMIT
    case Repay(_, amount) => p.vault + Min(amount, p.borrows) < U128_LIMIT
    case _ => true
  }

  predicate RunAddsFit(p: Pool, ops: seq<Op>) {
    ops == [] || (RunAddsFit(p, ops[..|ops| - 1]) && AddsFit(Run(REFERENCE, p, ops[..|ops| - 1]), ops[|ops| - 1]))
  }

  /** In a healthy pool where the product of amount and shares fits, a step fits exactly when its additions do. */
  lemma FitsByParts(p: Pool, op: Op)
    requires Healthy(p) && (op.Deposit? || op.Withdraw? ==> ProductFits(p, op.amount))
    ensures Fits(REFERENCE, p, op) <==> AddsFit(p, op)
  {
    hide SharesFor, Wrap, SaturatingSub;
    if op.Deposit? {
      MintBound(p, op.amount);
    }
  }

  lemma BoundedProduct(shares: nat, amount: nat, limit: nat, m: nat)
    requires shares <= limit && amount <= m && limit * m < U128_LIMIT
    ensures amount * shares < U128_LIMIT
  {
    MulMono(amount, m, shares);
    MulMono(shares, limit, m);
    assert m * shares == shares * m;
  }

  lemma MoreDepositsLargerBound(shares: nat, k: nat, n: nat, m: nat)
    requires k <= n <= k + 1
    ensures shares + k * m <= shares + n * m && (shares + k * m) * m <= (shares + n * m) * m
    ensures n == k + 1 ==> n * m == k * m + m
  {
    MulMono(k, n, m);
    MulMono(shares + k * m, shares + n * m, m);
    assert (k + 1) * m == k * m + m;
  }

  /**
   Shares grow by at most the largest amount per deposit, accrual included; so the product of
   an amount and the shares never wraps when that bound times the largest amount is below
   2^128, however many other operations the run has: nothing wraps if and only if no addition does.
   */
  lemma {:induction false} ProductsNeverWrap(p: Pool, ops: seq<Op>, m: nat)
    requires Healthy(p) && AmountsAtMost(ops, m)
    requires (p.shares + DepositCount(ops) * m) * m < U128_LIMIT
    ensures RunFits(REFERENCE, p, ops) <==> RunAddsFit(p, ops)
    ensures RunAddsFit(p, ops) ==> Run(REFERENCE, p, ops).shares <= p.shares + DepositCount(ops) * m
  {
    hide Step, SharesFor, Fits, Interest, Wrap, AddsFit;
    if ops != [] {
      var k := |ops| - 1;
      var op, q := ops[k], Run(REFERENCE, p, ops[..k]);
      assert op in ops;
      MoreDepositsLargerBound(p.shares, DepositCount(ops[..k]), DepositCount(ops), m);
      ProductsNeverWrap(p, ops[..k], m);
      if RunAddsFit(p, ops[..k]) {
        HealthIsKept(p, ops[..k]);
        if op.Deposit? || op.Withdraw? {
          BoundedProduct(q.shares, op.amount, p.shares + DepositCount(ops[..k]) * m, m);
        }
        FitsByParts(q, op);
        if AddsFit(q, op) {
          GrowsByMinting(q, op, m);
        }
      }
    }
  }

  lemma GrowsByMinting(q: Pool, op: Op, m: nat)
    requires Healthy(q) && (op.Deposit? ==> op.amount <= m) && Fits(REFERENCE, q, op)
    ensures Step(REFERENCE, q, op).0.shares <= q.shares + (if op.Deposit? then m else 0)
  {
    hide Step, SharesFor, Fits, Interest, Wrap;
    RejectionChangesNothing(REFERENCE, q, op);
    if Accepted(REFERENCE, q, op) {
      StepIsExact(REFERENCE, q, op);
      if op.Deposit? {
        MintBound(q, op.amount);
      }
    }
  }

  predicate WithoutAccrual(ops: seq<Op>) {
    forall op :: op in ops ==> !op.Accrue?
  }

  predicate Bounded(p: Pool, limit: int, userLimit: int) {
    && p.deposits <= limit && p.borrows <= limit && p.vault <= limit
    && p.userBalance <= userLimit
  }

  lemma StartIsHealthy(price: u64, rate: u64, accounts: seq<AccountSpec>)
    ensures Healthy(Start(price, rate, accounts)) && Backed(Start(price, rate, accounts))
    ensures Bounded(Start(price, rate, accounts), 0, StartingBalance(accounts)) && Start(price, rate, accounts).shares == 0
  {
  }

  lemma BoundedStep(p: Pool, op: Op, limit: nat, userLimit: nat, m: nat)
    requires Bounded(p, limit, userLimit) && !op.Accrue? && AmountsAtMost([op], m)
    requires limit + m < U128_LIMIT && userLimit + m < U128_LIMIT
    ensures AddsFit(p, op)
    ensures Fits(REFERENCE, p, op) ==> Bounded(Step(REFERENCE, p, op).0, limit + m, userLimit + m)
  {
    hide SharesFor, Interest, Wrap, Step, Fits;
    assert op in [op];
    RejectionChangesNothing(REFERENCE, p, op);
    if Accepted(REFERENCE, p, op) && Fits(REFERENCE, p, op) {
      StepIsExact(REFERENCE, p, op);
    }
  }

  lemma OneMoreAmount(k: nat, m: nat)
    ensures (k + 1) * m == k * m + m
  {
  }

  /**
   Without accrual the additions are bounded as well: from the start of a scenario, with
   amounts at most m, nothing wraps when the number of deposits times m * m and the
   starting balance plus m per operation stay below 2^128.
   */
  lemma {:induction false} ShortRunsFit(price: u64, rate: u64, accounts: seq<AccountSpec>, ops: seq<Op>, m: nat)
    requires AmountsAtMost(ops, m) && WithoutAccrual(ops)
    requires DepositCount(ops) * m * m < U128_LIMIT && StartingBalance(accounts) + |ops| * m < U128_LIMIT
    ensures var p := Start(price, rate, accounts);
      && RunAddsFit(p, ops) && RunFits(REFERENCE, p, ops)
      && Bounded(Run(REFERENCE, p, ops), |ops| * m, StartingBalance(accounts) + |ops| * m)
  {
    hide Step, Fits, Healthy, AddsFit, Bounded, Start;
    var p := Start(price, rate, accounts);
    StartIsHealthy(price, rate, accounts);
    assert 0 * m == 0;
    if ops != [] {
      var k := |ops| - 1;
      var before := ops[..k];
      MoreDepositsLargerBound(0, DepositCount(before), DepositCount(ops), m);
      OneMoreAmount(k, m);
      ShortRunsFit(price, rate, accounts, before, m);
      assert AmountsAtMost([ops[k]], m) by {
        assert ops[k] in ops;
      }
      BoundedStep(Run(REFERENCE, p, before), ops[k], k * m, StartingBalance(accounts) + k * m, m);
      ProductsNeverWrap(p, ops, m);
    }
  }
}
