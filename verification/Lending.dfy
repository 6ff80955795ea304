/**
 The lending reference model: u128 share accounting with explicit rounding.

 Unchecked `+`, `-` and `*` are modelled as they behave in a release build (wrapping,
 Wrap); Fits says that no operation of a step wraps, so that a build with overflow
 checks behaves the same.
 */
module Lending {
  import opened Scenario
  import opened Engine
  import opened Arithmetic

  datatype Rounding = Down | Up

  /** How shares are rounded when burned on withdraw and when minted on deposit. */
  datatype Policy = Policy(withdraw: Rounding, deposit: Rounding)

  const REFERENCE := Policy(Up, Down)
  const FLOOR_CANDIDATE := Policy(Down, Down)

  datatype Pool = Pool(
    deposits: u128, borrows: u128, shares: u128, vault: u128,
    userShares: u128, userBalance: u128, price: u64, rate: u64)

  function Wrap(x: int): u128 {
    x % U128_LIMIT
  }

  lemma WrapIsIdentity(x: u128)
    ensures Wrap(x) == x
  {
  }

  function SaturatingSub(a: u128, b: u128): (r: u128)
    ensures r >= a - b && (r == 0 || r == a - b)
  {
    if a >= b then a - b else 0
  }

  function SaturatingMul(a: u128, b: u128): u128 {
    if a * b < U128_LIMIT && a * b >= 0 then a * b else U128_LIMIT - 1
  }

  function Min(a: u128, b: u128): (r: u128)
    ensures r <= a && r <= b && (r == a || r == b)
  {
    if a <= b then a else b
  }

  /** Quotient towards zero or away from zero; a zero denominator gives zero. */
  function DivRound(n: u128, d: u128, rounding: Rounding): u128 {
    if d == 0 then 0
    else
      QuotientBounds(n, d);
      match rounding
      case Down => n / d
      case Up => n / d + (if n % d != 0 then 1 else 0)
  }

  /** Down is the largest q with q * d <= n, Up the smallest q with n <= q * d. */
  lemma DivRoundIsTight(n: u128, d: u128)
    requires d > 0
    ensures var q := DivRound(n, d, Down); q * d <= n < (q + 1) * d
    ensures var q := DivRound(n, d, Up); (q - 1) * d < n <= q * d
  {
    QuotientBounds(n, d);
    var q := n / d;
    assert (q - 1) * d == q * d - d;
  }

  /** Shares for an amount: one to one into an empty pool, else amount * shares / deposits. */
  function SharesFor(p: Pool, amount: u128, rounding: Rounding): u128 {
    if p.shares == 0 || p.deposits == 0 then amount
    else DivRound(Wrap(amount * p.shares), p.deposits, rounding)
  }

  function Interest(p: Pool, seconds: u64): (i: u128) {
    SaturatingMul(SaturatingMul(p.borrows, p.rate), seconds) / 10_000
  }

  /** One operation: the pool afterwards and the answer. */
  function Step(policy: Policy, p: Pool, op: Op): (Pool, Outcome) {
    match op
    case Deposit(_, amount) =>
      if amount > p.userBalance then (p, Err("insufficient balance"))
      else
        var minted := SharesFor(p, amount, policy.deposit);
        (p.(userBalance := p.userBalance - amount, userShares := Wrap(p.userShares + minted),
            shares := Wrap(p.shares + minted), deposits := Wrap(p.deposits + amount), vault := Wrap(p.vault + amount)),
         Ok)
    case Withdraw(_, amount) =>
      var burned := SharesFor(p, amount, policy.withdraw);
      if burned > p.userShares then (p, Err("insufficient shares"))
      else
        (p.(userShares := p.userShares - burned, shares := Wrap(p.shares - burned),
            deposits := SaturatingSub(p.deposits, amount), vault := SaturatingSub(p.vault, amount),
            userBalance := Wrap(p.userBalance + amount)),
         Ok)
    case Borrow(_, amount) =>
      if amount > p.vault then (p, Err("insufficient liquidity"))
      else
        (p.(borrows := Wrap(p.borrows + amount), vault := p.vault - amount, userBalance := Wrap(p.userBalance + amount)),
         Ok)
    case Repay(_, amount) =>
      var repaid := Min(amount, p.borrows);
      (p.(borrows := p.borrows - repaid, vault := Wrap(p.vault + repaid), userBalance := SaturatingSub(p.userBalance, repaid)),
       Ok)
    case Accrue(seconds) =>
      var i := Interest(p, seconds);
      (p.(deposits := SaturatingAdd(p.deposits, i, U128_LIMIT), borrows := SaturatingAdd(p.borrows, i, U128_LIMIT)), Ok)
    case SetPrice(price) =>
      (p.(price := price), Ok)
  }

  /** `observe`: the `as u64` casts truncate. */
  function Observe(p: Pool): Observables {
    Observables(p.deposits % U64_LIMIT, p.borrows % U64_LIMIT, p.shares % U64_LIMIT, p.vault % U64_LIMIT,
                p.userShares % U64_LIMIT, p.userBalance % U64_LIMIT, p.price)
  }

  function Code(policy: Policy): Machine<Pool> {
    Machine("lending-model", (p, op) => Step(policy, p, op), Observe)
  }

  // ---- the model as an object ----------------------------------------------------------

  datatype Role = User | Reserve | Vault | Obligation | Oracle

  datatype AccountSpec = AccountSpec(role: Role, name: string, initial: u64)

  /** The last user account gives the starting balance. */
  function StartingBalance(accounts: seq<AccountSpec>): u64 {
    if accounts == [] then 0
    else
      var last := accounts[|accounts| - 1];
      if last.role == User then last.initial else StartingBalance(accounts[..|accounts| - 1])
  }

  function Start(price: u64, rate: u64, accounts: seq<AccountSpec>): Pool {
    Pool(0, 0, 0, 0, 0, StartingBalance(accounts), price, rate)
  }

  class LendingModel {
    const policy: Policy
    var totalDeposits: u128
    var totalBorrows: u128
    var totalShares: u128
    var vaultBalance: u128
    var userShares: u128
    var userBalance: u128
    var price: u64
    const rate: u64

    function Snapshot(): Pool
      reads this
    {
      Pool(totalDeposits, totalBorrows, totalShares, vaultBalance, userShares, userBalance, price, rate)
    }

    constructor WithRounding(price: u64, rate: u64, accounts: seq<AccountSpec>, policy: Policy)
      ensures this.policy == policy && Snapshot() == Start(price, rate, accounts)
    {
      this.policy := policy;
      totalDeposits, totalBorrows, totalShares, vaultBalance, userShares := 0, 0, 0, 0, 0;
      this.price, this.rate := price, rate;
      userBalance := 0;
      new;
      for i := 0 to |accounts|
        invariant Snapshot() == Start(price, rate, accounts[..i])
      {
        assert accounts[..i + 1][..i] == accounts[..i];
        if accounts[i].role == User {
          userBalance := accounts[i].initial;
        }
      }
      assert accounts[..|accounts|] == accounts;
    }

    method Apply(op: Op) returns (r: Outcome)
      modifies this
      ensures (Snapshot(), r) == Step(policy, old(Snapshot()), op)
    {
      hide SharesFor, Wrap, SaturatingSub, Interest;
      match op
      case Deposit(_, amount) =>
        if amount > userBalance {
          return Err("insufficient balance");
        }
        var minted := SharesFor(Snapshot(), amount, policy.deposit);
        userBalance := userBalance - amount;
        userShares := Wrap(userShares + minted);
        totalShares := Wrap(totalShares + minted);
        totalDeposits := Wrap(totalDeposits + amount);
        vaultBalance := Wrap(vaultBalance + amount);
        r := Ok;
      case Withdraw(_, amount) =>
        var burned := SharesFor(Snapshot(), amount, policy.withdraw);
        if burned > userShares {
          return Err("insufficient shares");
        }
        userShares := userShares - burned;
        totalShares := Wrap(totalShares - burned);
        totalDeposits := SaturatingSub(totalDeposits, amount);
        vaultBalance := SaturatingSub(vaultBalance, amount);
        userBalance := Wrap(userBalance + amount);
        r := Ok;
      case Borrow(_, amount) =>
        if amount > vaultBalance {
          return Err("insufficient liquidity");
        }
        totalBorrows := Wrap(totalBorrows + amount);
        vaultBalance := vaultBalance - amount;
        userBalance := Wrap(userBalance + amount);
        r := Ok;
      case Repay(_, requested) =>
        var amount := Min(requested, totalBorrows);
        totalBorrows := totalBorrows - amount;
        vaultBalance := Wrap(vaultBalance + amount);
        userBalance := SaturatingSub(userBalance, amount);
        r := Ok;
      case Accrue(seconds) =>
        var interest := Interest(Snapshot(), seconds);
        totalDeposits := SaturatingAdd(totalDeposits, interest, U128_LIMIT);
        totalBorrows := SaturatingAdd(totalBorrows, interest, U128_LIMIT);
        r := Ok;
      case SetPrice(newPrice) =>
        price := newPrice;
        r := Ok;
    }
  }

  // ---- runs ------------------------------------------------------------------------------

  /** The pool after a sequence of operations. */
  function Run(policy: Policy, p: Pool, ops: seq<Op>): Pool {
    if ops == [] then p else Step(policy, Run(policy, p, ops[..|ops| - 1]), ops[|ops| - 1]).0
  }

  lemma {:induction false} RunIsAfter(policy: Policy, p: Pool, ops: seq<Op>)
    ensures After(Code(policy), p, ops) == Run(policy, p, ops)
  {
    if ops != [] {
      RunIsAfter(policy, p, ops[..|ops| - 1]);
    }
  }

  predicate Accepted(policy: Policy, p: Pool, op: Op) {
    Step(policy, p, op).1.Ok?
  }

  /** No unchecked operation of this step wraps. */
  predicate Fits(policy: Policy, p: Pool, op: Op) {
    match op
    case Deposit(_, amount) =>
      amount <= p.userBalance ==>
        && ProductFits(p, amount)
        && p.deposits + amount < U128_LIMIT && p.vault + amount < U128_LIMIT
        && p.shares + SharesFor(p, amount, policy.deposit) < U128_LIMIT
        && p.userShares + SharesFor(p, amount, policy.deposit) < U128_LIMIT
    case Withdraw(_, amount) =>
      && ProductFits(p, amount)
      && (SharesFor(p, amount, policy.withdraw) <= p.userShares ==>
            p.userBalance + amount < U128_LIMIT && SharesFor(p, amount, policy.withdraw) <= p.shares)
    case Borrow(_, amount) =>
      amount <= p.vault ==> p.borrows + amount < U128_LIMIT && p.userBalance + amount < U128_LIMIT
    case Repay(_, amount) => p.vault + Min(amount, p.borrows) < U128_LIMIT
    case Accrue(_) => true
    case SetPrice(_) => true
  }

  predicate ProductFits(p: Pool, amount: u128) {
    p.shares == 0 || p.deposits == 0 || amount * p.shares < U128_LIMIT
  }

  /** Every step of the run fits. */
  predicate RunFits(policy: Policy, p: Pool, ops: seq<Op>) {
    ops == []
    || (RunFits(policy, p, ops[..|ops| - 1])
        && Fits(policy, Run(policy, p, ops[..|ops| - 1]), ops[|ops| - 1]))
  }

  // ---- what the definitions amount to ------------------------------------------------------

  lemma ProductGrows(a: nat, b: nat, c: nat)
    requires c > 0
    ensures a * b <= a * b * c
  {
    MulMono(1, c, a * b);
  }

  /** Interest is borrows * rate * seconds in units of 10 000, rounded down; the product saturates at the u128 ceiling. */
  lemma InterestIsProportional(p: Pool, seconds: u64)
    ensures var i, exact := Interest(p, seconds), p.borrows * p.rate * seconds;
      && (exact < U128_LIMIT ==> i * 10_000 <= exact < (i + 1) * 10_000)
      && (exact >= U128_LIMIT ==> i * 10_000 <= U128_LIMIT - 1 < (i + 1) * 10_000)
      && (exact == 0 ==> i == 0)
  {
    var first, exact := p.borrows * p.rate, p.borrows * p.rate * seconds;
    assert 0 <= first by {
      MulMono(0, p.borrows, p.rate);
    }
    if seconds > 0 {
      ProductGrows(p.borrows, p.rate, seconds);
      if first >= U128_LIMIT {
        MulMono(1, seconds, U128_LIMIT - 1);
        assert SaturatingMul(U128_LIMIT - 1, seconds) == U128_LIMIT - 1;
      }
    } else {
      assert exact == 0;
    }
    var product := SaturatingMul(SaturatingMul(p.borrows, p.rate), seconds);
    assert product == (if exact < U128_LIMIT then exact else U128_LIMIT - 1) by {
      MulMono(0, first, seconds);
    }
  }

  /** Accrual adds the same interest to deposits and borrows, each up to the u128 ceiling, and touches nothing else. */
  lemma AccrualIsExact(policy: Policy, p: Pool, seconds: u64) returns (i: nat)
    ensures var (q, answer), exact := Step(policy, p, Accrue(seconds)), p.borrows * p.rate * seconds;
      && answer == Ok
      && (exact < U128_LIMIT ==> i * 10_000 <= exact < (i + 1) * 10_000)
      && (exact >= U128_LIMIT ==> i * 10_000 <= U128_LIMIT - 1 < (i + 1) * 10_000)
      && (p.deposits + i < U128_LIMIT ==> q.deposits == p.deposits + i)
      && (p.deposits + i >= U128_LIMIT ==> q.deposits == U128_LIMIT - 1)
      && (p.borrows + i < U128_LIMIT ==> q.borrows == p.borrows + i)
      && (p.borrows + i >= U128_LIMIT ==> q.borrows == U128_LIMIT - 1)
      && (q.shares, q.vault, q.userShares, q.userBalance, q.price, q.rate)
         == (p.shares, p.vault, p.userShares, p.userBalance, p.price, p.rate)
    ensures p.borrows == 0 ==> Step(policy, p, Accrue(seconds)) == (p, Ok)
  {
    hide Interest;
    i := Interest(p, seconds);
    InterestIsProportional(p, seconds);
    assert p.borrows == 0 ==> p.borrows * p.rate * seconds == 0;
  }

  /** Equal modulo 2^128. */
  ghost predicate SameModulo(x: int, y: int) {
    exists k: int :: x == y + k * U128_LIMIT
  }

  lemma WrapsModulo(x: int)
    ensures SameModulo(Wrap(x), x)
  {
    assert Wrap(x) == x + (-(x / U128_LIMIT)) * U128_LIMIT;
  }

  /**
   Shares for an amount: one to one into an empty pool, else the quotient bracketed from the
   side of the rounding. What is divided is amount * shares, modulo 2^128.
   */
  lemma SharesForIsTight(p: Pool, amount: u128) returns (n: u128)
    ensures SameModulo(n, amount * p.shares) && (amount * p.shares < U128_LIMIT ==> n == amount * p.shares)
    ensures p.shares == 0 || p.deposits == 0 ==> SharesFor(p, amount, Down) == amount == SharesFor(p, amount, Up)
    ensures p.shares > 0 && p.deposits > 0 ==>
      && SharesFor(p, amount, Down) * p.deposits <= n < (SharesFor(p, amount, Down) + 1) * p.deposits
      && (SharesFor(p, amount, Up) - 1) * p.deposits < n <= SharesFor(p, amount, Up) * p.deposits
  {
    hide DivRound;
    MulMono(0, amount, p.shares);
    n := Wrap(amount * p.shares);
    WrapsModulo(amount * p.shares);
    if p.deposits > 0 {
      DivRoundIsTight(n, p.deposits);
    }
  }

  /** Which operations are accepted, and what the others are told. */
  lemma AcceptedIff(policy: Policy, p: Pool, op: Op)
    ensures Step(policy, p, op).1 ==
      if op.Deposit? && p.userBalance < op.amount then Err("insufficient balance")
      else if op.Withdraw? && p.userShares < SharesFor(p, op.amount, policy.withdraw) then Err("insufficient shares")
      else if op.Borrow? && p.vault < op.amount then Err("insufficient liquidity")
      else Ok
  {
    hide SharesFor, Interest;
  }

  /** A pool whose quantities fit in 64 bits is observed as it is; any other modulo 2^64, field by field. */
  lemma ObservedAsItIs(p: Pool) returns (k: seq<nat>)
    ensures |k| == 6 && var o := Observe(p);
      && p.deposits == o.totalDeposits + k[0] * U64_LIMIT && p.borrows == o.totalBorrows + k[1] * U64_LIMIT
      && p.shares == o.totalShares + k[2] * U64_LIMIT && p.vault == o.vaultBalance + k[3] * U64_LIMIT
      && p.userShares == o.userShares + k[4] * U64_LIMIT && p.userBalance == o.userBalance + k[5] * U64_LIMIT
      && p.price == o.price
  {
    k := [p.deposits / U64_LIMIT, p.borrows / U64_LIMIT, p.shares / U64_LIMIT, p.vault / U64_LIMIT,
          p.userShares / U64_LIMIT, p.userBalance / U64_LIMIT];
  }

  /** The starting balance is that of the last user account, and zero without one; everything else starts at zero. */
  lemma {:induction false} StartsWithTheLastUser(price: u64, rate: u64, accounts: seq<AccountSpec>, k: nat)
    requires k <= |accounts| && forall j :: k <= j < |accounts| ==> accounts[j].role != User
    requires k > 0 ==> accounts[k - 1].role == User
    ensures Start(price, rate, accounts)
      == Pool(0, 0, 0, 0, 0, if k == 0 then 0 else accounts[k - 1].initial, price, rate)
  {
    if k < |accounts| {
      StartsWithTheLastUser(price, rate, accounts[..|accounts| - 1], k);
    }
  }

  /** A rejected operation leaves the pool untouched. */
  lemma RejectionChangesNothing(policy: Policy, p: Pool, op: Op)
    ensures !Accepted(policy, p, op) ==> Step(policy, p, op).0 == p
  {
    hide SharesFor, Wrap, Interest, SaturatingAdd, SaturatingSub;
  }

  /** An accepted step, fitting or not: sums and differences are kept modulo 2^128, the rest as it is. */
  lemma StepIsExactModulo(policy: Policy, p: Pool, op: Op)
    requires Accepted(policy, p, op)
    ensures var q := Step(policy, p, op).0;
      match op
      case Deposit(_, amount) =>
        var minted := SharesFor(p, amount, policy.deposit);
        && SameModulo(q.deposits, p.deposits + amount) && SameModulo(q.vault, p.vault + amount)
        && SameModulo(q.shares, p.shares + minted) && SameModulo(q.userShares, p.userShares + minted)
        && q.userBalance + amount == p.userBalance && (q.borrows, q.price, q.rate) == (p.borrows, p.price, p.rate)
      case Withdraw(_, amount) =>
        var burned := SharesFor(p, amount, policy.withdraw);
        && q.deposits == SaturatingSub(p.deposits, amount) && q.vault == SaturatingSub(p.vault, amount)
        && SameModulo(q.shares, p.shares - burned) && q.userShares + burned == p.userShares
        && SameModulo(q.userBalance, p.userBalance + amount)
        && (q.borrows, q.price, q.rate) == (p.borrows, p.price, p.rate)
      case Borrow(_, amount) =>
        && SameModulo(q.borrows, p.borrows + amount) && q.vault + amount == p.vault
        && SameModulo(q.userBalance, p.userBalance + amount)
        && q == p.(borrows := q.borrows, vault := q.vault, userBalance := q.userBalance)
      case Repay(_, amount) =>
        var repaid := Min(amount, p.borrows);
        && q.borrows + repaid == p.borrows && SameModulo(q.vault, p.vault + repaid)
        && q.userBalance == SaturatingSub(p.userBalance, repaid)
        && q == p.(borrows := q.borrows, vault := q.vault, userBalance := q.userBalance)
      case Accrue(_) => q == p.(deposits := q.deposits, borrows := q.borrows)
      case SetPrice(price) => q == p.(price := price)
  {
    hide SharesFor, Interest, Wrap, SameModulo;
    match op
    case Deposit(_, amount) =>
      var minted := SharesFor(p, amount, policy.deposit);
      WrapsModulo(p.deposits + amount);
      WrapsModulo(p.vault + amount);
      WrapsModulo(p.shares + minted);
      WrapsModulo(p.userShares + minted);
    case Withdraw(_, amount) =>
      WrapsModulo(p.shares - SharesFor(p, amount, policy.withdraw));
      WrapsModulo(p.userBalance + amount);
    case Borrow(_, amount) =>
      WrapsModulo(p.borrows + amount);
      WrapsModulo(p.userBalance + amount);
    case Repay(_, amount) =>
      WrapsModulo(p.vault + Min(amount, p.borrows));
    case _ =>
  }

  /** An accepted step that fits, in unbounded arithmetic. */
  lemma StepIsExact(policy: Policy, p: Pool, op: Op)
    requires Accepted(policy, p, op) && Fits(policy, p, op)
    ensures var q := Step(policy, p, op).0;
      match op
      case Deposit(_, amount) =>
        var minted := SharesFor(p, amount, policy.deposit);
        && q.deposits == p.deposits + amount && q.vault == p.vault + amount && q.borrows == p.borrows
        && q.shares == p.shares + minted && q.userShares == p.userShares + minted
        && q.userBalance == p.userBalance - amount && amount <= p.userBalance && ProductFits(p, amount)
        && (q.price, q.rate) == (p.price, p.rate)
      case Withdraw(_, amount) =>
        var burned := SharesFor(p, amount, policy.withdraw);
        && q.deposits == SaturatingSub(p.deposits, amount) && q.vault == SaturatingSub(p.vault, amount)
        && q.borrows == p.borrows && q.shares == p.shares - burned && q.userShares == p.userShares - burned
        && q.userBalance == p.userBalance + amount && burned <= p.userShares && ProductFits(p, amount)
        && (q.price, q.rate) == (p.price, p.rate)
      case Borrow(_, amount) =>
        && q == p.(borrows := q.borrows, vault := q.vault, userBalance := q.userBalance)
        && q.borrows == p.borrows + amount && q.vault == p.vault - amount && q.userBalance == p.userBalance + amount
        && amount <= p.vault
      case Repay(_, amount) =>
        && q == p.(borrows := q.borrows, vault := q.vault, userBalance := q.userBalance)
        && q.borrows == p.borrows - Min(amount, p.borrows) && q.vault == p.vault + Min(amount, p.borrows)
        && q.userBalance == SaturatingSub(p.userBalance, Min(amount, p.borrows))
      case Accrue(seconds) =>
        && q == p.(deposits := q.deposits, borrows := q.borrows)
        && q.deposits == SaturatingAdd(p.deposits, Interest(p, seconds), U128_LIMIT)
        && q.borrows == SaturatingAdd(p.borrows, Interest(p, seconds), U128_LIMIT)
      case SetPrice(price) => q == p.(price := price)
  {
    hide SharesFor, Interest, Wrap;
    match op
    case Deposit(_, amount) =>
      var minted := SharesFor(p, amount, policy.deposit);
      WrapIsIdentity(p.deposits + amount);
      WrapIsIdentity(p.vault + amount);
      WrapIsIdentity(p.shares + minted);
      WrapIsIdentity(p.userShares + minted);
    case Withdraw(_, amount) =>
      WrapIsIdentity(p.shares - SharesFor(p, amount, policy.withdraw));
      WrapIsIdentity(p.userBalance + amount);
    case Borrow(_, amount) =>
      WrapIsIdentity(p.borrows + amount);
      WrapIsIdentity(p.userBalance + amount);
    case Repay(_, amount) =>
      WrapIsIdentity(p.vault + Min(amount, p.borrows));
    case _ =>
  }
}
