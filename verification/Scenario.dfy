/** The scenario language of the differential engine: operations, observables, invariants. */
module Scenario {
  const U64_LIMIT := 0x1_0000_0000_0000_0000
  const U128_LIMIT := 0x1_0000_0000_0000_0000_0000_0000_0000_0000

  type u64 = x: int | 0 <= x < U64_LIMIT
  type u128 = x: int | 0 <= x < U128_LIMIT

  /** `Result<(), String>`: error texts matter only up to equality. */
  datatype Outcome = Ok | Err(message: string)

  datatype Op =
    | Deposit(user: string, amount: u64)
    | Withdraw(user: string, amount: u64)
    | Borrow(user: string, amount: u64)
    | Repay(user: string, amount: u64)
    | Accrue(seconds: u64)
    | SetPrice(newPrice: u64)

  datatype Field = TotalDeposits | TotalBorrows | TotalShares | VaultBalance | UserShares | UserBalance | Price

  /** The order in which fields are compared. */
  const FIELDS: seq<Field> :=
    [TotalDeposits, TotalBorrows, TotalShares, VaultBalance, UserShares, UserBalance, Price]

  datatype Observables = Observables(
    totalDeposits: u64, totalBorrows: u64, totalShares: u64, vaultBalance: u64,
    userShares: u64, userBalance: u64, price: u64)
  {
    function Get(f: Field): u64 {
      match f
      case TotalDeposits => totalDeposits
      case TotalBorrows => totalBorrows
      case TotalShares => totalShares
      case VaultBalance => vaultBalance
      case UserShares => userShares
      case UserBalance => userBalance
      case Price => price
    }
  }

  /** `Observables::default()`. */
  const NOTHING_OBSERVED := Observables(0, 0, 0, 0, 0, 0, 0)

  /** The fields in which two observations differ. */
  function Differences(a: Observables, b: Observables): (r: seq<Field>)
    ensures forall f :: f in r <==> a.Get(f) != b.Get(f)
    ensures r == [] <==> a == b
  {
    var r := DifferencesAmong(FIELDS, a, b);
    EveryFieldIsCompared();
    assert r == [] ==> forall f :: a.Get(f) == b.Get(f);
    SameFieldsSameObservables(a, b);
    assert r != [] ==> r[0] in r;
    r
  }

  lemma EveryFieldIsCompared()
    ensures forall f: Field :: f in FIELDS
  {
    forall f: Field ensures f in FIELDS {
      var i := match f
        case TotalDeposits => 0 case TotalBorrows => 1 case TotalShares => 2 case VaultBalance => 3
        case UserShares => 4 case UserBalance => 5 case Price => 6;
      assert FIELDS[i] == f;
    }
  }

  lemma SameFieldsSameObservables(a: Observables, b: Observables)
    ensures (forall f: Field :: a.Get(f) == b.Get(f)) <==> a == b
  {
    assert a.Get(TotalDeposits) == a.totalDeposits && a.Get(TotalBorrows) == a.totalBorrows
        && a.Get(TotalShares) == a.totalShares && a.Get(VaultBalance) == a.vaultBalance
        && a.Get(UserShares) == a.userShares && a.Get(UserBalance) == a.userBalance && a.Get(Price) == a.price;
  }

  function DifferencesAmong(fields: seq<Field>, a: Observables, b: Observables): (r: seq<Field>)
    ensures forall f :: f in r <==> f in fields && a.Get(f) != b.Get(f)
  {
    if fields == [] then []
    else if a.Get(fields[0]) != b.Get(fields[0]) then [fields[0]] + DifferencesAmong(fields[1..], a, b)
    else DifferencesAmong(fields[1..], a, b)
  }

  function ListedIf(f: Field, differ: bool): seq<Field> {
    if differ then [f] else []
  }

  /** Exactly the differing fields, each once and in the order in which the record declares them. */
  lemma DifferencesAreExact(a: Observables, b: Observables)
    ensures Differences(a, b) ==
      ListedIf(TotalDeposits, a.totalDeposits != b.totalDeposits)
      + (ListedIf(TotalBorrows, a.totalBorrows != b.totalBorrows)
      + (ListedIf(TotalShares, a.totalShares != b.totalShares)
      + (ListedIf(VaultBalance, a.vaultBalance != b.vaultBalance)
      + (ListedIf(UserShares, a.userShares != b.userShares)
      + (ListedIf(UserBalance, a.userBalance != b.userBalance)
      + ListedIf(Price, a.price != b.price))))))
  {
    AllFieldsCompared(a, b);
    SevenFields(FIELDS, a, b);
  }

  lemma SevenFields(f: seq<Field>, a: Observables, b: Observables)
    requires |f| == 7 && f[0] == TotalDeposits && f[1] == TotalBorrows && f[2] == TotalShares && f[3] == VaultBalance
    requires f[4] == UserShares && f[5] == UserBalance && f[6] == Price
    ensures DifferencesAmong(f, a, b) ==
      ListedIf(TotalDeposits, a.totalDeposits != b.totalDeposits)
      + (ListedIf(TotalBorrows, a.totalBorrows != b.totalBorrows)
      + (ListedIf(TotalShares, a.totalShares != b.totalShares)
      + (ListedIf(VaultBalance, a.vaultBalance != b.vaultBalance)
      + (ListedIf(UserShares, a.userShares != b.userShares)
      + (ListedIf(UserBalance, a.userBalance != b.userBalance)
      + ListedIf(Price, a.price != b.price))))))
  {
    hide DifferencesAmong, ListedIf;
    EachFieldIsRead(a, b);
    NothingLeft(a, b);
    OneField(f, 6, a, b);
    assert f[7..] == [] && DifferencesAmong(f[6..], a, b) == ListedIf(Price, a.price != b.price);
    OneField(f, 5, a, b);
    OneField(f, 4, a, b);
    OneField(f, 3, a, b);
    OneField(f, 2, a, b);
    OneField(f, 1, a, b);
    OneField(f, 0, a, b);
    assert f[0..] == f;
  }

  lemma AllFieldsCompared(a: Observables, b: Observables)
    ensures Differences(a, b) == DifferencesAmong(FIELDS, a, b)
  {
  }

  /** A field tag stands for the field of its name. */
  lemma EachFieldIsRead(a: Observables, b: Observables)
    ensures a.Get(TotalDeposits) != b.Get(TotalDeposits) <==> a.totalDeposits != b.totalDeposits
    ensures a.Get(TotalBorrows) != b.Get(TotalBorrows) <==> a.totalBorrows != b.totalBorrows
    ensures a.Get(TotalShares) != b.Get(TotalShares) <==> a.totalShares != b.totalShares
    ensures a.Get(VaultBalance) != b.Get(VaultBalance) <==> a.vaultBalance != b.vaultBalance
    ensures a.Get(UserShares) != b.Get(UserShares) <==> a.userShares != b.userShares
    ensures a.Get(UserBalance) != b.Get(UserBalance) <==> a.userBalance != b.userBalance
    ensures a.Get(Price) != b.Get(Price) <==> a.price != b.price
  {
  }

  lemma OneField(fields: seq<Field>, i: nat, a: Observables, b: Observables)
    requires i < |fields|
    ensures DifferencesAmong(fields[i..], a, b)
      == ListedIf(fields[i], a.Get(fields[i]) != b.Get(fields[i])) + DifferencesAmong(fields[i + 1..], a, b)
  {
    assert fields[i..][1..] == fields[i + 1..];
  }

  lemma NothingLeft(a: Observables, b: Observables)
    ensures DifferencesAmong([], a, b) == []
  {
  }

  datatype Invariant = Solvency | ShareConservation | VaultBacking | NoFreeMoney | DepositMonotonic

  function SaturatingAdd(a: int, b: int, limit: int): (r: int) {
    if a + b < limit then a + b else limit - 1
  }

  /** `invariants::check`: does the invariant hold of an observation? */
  predicate Holds(inv: Invariant, o: Observables) {
    match inv
    case Solvency => o.totalDeposits >= o.totalBorrows
    case ShareConservation => o.userShares == o.totalShares
    case VaultBacking => SaturatingAdd(o.vaultBalance, o.totalBorrows, U64_LIMIT) >= o.totalDeposits
    case NoFreeMoney => true
    case DepositMonotonic => true
  }

  /** When a check fails, in unbounded arithmetic: the saturation never decides. */
  lemma BrokenIff(inv: Invariant, o: Observables)
    ensures !Holds(inv, o) <==>
      || (inv == Solvency && o.totalDeposits - o.totalBorrows < 0)
      || (inv == ShareConservation && o.userShares - o.totalShares != 0)
      || (inv == VaultBacking && o.vaultBalance + o.totalBorrows - o.totalDeposits < 0)
  {
  }

  const DEFAULT_INVARIANTS := [Solvency, ShareConservation, VaultBacking]

  /** By default exactly the invariants that can fail are checked, each once. */
  lemma DefaultsAreThoseThatCanFail(inv: Invariant)
    ensures inv in DEFAULT_INVARIANTS <==> exists o :: !Holds(inv, o)
    ensures multiset(DEFAULT_INVARIANTS)[inv] <= 1
  {
    var debt := NOTHING_OBSERVED.(totalBorrows := 1);
    var gift := NOTHING_OBSERVED.(userShares := 1);
    var hole := NOTHING_OBSERVED.(totalDeposits := 1);
    assert !Holds(Solvency, debt) && !Holds(ShareConservation, gift) && !Holds(VaultBacking, hole);
    assert DEFAULT_INVARIANTS[0] == Solvency && DEFAULT_INVARIANTS[1] == ShareConservation;
    assert DEFAULT_INVARIANTS[2] == VaultBacking;
  }
}
