/** What a comparison report means: first disagreements, prefixes, minimal repros, recorded traces. */
module EngineTheorems {
  import opened Wrappers
  import opened Scenario
  import opened Engine

  // ---- the changed-field filter never hides the first disagreement ---------------------

  /** `first` is the least round in which the two sides visibly disagree. */
  ghost predicate IsFirstDisagreement(first: Option<nat>, rounds: seq<Round>) {
    match first
    case Some(i) => i < |rounds| && rounds[i].Disagrees() && forall j :: 0 <= j < i ==> !rounds[j].Disagrees()
    case None => forall j :: 0 <= j < |rounds| ==> !rounds[j].Disagrees()
  }

  lemma {:induction false} NoDisagreementNoEntries(mode: Refresh, start: Baseline, rounds: seq<Round>)
    requires start.0 == start.1
    requires forall j :: 0 <= j < |rounds| ==> !rounds[j].Disagrees()
    requires mode == OnExamined
    ensures Divergences(mode, start, rounds) == []
    ensures BaselineAfter(mode, start, rounds).0 == BaselineAfter(mode, start, rounds).1
  {
    if rounds != [] {
      var n := |rounds| - 1;
      NoDisagreementNoEntries(mode, start, rounds[..n]);
      EntriesAreIndexed(n, rounds[n], BaselineAfter(mode, start, rounds[..n]));
    }
  }

  lemma DisagreementIsReported(i: nat, r: Round, before: Baseline)
    requires before.0 == before.1 && r.Disagrees()
    ensures Entries(i, r, before) != []
  {
    var fields := Differences(r.expected.obs, r.actual.obs);
    FieldEntriesAreIndexed(i, r, before, fields);
    if fields != [] {
      assert fields[0] in fields && Changed(fields[0], before, r);
    }
  }

  lemma {:induction false} FirstDivergenceIsFirstDisagreement(start: Baseline, rounds: seq<Round>)
    requires start.0 == start.1
    ensures IsFirstDisagreement(FirstIndex(Divergences(OnExamined, start, rounds)), rounds)
  {
    hide Entries;
    if rounds != [] {
      var n := |rounds| - 1;
      FirstDivergenceIsFirstDisagreement(start, rounds[..n]);
      var before := BaselineAfter(OnExamined, start, rounds[..n]);
      EntriesAreIndexed(n, rounds[n], before);
      if Divergences(OnExamined, start, rounds[..n]) == [] {
        assert forall j :: 0 <= j < n ==> rounds[..n][j] == rounds[j];
        NoDisagreementNoEntries(OnExamined, start, rounds[..n]);
        if rounds[n].Disagrees() {
          DisagreementIsReported(n, rounds[n], before);
        }
      }
    }
  }

  /** For any two deterministic models that start out looking alike. */
  lemma CompareReportsTheFirstDisagreement<S, T>(
      e: Machine<S>, e0: S, a: Machine<T>, a0: T, t: Terms, ops: seq<Op>)
    requires e.view(e0) == a.view(a0)
    ensures var rounds := Rounds(e, e0, a, a0, ops);
      IsFirstDisagreement(ReportOf(OnExamined, t, (e.view(e0), a.view(a0)), rounds).firstDivergence, rounds)
  {
    FirstDivergenceIsFirstDisagreement((e.view(e0), a.view(a0)), Rounds(e, e0, a, a0, ops));
  }

  lemma OneRound(mode: Refresh, start: Baseline, r: Round)
    ensures Divergences(mode, start, [r]) == Entries(0, r, start)
  {
    assert [r][..0] == [];
  }

  lemma NothingMovedNothingReported(mode: Refresh, r: Round, start: Baseline)
    requires start == (r.expected.obs, r.actual.obs) && r.expected.outcome.Ok? && r.actual.outcome.Ok?
    ensures Divergences(mode, start, [r]) == []
  {
    OneRound(mode, start, r);
    FieldEntriesAreIndexed(0, r, start, Differences(r.expected.obs, r.actual.obs));
  }

  /** The first disagreement is reported on every run if and only if the two sides start out looking alike. */
  lemma FirstDisagreementIsReportedIff(start: Baseline)
    ensures start.0 == start.1
      <==> forall rounds: seq<Round> :: IsFirstDisagreement(FirstIndex(Divergences(OnExamined, start, rounds)), rounds)
  {
    hide Divergences, IsFirstDisagreement;
    if start.0 == start.1 {
      forall rounds: seq<Round>
        ensures IsFirstDisagreement(FirstIndex(Divergences(OnExamined, start, rounds)), rounds)
      {
        FirstDivergenceIsFirstDisagreement(start, rounds);
      }
    } else {
      var r := Round(SetPrice(0), Reply(Ok, start.0), Reply(Ok, start.1));
      NothingMovedNothingReported(OnExamined, r, start);
      DisagreeingRound(r);
      assert !IsFirstDisagreement(FirstIndex(Divergences(OnExamined, start, [r])), [r]);
    }
  }

  lemma DisagreeingRound(r: Round)
    requires r.Disagrees()
    ensures !IsFirstDisagreement(None, [r])
  {
    assert [r][0] == r;
  }

  /** A machine that accepts everything and never moves. */
  function Still(name: string): Machine<Observables> {
    Machine(name, (s, op) => (s, Ok), s => s)
  }

  lemma {:induction false} StillStays(name: string, x: Observables, ops: seq<Op>)
    ensures After(Still(name), x, ops) == x
  {
    if ops != [] {
      StillStays(name, x, ops[..|ops| - 1]);
    }
  }

  /** Two machines that look different and stand still: they disagree on every operation, and nothing is reported. */
  lemma {:induction false} LastingDifferenceIsNeverReported(x: Observables, y: Observables, t: Terms, ops: seq<Op>)
    requires x != y
    ensures var rounds := Rounds(Still("reference"), x, Still("program"), y, ops);
      && (forall i :: 0 <= i < |ops| ==> rounds[i].Disagrees())
      && ReportOf(OnExamined, t, (x, y), rounds).divergences == []
      && BaselineAfter(OnExamined, (x, y), rounds) == (x, y)
  {
    var e, a := Still("reference"), Still("program");
    var rounds := Rounds(e, x, a, y, ops);
    forall i | 0 <= i < |ops|
      ensures rounds[i] == Round(ops[i], Reply(Ok, x), Reply(Ok, y))
    {
      StillStays("reference", x, ops[..i]);
      StillStays("program", y, ops[..i]);
    }
    if ops != [] {
      var n := |ops| - 1;
      LastingDifferenceIsNeverReported(x, y, t, ops[..n]);
      RoundsOfPrefix(e, x, a, y, ops, n);
      FieldEntriesAreIndexed(n, rounds[n], (x, y), Differences(x, y));
    }
  }

  // ---- what a report contains ---------------------------------------------------------------

  /** Both sides rejected, with the same message. */
  ghost predicate RejectedAlike(r: Round) {
    exists message :: r.expected.outcome == Err(message) && r.actual.outcome == Err(message)
  }

  /** d says truthfully that something diverged in round r, judged against this baseline. */
  ghost predicate Witnesses(d: Divergence, r: Round, before: Baseline) {
    d.op == r.op &&
    match d
    case ResultDiverges(_, _, expected, actual) =>
      (expected != Ok || actual != Ok) && expected != actual && expected == r.expected.outcome && actual == r.actual.outcome
    case FieldDiverges(_, _, field, expectedValue, actualValue) =>
      && !RejectedAlike(r)
      && expectedValue == r.expected.obs.Get(field) && actualValue == r.actual.obs.Get(field)
      && expectedValue != actualValue
      && (expectedValue != before.0.Get(field) || actualValue != before.1.Get(field))
    case StepMissing(_, _, _) => false
  }

  /** The observations of the last round the loop examined, or of any round if it looks at all; the start before that. */
  ghost predicate IsBaseline(mode: Refresh, start: Baseline, rounds: seq<Round>, b: Baseline) {
    || (b == start && forall k :: 0 <= k < |rounds| ==> mode == OnExamined && RejectedAlike(rounds[k]))
    || exists k :: 0 <= k < |rounds| && b == (rounds[k].expected.obs, rounds[k].actual.obs)
                   && (mode == OnExamined ==> !RejectedAlike(rounds[k]))
                   && forall l :: k < l < |rounds| ==> mode == OnExamined && RejectedAlike(rounds[l])
  }

  /** What "changed" is judged against. */
  lemma {:induction false} BaselineIsExact(mode: Refresh, start: Baseline, rounds: seq<Round>)
    ensures IsBaseline(mode, start, rounds, BaselineAfter(mode, start, rounds))
  {
    hide RejectedAlike;
    if rounds != [] {
      var n := |rounds| - 1;
      AgreedIsRejectedAlike(rounds[n]);
      BaselineIsExact(mode, start, rounds[..n]);
      if mode == OnExamined && rounds[n].Agreed() {
        assert forall k :: 0 <= k < n ==> rounds[..n][k] == rounds[k];
      } else {
        assert BaselineAfter(mode, start, rounds) == (rounds[n].expected.obs, rounds[n].actual.obs);
      }
    }
  }

  lemma AgreedIsRejectedAlike(r: Round)
    ensures r.Agreed() <==> RejectedAlike(r)
  {
  }

  lemma {:induction false} FieldEntriesAreExact(i: nat, r: Round, before: Baseline, fields: seq<Field>, d: Divergence)
    ensures d in FieldEntries(i, r, before, fields)
      <==> (&& d.FieldDiverges? && d.opIndex == i && d.op == r.op && d.field in fields && Changed(d.field, before, r)
            && d.expectedValue == r.expected.obs.Get(d.field) && d.actualValue == r.actual.obs.Get(d.field))
  {
    hide Changed;
    if fields != [] {
      FieldEntriesAreExact(i, r, before, fields[1..], d);
      assert fields == [fields[0]] + fields[1..];
    }
  }

  lemma EntriesAreExact(i: nat, r: Round, before: Baseline, d: Divergence)
    ensures d in Entries(i, r, before) <==> d.opIndex == i && Witnesses(d, r, before)
  {
    hide RejectedAlike, Differences;
    AgreedIsRejectedAlike(r);
    FieldEntriesAreExact(i, r, before, Differences(r.expected.obs, r.actual.obs), d);
    SameAnswersAgree(r);
  }

  lemma SameAnswersAgree(r: Round)
    ensures r.expected.outcome == r.actual.outcome && r.expected.outcome != Ok ==> RejectedAlike(r)
    ensures RejectedAlike(r) ==> r.expected.outcome == r.actual.outcome
  {
    assert r.expected.outcome != Ok ==> r.expected.outcome == Err(r.expected.outcome.message);
  }

  /** A divergence is listed exactly when it truthfully describes an examined round. */
  lemma {:induction false} DivergencesAreExact(mode: Refresh, start: Baseline, rounds: seq<Round>, d: Divergence)
    ensures d in Divergences(mode, start, rounds)
      <==> d.opIndex < |rounds| && Witnesses(d, rounds[d.opIndex], BaselineAfter(mode, start, rounds[..d.opIndex]))
  {
    hide Entries, Witnesses;
    if rounds != [] {
      var n := |rounds| - 1;
      DivergencesAreExact(mode, start, rounds[..n], d);
      EntriesAreExact(n, rounds[n], BaselineAfter(mode, start, rounds[..n]), d);
      if d.opIndex < n {
        assert rounds[..n][..d.opIndex] == rounds[..d.opIndex];
      }
    }
  }

  lemma {:induction false} BrokenByIsExact(i: nat, model: string, o: Observables, invs: seq<Invariant>, v: Violation)
    ensures v in BrokenBy(i, model, o, invs) <==> v.opIndex == i && v.model == model && v.broken in invs && !Holds(v.broken, o)
  {
    hide Holds;
    if invs != [] {
      BrokenByIsExact(i, model, o, invs[1..], v);
      assert invs == [invs[0]] + invs[1..];
    }
  }

  /** A violation is listed exactly when a side that accepted the operation broke a checked invariant. */
  lemma {:induction false} ViolationsAreExact(t: Terms, rounds: seq<Round>, v: Violation)
    ensures v in Violations(t, rounds) <==>
      && v.opIndex < |rounds| && v.broken in t.invariants
      && var r := rounds[v.opIndex];
         || (v.model == t.expectedName && r.expected.outcome.Ok? && !Holds(v.broken, r.expected.obs))
         || (v.model == t.actualName && r.actual.outcome.Ok? && !Holds(v.broken, r.actual.obs))
  {
    hide Holds, BrokenBy;
    if rounds != [] {
      var n := |rounds| - 1;
      ViolationsAreExact(t, rounds[..n], v);
      BrokenByIsExact(n, t.expectedName, rounds[n].expected.obs, t.invariants, v);
      BrokenByIsExact(n, t.actualName, rounds[n].actual.obs, t.invariants, v);
    }
  }

  /** Agreed errors are counted once each: the rounds in which both sides reject with one message. */
  lemma {:induction false} AgreedErrorsAreCounted(rounds: seq<Round>)
    ensures AgreedErrors(rounds) == |set i: nat | i < |rounds| && RejectedAlike(rounds[i])|
  {
    hide RejectedAlike;
    var here := set i: nat | i < |rounds| && RejectedAlike(rounds[i]);
    if rounds == [] {
      assert here == {};
    } else {
      var n := |rounds| - 1;
      var before := set i: nat | i < n && RejectedAlike(rounds[..n][i]);
      AgreedErrorsAreCounted(rounds[..n]);
      AgreedIsRejectedAlike(rounds[n]);
      assert here == before + (if RejectedAlike(rounds[n]) then {n} else {});
    }
  }

  /** Different answers are listed, and nothing else is listed as a result: not through any notion of agreement. */
  lemma ResultsAreExact(mode: Refresh, start: Baseline, rounds: seq<Round>, i: nat, op: Op, x: Outcome, y: Outcome)
    ensures ResultDiverges(i, op, x, y) in Divergences(mode, start, rounds)
      <==> i < |rounds| && rounds[i].op == op && rounds[i].expected.outcome == x && rounds[i].actual.outcome == y && x != y
  {
    DivergencesAreExact(mode, start, rounds, ResultDiverges(i, op, x, y));
  }

  // ---- the order of a report ----------------------------------------------------------------

  /** Within an operation: the result first, then the fields as the observations declare them. */
  function Rank(d: Divergence): nat {
    match d
    case ResultDiverges(_, _, _, _) => 0
    case FieldDiverges(_, _, field, _, _) => 1 + Place(field)
    case StepMissing(_, _, _) => 0
  }

  function Place(f: Field): nat {
    match f
    case TotalDeposits => 0 case TotalBorrows => 1 case TotalShares => 2 case VaultBalance => 3
    case UserShares => 4 case UserBalance => 5 case Price => 6
  }

  predicate Precedes(a: Divergence, b: Divergence) {
    a.opIndex < b.opIndex || (a.opIndex == b.opIndex && Rank(a) < Rank(b))
  }

  ghost predicate InOrder(ds: seq<Divergence>) {
    forall i, j :: 0 <= i < j < |ds| ==> Precedes(ds[i], ds[j])
  }

  lemma OrderJoins(a: seq<Divergence>, b: seq<Divergence>)
    requires InOrder(a) && InOrder(b) && forall x, y :: x in a && y in b ==> Precedes(x, y)
    ensures InOrder(a + b)
  {
    hide Precedes;
    var all := a + b;
    forall i, j | 0 <= i < j < |all|
      ensures Precedes(all[i], all[j])
    {
      if i < |a| <= j {
        assert all[i] in a && all[j] in b;
      } else if i >= |a| {
        assert all[i] == b[i - |a|] && all[j] == b[j - |a|];
      }
    }
  }

  /** Ascending fields from place k on. */
  ghost predicate Ascend(fields: seq<Field>, k: nat) {
    fields == [] || (k <= Place(fields[0]) && Ascend(fields[1..], Place(fields[0]) + 1))
  }

  lemma {:induction false} LaterFieldsAscend(fields: seq<Field>, k: nat, l: nat)
    requires Ascend(fields, l) && k <= l
    ensures Ascend(fields, k)
  {
  }

  lemma {:induction false} DifferencesAscend(fields: seq<Field>, a: Observables, b: Observables, k: nat)
    requires Ascend(fields, k)
    ensures Ascend(DifferencesAmong(fields, a, b), k)
    decreases |fields|
  {
    if fields != [] {
      DifferencesAscend(fields[1..], a, b, Place(fields[0]) + 1);
      var rest := DifferencesAmong(fields[1..], a, b);
      assert ([fields[0]] + rest)[1..] == rest;
      LaterFieldsAscend(rest, k, Place(fields[0]) + 1);
    }
  }

  lemma FieldsAscend()
    ensures Ascend(FIELDS, 0)
  {
    var f := FIELDS;
    assert Ascend(f[7..], 7);
    assert f[6..][1..] == f[7..] && Ascend(f[6..], 6);
    assert f[5..][1..] == f[6..] && Ascend(f[5..], 5);
    assert f[4..][1..] == f[5..] && Ascend(f[4..], 4);
    assert f[3..][1..] == f[4..] && Ascend(f[3..], 3);
    assert f[2..][1..] == f[3..] && Ascend(f[2..], 2);
    assert f[1..][1..] == f[2..] && Ascend(f[1..], 1);
    assert f[0..] == f && f[1..] == f[1..];
  }

  lemma {:induction false} FieldEntriesInOrder(i: nat, r: Round, before: Baseline, fields: seq<Field>, k: nat)
    requires Ascend(fields, k)
    ensures InOrder(FieldEntries(i, r, before, fields))
    ensures forall d :: d in FieldEntries(i, r, before, fields) ==> d.opIndex == i && Rank(d) > k
    decreases |fields|
  {
    hide Changed;
    if fields != [] {
      FieldEntriesInOrder(i, r, before, fields[1..], Place(fields[0]) + 1);
      var head := if Changed(fields[0], before, r)
        then [FieldDiverges(i, r.op, fields[0], r.expected.obs.Get(fields[0]), r.actual.obs.Get(fields[0]))] else [];
      OrderJoins(head, FieldEntries(i, r, before, fields[1..]));
    }
  }

  lemma EntriesInOrder(i: nat, r: Round, before: Baseline)
    ensures InOrder(Entries(i, r, before))
  {
    hide Changed;
    FieldsAscend();
    DifferencesAscend(FIELDS, r.expected.obs, r.actual.obs, 0);
    var fields := Differences(r.expected.obs, r.actual.obs);
    FieldEntriesInOrder(i, r, before, fields, 0);
    OrderJoins(ResultEntries(i, r), FieldEntries(i, r, before, fields));
  }

  /** Divergences are listed by operation, the result before the fields, the fields in declared order; so each once. */
  lemma {:induction false} DivergencesAreOrdered(mode: Refresh, start: Baseline, rounds: seq<Round>)
    ensures InOrder(Divergences(mode, start, rounds))
  {
    hide Entries;
    if rounds != [] {
      var n := |rounds| - 1;
      var before := BaselineAfter(mode, start, rounds[..n]);
      DivergencesAreOrdered(mode, start, rounds[..n]);
      EntriesInOrder(n, rounds[n], before);
      EntriesAreIndexed(n, rounds[n], before);
      OnlyEarlierRounds(mode, start, rounds[..n]);
      OrderJoins(Divergences(mode, start, rounds[..n]), Entries(n, rounds[n], before));
    }
  }

  lemma {:induction false} OnlyEarlierRounds(mode: Refresh, start: Baseline, rounds: seq<Round>)
    ensures forall d :: d in Divergences(mode, start, rounds) ==> d.opIndex < |rounds| && !d.StepMissing?
  {
    hide Entries;
    if rounds != [] {
      var n := |rounds| - 1;
      OnlyEarlierRounds(mode, start, rounds[..n]);
      forall d | d in Entries(n, rounds[n], BaselineAfter(mode, start, rounds[..n]))
        ensures d.opIndex == n && !d.StepMissing?
      {
        EntriesAreExact(n, rounds[n], BaselineAfter(mode, start, rounds[..n]), d);
      }
    }
  }

  /** The violations of one operation come after those of earlier ones, the reference's before the program's. */
  lemma {:induction false} ViolationsAreOrdered(t: Terms, rounds: seq<Round>, i: nat, j: nat)
    requires i < j < |Violations(t, rounds)|
    ensures var v, w := Violations(t, rounds)[i], Violations(t, rounds)[j];
      v.opIndex < w.opIndex || (v.opIndex == w.opIndex && (v.model == t.expectedName || w.model == t.actualName))
  {
    hide ViolationsIn;
    var n := |rounds| - 1;
    var earlier, here := Violations(t, rounds[..n]), ViolationsIn(t, n, rounds[n]);
    if j < |earlier| {
      ViolationsAreOrdered(t, rounds[..n], i, j);
    } else {
      assert here[j - |earlier|] in here;
      ViolationsInAreIndexed(t, n, rounds[n]);
      if i < |earlier| {
        assert earlier[i] in earlier;
        ViolationsAreExact(t, rounds[..n], earlier[i]);
      } else {
        assert here[i - |earlier|] in here;
        OneRoundInOrder(t, n, rounds[n], i - |earlier|, j - |earlier|);
      }
    }
  }

  lemma OneRoundInOrder(t: Terms, n: nat, r: Round, i: nat, j: nat)
    requires i < j < |ViolationsIn(t, n, r)|
    ensures ViolationsIn(t, n, r)[i].model == t.expectedName || ViolationsIn(t, n, r)[j].model == t.actualName
  {
    hide BrokenBy;
    var a := if r.expected.outcome.Ok? then BrokenBy(n, t.expectedName, r.expected.obs, t.invariants) else [];
    var b := if r.actual.outcome.Ok? then BrokenBy(n, t.actualName, r.actual.obs, t.invariants) else [];
    assert ViolationsIn(t, n, r) == a + b;
    if i < |a| {
      assert a[i] in a;
      BrokenByIsExact(n, t.expectedName, r.expected.obs, t.invariants, a[i]);
    } else {
      assert b[j - |a|] in b;
      BrokenByIsExact(n, t.actualName, r.actual.obs, t.invariants, b[j - |a|]);
    }
  }

  // ---- prefixes ---------------------------------------------------------------------------

  function Before(ds: seq<Divergence>, k: nat): seq<Divergence> {
    if ds == [] then []
    else (if ds[0].opIndex < k then [ds[0]] else []) + Before(ds[1..], k)
  }

  function ViolationsBefore(vs: seq<Violation>, k: nat): seq<Violation> {
    if vs == [] then []
    else (if vs[0].opIndex < k then [vs[0]] else []) + ViolationsBefore(vs[1..], k)
  }

  lemma {:induction false} BeforeSplits(xs: seq<Divergence>, ys: seq<Divergence>, k: nat)
    ensures Before(xs + ys, k) == Before(xs, k) + Before(ys, k)
  {
    if xs == [] {
      assert xs + ys == ys;
    } else {
      assert (xs + ys)[1..] == xs[1..] + ys;
      BeforeSplits(xs[1..], ys, k);
    }
  }

  lemma {:induction false} ViolationsBeforeSplits(xs: seq<Violation>, ys: seq<Violation>, k: nat)
    ensures ViolationsBefore(xs + ys, k) == ViolationsBefore(xs, k) + ViolationsBefore(ys, k)
  {
    if xs == [] {
      assert xs + ys == ys;
    } else {
      assert (xs + ys)[1..] == xs[1..] + ys;
      ViolationsBeforeSplits(xs[1..], ys, k);
    }
  }

  lemma {:induction false} BeforeUniform(ds: seq<Divergence>, i: nat, k: nat)
    requires forall d :: d in ds ==> d.opIndex == i
    ensures Before(ds, k) == if i < k then ds else []
  {
    if ds != [] {
      assert ds[0] in ds;
      BeforeUniform(ds[1..], i, k);
    }
  }

  lemma {:induction false} ViolationsBeforeUniform(vs: seq<Violation>, i: nat, k: nat)
    requires forall v :: v in vs ==> v.opIndex == i
    ensures ViolationsBefore(vs, k) == if i < k then vs else []
  {
    if vs != [] {
      assert vs[0] in vs;
      ViolationsBeforeUniform(vs[1..], i, k);
    }
  }

  lemma {:induction false} BrokenByIsIndexed(i: nat, model: string, o: Observables, invs: seq<Invariant>)
    ensures forall v :: v in BrokenBy(i, model, o, invs) ==> v.opIndex == i
  {
    if invs != [] {
      BrokenByIsIndexed(i, model, o, invs[1..]);
    }
  }

  lemma ViolationsInAreIndexed(t: Terms, i: nat, r: Round)
    ensures forall v :: v in ViolationsIn(t, i, r) ==> v.opIndex == i
  {
    BrokenByIsIndexed(i, t.expectedName, r.expected.obs, t.invariants);
    BrokenByIsIndexed(i, t.actualName, r.actual.obs, t.invariants);
  }

  lemma LastRoundBefore(mode: Refresh, t: Terms, start: Baseline, rounds: seq<Round>, k: nat)
    requires rounds != []
    ensures var n := |rounds| - 1;
      && Before(Divergences(mode, start, rounds), k)
         == Before(Divergences(mode, start, rounds[..n]), k)
            + (if n < k then Entries(n, rounds[n], BaselineAfter(mode, start, rounds[..n])) else [])
      && ViolationsBefore(Violations(t, rounds), k)
         == ViolationsBefore(Violations(t, rounds[..n]), k) + (if n < k then ViolationsIn(t, n, rounds[n]) else [])
  {
    hide Entries, ViolationsIn, Before, ViolationsBefore;
    var n := |rounds| - 1;
    var before := BaselineAfter(mode, start, rounds[..n]);
    EntriesAreIndexed(n, rounds[n], before);
    ViolationsInAreIndexed(t, n, rounds[n]);
    BeforeUniform(Entries(n, rounds[n], before), n, k);
    ViolationsBeforeUniform(ViolationsIn(t, n, rounds[n]), n, k);
    BeforeSplits(Divergences(mode, start, rounds[..n]), Entries(n, rounds[n], before), k);
    ViolationsBeforeSplits(Violations(t, rounds[..n]), ViolationsIn(t, n, rounds[n]), k);
  }

  lemma {:induction false} NothingCut(mode: Refresh, t: Terms, start: Baseline, rounds: seq<Round>, k: nat)
    requires |rounds| <= k
    ensures Before(Divergences(mode, start, rounds), k) == Divergences(mode, start, rounds)
    ensures ViolationsBefore(Violations(t, rounds), k) == Violations(t, rounds)
  {
    hide Entries, ViolationsIn;
    if rounds != [] {
      NothingCut(mode, t, start, rounds[..|rounds| - 1], k);
      LastRoundBefore(mode, t, start, rounds, k);
    }
  }

  /** The report on a prefix is the full report cut to the op indices inside the prefix. */
  lemma {:induction false} PrefixReport(mode: Refresh, t: Terms, start: Baseline, rounds: seq<Round>, k: nat)
    requires k <= |rounds|
    ensures Divergences(mode, start, rounds[..k]) == Before(Divergences(mode, start, rounds), k)
    ensures Violations(t, rounds[..k]) == ViolationsBefore(Violations(t, rounds), k)
    decreases |rounds|
  {
    hide Divergences, Violations;
    if k == |rounds| {
      assert rounds[..k] == rounds;
      NothingCut(mode, t, start, rounds, k);
    } else {
      var pre := rounds[..|rounds| - 1];
      assert pre[..k] == rounds[..k];
      PrefixReport(mode, t, start, pre, k);
      LastRoundBefore(mode, t, start, rounds, k);
    }
  }

  // ---- minimal repro --------------------------------------------------------------------

  function FirstViolation(vs: seq<Violation>): Option<nat> {
    if vs == [] then None else Some(vs[0].opIndex)
  }

  /** `ComparisonReport::minimal_repro`, on the operations of the scenario. */
  function MinimalRepro(r: Report, ops: seq<Op>): (repro: seq<Op>)
    ensures repro <= ops
  {
    var cut :=
      match r.firstDivergence
      case Some(i) => i + 1
      case None => match FirstViolation(r.violations) case Some(i) => i + 1 case None => |ops|;
    ops[..if cut <= |ops| then cut else |ops|]
  }

  lemma {:induction false} IndicesInRange(mode: Refresh, t: Terms, start: Baseline, rounds: seq<Round>)
    ensures forall d :: d in Divergences(mode, start, rounds) ==> d.opIndex < |rounds|
    ensures forall v :: v in Violations(t, rounds) ==> v.opIndex < |rounds|
    ensures forall d :: d in Divergences(mode, start, rounds) ==> Divergences(mode, start, rounds)[0].opIndex <= d.opIndex
    ensures forall v :: v in Violations(t, rounds) ==> Violations(t, rounds)[0].opIndex <= v.opIndex
  {
    if rounds != [] {
      var n := |rounds| - 1;
      IndicesInRange(mode, t, start, rounds[..n]);
      EntriesAreIndexed(n, rounds[n], BaselineAfter(mode, start, rounds[..n]));
      ViolationsInAreIndexed(t, n, rounds[n]);
      var ds, vs := Divergences(mode, start, rounds[..n]), Violations(t, rounds[..n]);
      assert ds != [] ==> ds[0] in ds;
      assert vs != [] ==> vs[0] in vs;
    }
  }

  lemma {:induction false} BeforeAll(ds: seq<Divergence>, vs: seq<Violation>, k: nat)
    ensures (forall d :: d in ds ==> d.opIndex >= k) ==> Before(ds, k) == []
    ensures (forall v :: v in vs ==> v.opIndex >= k) ==> ViolationsBefore(vs, k) == []
    ensures ds != [] && ds[0].opIndex < k ==> Before(ds, k) != [] && Before(ds, k)[0] == ds[0]
    ensures vs != [] && vs[0].opIndex < k ==> ViolationsBefore(vs, k) != [] && ViolationsBefore(vs, k)[0] == vs[0]
    decreases |ds| + |vs|
  {
    if ds != [] {
      assert ds[0] in ds;
      BeforeAll(ds[1..], [], k);
    }
    if vs != [] {
      assert vs[0] in vs;
      BeforeAll([], vs[1..], k);
    }
  }

  /**
   The minimal repro, run again on fresh models, reports the same first divergence (or, when
   there is none, the same first violation) at its last operation, and no shorter prefix
   reports anything of the kind.
   */
  lemma MinimalReproReproduces<S, T>(e: Machine<S>, e0: S, a: Machine<T>, a0: T, t: Terms, ops: seq<Op>)
    ensures
      var start := (e.view(e0), a.view(a0));
      var full := ReportOf(OnExamined, t, start, Rounds(e, e0, a, a0, ops));
      var repro := MinimalRepro(full, ops);
      var again := ReportOf(OnExamined, t, start, Rounds(e, e0, a, a0, repro));
      && again.firstDivergence == full.firstDivergence
      && FirstViolation(again.violations) ==
           (if full.firstDivergence.Some? && full.violations != [] && full.violations[0].opIndex >= |repro| then None
            else FirstViolation(full.violations))
      && (full.firstDivergence.Some? ==> |repro| == full.firstDivergence.value + 1)
      && (full.firstDivergence.None? && full.violations != [] ==> |repro| == full.violations[0].opIndex + 1)
      && (full.firstDivergence.None? && full.violations == [] ==> repro == ops)
      && forall k {:trigger ops[..k]} :: 0 <= k < |repro| ==>
           var shorter := ReportOf(OnExamined, t, start, Rounds(e, e0, a, a0, ops[..k]));
           && shorter.divergences == []
           && (full.firstDivergence.None? ==> shorter.violations == [])
  {
    var start := (e.view(e0), a.view(a0));
    var rounds := Rounds(e, e0, a, a0, ops);
    var full := ReportOf(OnExamined, t, start, rounds);
    var repro := MinimalRepro(full, ops);
    IndicesInRange(OnExamined, t, start, rounds);
    assert full.divergences != [] ==> full.divergences[0] in full.divergences;
    assert full.violations != [] ==> full.violations[0] in full.violations;
    assert repro == ops[..|repro|];
    RoundsOfPrefix(e, e0, a, a0, ops, |repro|);
    PrefixReport(OnExamined, t, start, rounds, |repro|);
    BeforeAll(full.divergences, full.violations, |repro|);
    forall k {:trigger ops[..k]} | 0 <= k < |repro|
      ensures var shorter := ReportOf(OnExamined, t, start, Rounds(e, e0, a, a0, ops[..k]));
        && shorter.divergences == []
        && (full.firstDivergence.None? ==> shorter.violations == [])
    {
      RoundsOfPrefix(e, e0, a, a0, ops, k);
      PrefixReport(OnExamined, t, start, rounds, k);
      BeforeAll(full.divergences, full.violations, k);
    }
  }

  // ---- a recorded trace against the live model it was recorded from ----------------------

  /** A rejected operation leaves the observables of its side as they were. */
  ghost predicate RejectionsChangeNothing(start: Baseline, rounds: seq<Round>) {
    rounds == []
    || var n := |rounds| - 1;
       var was := BaselineAfter(Always, start, rounds[..n]);
       && RejectionsChangeNothing(start, rounds[..n])
       && (rounds[n].expected.outcome.Err? ==> rounds[n].expected.obs == was.0)
       && (rounds[n].actual.outcome.Err? ==> rounds[n].actual.obs == was.1)
  }

  lemma {:induction false} BaselinesAgree(start: Baseline, traceStart: Baseline, rounds: seq<Round>)
    requires RejectionsChangeNothing(start, rounds) && rounds != []
    ensures BaselineAfter(OnExamined, start, rounds) == BaselineAfter(Always, traceStart, rounds)
    decreases |rounds|
  {
    var n := |rounds| - 1;
    if n == 0 {
      assert rounds[..n] == [];
    } else {
      BaselinesAgree(start, traceStart, rounds[..n]);
      BaselinesAgree(start, start, rounds[..n]);
    }
  }

  /** Kept when the baseline of round 0 is the trace's own first observation. */
  predicate KeptByTrace(d: Divergence, start: Baseline, rounds: seq<Round>) {
    d.FieldDiverges? && d.opIndex == 0 && rounds != [] ==>
      start.0.Get(d.field) != rounds[0].expected.obs.Get(d.field)
  }

  function Kept(ds: seq<Divergence>, start: Baseline, rounds: seq<Round>): seq<Divergence> {
    if ds == [] then []
    else (if KeptByTrace(ds[0], start, rounds) then [ds[0]] else []) + Kept(ds[1..], start, rounds)
  }

  lemma {:induction false} KeptSplits(xs: seq<Divergence>, ys: seq<Divergence>, start: Baseline, rounds: seq<Round>)
    ensures Kept(xs + ys, start, rounds) == Kept(xs, start, rounds) + Kept(ys, start, rounds)
  {
    if xs == [] {
      assert xs + ys == ys;
    } else {
      assert (xs + ys)[1..] == xs[1..] + ys;
      KeptSplits(xs[1..], ys, start, rounds);
    }
  }

  lemma {:induction false} KeptAll(ds: seq<Divergence>, start: Baseline, rounds: seq<Round>)
    ensures |Kept(ds, start, rounds)| <= |ds|
    ensures Kept(ds, start, rounds) == ds <==> forall d :: d in ds ==> KeptByTrace(d, start, rounds)
  {
    if ds != [] {
      KeptAll(ds[1..], start, rounds);
      assert ds == [ds[0]] + ds[1..];
    }
  }

  lemma {:induction false} KeptDependsOnRoundZero(ds: seq<Divergence>, start: Baseline, rounds: seq<Round>, longer: seq<Round>)
    requires rounds != [] && longer != [] && rounds[0] == longer[0]
    ensures Kept(ds, start, rounds) == Kept(ds, start, longer)
  {
    if ds != [] {
      KeptDependsOnRoundZero(ds[1..], start, rounds, longer);
    }
  }

  lemma {:induction false} RoundZeroFields(r: Round, start: Baseline, fields: seq<Field>)
    ensures FieldEntries(0, r, (start.0, r.actual.obs), fields) == Kept(FieldEntries(0, r, start, fields), start, [r])
  {
    if fields != [] {
      RoundZeroFields(r, start, fields[1..]);
      KeptSplits(FieldEntries(0, r, start, fields[..1]), FieldEntries(0, r, start, fields[1..]), start, [r]);
      var f := fields[0];
      var head := if Changed(f, start, r) then [FieldDiverges(0, r.op, f, r.expected.obs.Get(f), r.actual.obs.Get(f))] else [];
      assert fields[..1] == [f] && fields[..1][1..] == [];
      assert FieldEntries(0, r, start, fields[..1]) == head;
      assert FieldEntries(0, r, start, fields) == head + FieldEntries(0, r, start, fields[1..]);
    }
  }

  lemma RoundZero(r: Round, start: Baseline)
    ensures Entries(0, r, (start.0, r.actual.obs)) == Kept(Entries(0, r, start), start, [r])
  {
    var fields := Differences(r.expected.obs, r.actual.obs);
    RoundZeroFields(r, start, fields);
    KeptSplits(ResultEntries(0, r), FieldEntries(0, r, start, fields), start, [r]);
    KeptAll(ResultEntries(0, r), start, [r]);
  }

  lemma {:induction false} TraceDivergences(start: Baseline, rounds: seq<Round>)
    requires RejectionsChangeNothing(start, rounds) && rounds != []
    ensures Divergences(Always, (start.0, rounds[0].actual.obs), rounds)
         == Kept(Divergences(OnExamined, start, rounds), start, rounds)
  {
    var n := |rounds| - 1;
    var traceStart := (start.0, rounds[0].actual.obs);
    if n == 0 {
      assert rounds[..n] == [] && rounds == [rounds[0]];
      RoundZero(rounds[0], start);
      OneRound(Always, traceStart, rounds[0]);
      OneRound(OnExamined, start, rounds[0]);
    } else {
      var pre := rounds[..n];
      TraceDivergences(start, pre);
      BaselinesAgree(start, traceStart, pre);
      var entries := Entries(n, rounds[n], BaselineAfter(OnExamined, start, pre));
      EntriesAreIndexed(n, rounds[n], BaselineAfter(OnExamined, start, pre));
      KeptAll(entries, start, rounds);
      KeptSplits(Divergences(OnExamined, start, pre), entries, start, rounds);
      KeptDependsOnRoundZero(Divergences(OnExamined, start, pre), start, pre, rounds);
    }
  }

  /** The trace lists, in order, exactly what the model answered. */
  ghost predicate IsRecording<T>(trace: Trace, a: Machine<T>, a0: T, ops: seq<Op>) {
    && |trace.steps| == |ops|
    && forall i :: 0 <= i < |ops| ==>
         trace.steps[i].opIndex == i && Recorded(trace.steps[i]) == ReplyTo(a, After(a, a0, ops[..i]), ops[i])
  }

  lemma {:induction false} FindRecordedStep(steps: seq<TraceStep>, i: nat, k: nat)
    requires k <= i < k + |steps|
    requires forall j :: 0 <= j < |steps| ==> steps[j].opIndex == k + j
    ensures FindStep(steps, i) == Some(steps[i - k])
  {
    if steps[0].opIndex != i {
      FindRecordedStep(steps[1..], i, k + 1);
    }
  }

  lemma RecordingGivesTheSameRounds<S, T>(e: Machine<S>, e0: S, a: Machine<T>, a0: T, trace: Trace, ops: seq<Op>)
    requires IsRecording(trace, a, a0, ops)
    ensures TraceRounds(e, e0, trace, ops) == Rounds(e, e0, a, a0, ops)
  {
    forall i: nat | i < |ops|
      ensures FindStep(trace.steps, i) == Some(trace.steps[i])
    {
      FindRecordedStep(trace.steps, i, 0);
    }
    var covered := Covered(trace.steps, 0, |ops|);
    if covered < |ops| {
      assert FindStep(trace.steps, covered).None?;
    }
  }

  /** What a run of the model writes down for one operation. */
  function StepFor(i: nat, reply: Reply): TraceStep {
    TraceStep(i, reply.obs, match reply.outcome case Ok => None case Err(message) => Some(message))
  }

  ghost function RecordingOf<T>(name: string, a: Machine<T>, a0: T, ops: seq<Op>): Trace {
    Trace(name, seq(|ops|, i requires 0 <= i < |ops| => StepFor(i, ReplyTo(a, After(a, a0, ops[..i]), ops[i]))))
  }

  /** Writing a run down, with an error exactly where the model rejects, is a faithful recording: reading gives the replies back. */
  lemma RecordingsAreFaithful<T>(name: string, a: Machine<T>, a0: T, ops: seq<Op>)
    ensures IsRecording(RecordingOf(name, a, a0, ops), a, a0, ops)
  {
  }

  lemma {:induction false} CoveredExactly(steps: seq<TraceStep>, i: nat, n: nat, total: nat)
    requires i <= n <= total && forall k: nat :: i <= k < n ==> FindStep(steps, k).Some?
    requires n < total ==> FindStep(steps, n).None?
    ensures Covered(steps, i, total) == n
    decreases n - i
  {
    if i < n {
      CoveredExactly(steps, i + 1, n, total);
    }
  }

  /** A trace without a step for operation n is compared up to there: a "trace" divergence is reported for n, and nothing after it. */
  lemma TraceStopsAtTheFirstGap<S>(t: Terms, e: Machine<S>, e0: S, trace: Trace, ops: seq<Op>, n: nat) returns (prior: seq<Divergence>)
    requires n <= |ops| && forall k: nat :: k < n ==> FindStep(trace.steps, k).Some?
    requires n < |ops| ==> FindStep(trace.steps, n).None?
    ensures TraceReportOf(t, e, e0, trace, ops).divergences
      == prior + (if n == |ops| then [] else [StepMissing(n, ops[n], e.step(After(e, e0, ops[..n]), ops[n]).1)])
    ensures forall d :: d in prior ==> d.opIndex < n && !d.StepMissing?
    ensures prior == Divergences(Always, (e.view(e0), FirstObserved(trace.steps)), TraceRounds(e, e0, trace, ops))
  {
    hide Divergences, FindStep;
    var rounds := TraceRounds(e, e0, trace, ops);
    var start := (e.view(e0), FirstObserved(trace.steps));
    CoveredExactly(trace.steps, 0, n, |ops|);
    prior := Divergences(Always, start, rounds);
    OnlyEarlierRounds(Always, start, rounds);
  }

  /** At operation 0 the program moved this field away from a reference that kept it. */
  ghost predicate LostByTrace(f: Field, start: Baseline, rounds: seq<Round>) {
    && rounds != [] && !RejectedAlike(rounds[0])
    && rounds[0].expected.obs.Get(f) != rounds[0].actual.obs.Get(f)
    && start.0.Get(f) == rounds[0].expected.obs.Get(f)
    && start.1.Get(f) != rounds[0].actual.obs.Get(f)
  }

  /** All divergences are kept exactly when no field is lost at operation 0. */
  lemma AllKeptIffNoneLost(start: Baseline, rounds: seq<Round>)
    ensures Kept(Divergences(OnExamined, start, rounds), start, rounds) == Divergences(OnExamined, start, rounds)
      <==> forall f :: !LostByTrace(f, start, rounds)
  {
    var ds := Divergences(OnExamined, start, rounds);
    KeptAll(ds, start, rounds);
    hide Divergences, Kept;
    forall f | LostByTrace(f, start, rounds)
      ensures exists d :: d in ds && !KeptByTrace(d, start, rounds)
    {
      var r := rounds[0];
      var d := FieldDiverges(0, r.op, f, r.expected.obs.Get(f), r.actual.obs.Get(f));
      assert rounds[..0] == [];
      DivergencesAreExact(OnExamined, start, rounds, d);
      assert d in ds && !KeptByTrace(d, start, rounds);
    }
    forall d | d in ds && !KeptByTrace(d, start, rounds)
      ensures LostByTrace(d.field, start, rounds)
    {
      assert rounds[..0] == [];
      DivergencesAreExact(OnExamined, start, rounds, d);
    }
  }

  /**
   Against a faithful recording, the trace comparison reports what the live comparison
   reports, except that at operation 0 it keeps a differing field only if the reference
   side changed it.
   */
  lemma TraceReportIsTheLiveReport<S, T>(e: Machine<S>, e0: S, a: Machine<T>, a0: T, t: Terms, trace: Trace, ops: seq<Op>)
    requires IsRecording(trace, a, a0, ops)
    requires RejectionsChangeNothing((e.view(e0), a.view(a0)), Rounds(e, e0, a, a0, ops))
    ensures
      var start := (e.view(e0), a.view(a0));
      var rounds := Rounds(e, e0, a, a0, ops);
      var live := ReportOf(OnExamined, t, start, rounds);
      var fromTrace := TraceReportOf(t, e, e0, trace, ops);
      && fromTrace.divergences == Kept(live.divergences, start, rounds)
      && (fromTrace.divergences == live.divergences <==> forall f :: !LostByTrace(f, start, rounds))
      && fromTrace.violations == live.violations
      && fromTrace.agreedErrors == live.agreedErrors
  {
    RecordingGivesTheSameRounds(e, e0, a, a0, trace, ops);
    var rounds := Rounds(e, e0, a, a0, ops);
    AllKeptIffNoneLost((e.view(e0), a.view(a0)), rounds);
    if ops != [] {
      TraceDivergences((e.view(e0), a.view(a0)), rounds);
      assert rounds[0].actual == Recorded(trace.steps[0]);
      assert (e.view(e0), rounds[0].actual.obs) == (e.view(e0), FirstObserved(trace.steps));
    }
  }

  /** Whatever the program moves at operation 0 while the reference stands still is lost by the trace comparison. */
  lemma TraceCanMissOperationZero(start: Baseline, r: Round)
    requires start.0 == start.1 && r.Disagrees()
    requires r.expected == Reply(Ok, start.0) && r.actual.outcome.Ok?
    ensures FirstIndex(Divergences(OnExamined, start, [r])) == Some(0)
    ensures Divergences(Always, (start.0, r.actual.obs), [r]) == []
  {
    OneRound(OnExamined, start, r);
    DisagreementIsReported(0, r, start);
    EntriesAreIndexed(0, r, start);
    NothingMovedNothingReported(Always, r, (start.0, r.actual.obs));
  }
}
