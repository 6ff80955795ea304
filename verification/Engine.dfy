/**
 The differential engine: run one scenario on two models in lockstep and report where
 their observable states part. A run is described by its rounds (one per operation);
 the loops of Compare and CompareWithTrace are proved to compute ReportOf those rounds,
 and the properties of the report are lemmas about ReportOf.
 */
module Engine {
  import opened Wrappers
  import opened Scenario

  // ---- models ----------------------------------------------------------------------

  /** The code of a deterministic model: a transition function and what can be observed. */
  datatype Machine<!S> = Machine(name: string, step: (S, Op) -> (S, Outcome), view: S -> Observables)

  /** A running model (`dyn ProgramModel`): `Apply` mutates the state, `Observe` reads it. */
  class ProgramModel<S> {
    const code: Machine<S>
    var state: S

    constructor (code: Machine<S>, start: S)
      ensures this.code == code && state == start
    {
      this.code := code;
      state := start;
    }

    method Apply(op: Op) returns (r: Outcome)
      modifies this
      ensures (state, r) == code.step(old(state), op)
    {
      var next, outcome := code.step(state, op).0, code.step(state, op).1;
      state := next;
      r := outcome;
    }

    function Observe(): Observables
      reads this
    {
      code.view(state)
    }
  }

  ghost function After<S>(m: Machine<S>, start: S, ops: seq<Op>): S {
    if ops == [] then start else m.step(After(m, start, ops[..|ops| - 1]), ops[|ops| - 1]).0
  }

  /** What one side answers to one operation. */
  datatype Reply = Reply(outcome: Outcome, obs: Observables)

  ghost function ReplyTo<S>(m: Machine<S>, s: S, op: Op): Reply {
    Reply(m.step(s, op).1, m.view(m.step(s, op).0))
  }

  datatype Round = Round(op: Op, expected: Reply, actual: Reply) {
    /** Both sides rejected with the same error: parity, not divergence. */
    predicate Agreed(): (agreed: bool)
      ensures agreed <==> exists message :: expected.outcome == Err(message) && actual.outcome == Err(message)
    {
      assert expected.outcome.Err? ==> expected.outcome == Err(expected.outcome.message);
      expected.outcome.Err? && expected.outcome == actual.outcome
    }

    /** The sides visibly disagree: their answers differ, or both accept and an observable differs. */
    predicate Disagrees() {
      expected.outcome != actual.outcome || (expected.outcome == Ok && expected.obs != actual.obs)
    }
  }

  ghost function RoundAt<S, T>(e: Machine<S>, e0: S, a: Machine<T>, a0: T, ops: seq<Op>, i: nat): Round
    requires i < |ops|
  {
    Round(ops[i], ReplyTo(e, After(e, e0, ops[..i]), ops[i]), ReplyTo(a, After(a, a0, ops[..i]), ops[i]))
  }

  ghost function Rounds<S, T>(e: Machine<S>, e0: S, a: Machine<T>, a0: T, ops: seq<Op>): (rs: seq<Round>)
    ensures |rs| == |ops|
    ensures forall i :: 0 <= i < |ops| ==> rs[i] == RoundAt(e, e0, a, a0, ops, i)
  {
    seq(|ops|, i requires 0 <= i < |ops| => RoundAt(e, e0, a, a0, ops, i))
  }

  lemma RoundsOfPrefix<S, T>(e: Machine<S>, e0: S, a: Machine<T>, a0: T, ops: seq<Op>, k: nat)
    requires k <= |ops|
    ensures Rounds(e, e0, a, a0, ops[..k]) == Rounds(e, e0, a, a0, ops)[..k]
  {
    forall i | 0 <= i < k
      ensures RoundAt(e, e0, a, a0, ops[..k], i) == RoundAt(e, e0, a, a0, ops, i)
    {
      assert ops[..k][..i] == ops[..i];
    }
  }

  // ---- the report of a sequence of rounds --------------------------------------------

  datatype Divergence =
    | ResultDiverges(opIndex: nat, op: Op, expected: Outcome, actual: Outcome)
    | FieldDiverges(opIndex: nat, op: Op, field: Field, expectedValue: u64, actualValue: u64)
    | StepMissing(opIndex: nat, op: Op, expected: Outcome)

  datatype Violation = Violation(opIndex: nat, model: string, broken: Invariant)

  datatype Report = Report(
    expectedModel: string, actualModel: string, firstDivergence: Option<nat>,
    divergences: seq<Divergence>, violations: seq<Violation>, agreedErrors: nat)

  /** The observations (expected, actual) against which "changed" is judged. */
  type Baseline = (Observables, Observables)

  /** When the baseline moves on: only on examined rounds (`compare`) or on every round (`compare_with_trace`). */
  datatype Refresh = OnExamined | Always

  function BaselineAfter(mode: Refresh, start: Baseline, rounds: seq<Round>): Baseline {
    if rounds == [] then start
    else
      var last := rounds[|rounds| - 1];
      if mode == OnExamined && last.Agreed() then BaselineAfter(mode, start, rounds[..|rounds| - 1])
      else (last.expected.obs, last.actual.obs)
  }

  predicate Changed(f: Field, before: Baseline, r: Round) {
    before.0.Get(f) != r.expected.obs.Get(f) || before.1.Get(f) != r.actual.obs.Get(f)
  }

  function FieldEntries(i: nat, r: Round, before: Baseline, fields: seq<Field>): seq<Divergence> {
    if fields == [] then []
    else
      (if Changed(fields[0], before, r)
       then [FieldDiverges(i, r.op, fields[0], r.expected.obs.Get(fields[0]), r.actual.obs.Get(fields[0]))]
       else [])
      + FieldEntries(i, r, before, fields[1..])
  }

  function ResultEntries(i: nat, r: Round): seq<Divergence> {
    if r.expected.outcome.Err? || r.actual.outcome.Err?
    then [ResultDiverges(i, r.op, r.expected.outcome, r.actual.outcome)]
    else []
  }

  function Entries(i: nat, r: Round, before: Baseline): seq<Divergence> {
    if r.Agreed() then []
    else ResultEntries(i, r) + FieldEntries(i, r, before, Differences(r.expected.obs, r.actual.obs))
  }

  function Divergences(mode: Refresh, start: Baseline, rounds: seq<Round>): seq<Divergence> {
    if rounds == [] then []
    else
      var n := |rounds| - 1;
      Divergences(mode, start, rounds[..n]) + Entries(n, rounds[n], BaselineAfter(mode, start, rounds[..n]))
  }

  function FirstIndex(ds: seq<Divergence>): Option<nat> {
    if ds == [] then None else Some(ds[0].opIndex)
  }

  function BrokenBy(i: nat, model: string, o: Observables, invs: seq<Invariant>): seq<Violation> {
    if invs == [] then []
    else (if Holds(invs[0], o) then [] else [Violation(i, model, invs[0])]) + BrokenBy(i, model, o, invs[1..])
  }

  /** The two model names and the invariants to check. */
  datatype Terms = Terms(expectedName: string, actualName: string, invariants: seq<Invariant>)

  function ViolationsIn(t: Terms, i: nat, r: Round): seq<Violation> {
    if r.Agreed() then []
    else
      (if r.expected.outcome.Ok? then BrokenBy(i, t.expectedName, r.expected.obs, t.invariants) else [])
      + (if r.actual.outcome.Ok? then BrokenBy(i, t.actualName, r.actual.obs, t.invariants) else [])
  }

  function Violations(t: Terms, rounds: seq<Round>): seq<Violation> {
    if rounds == [] then []
    else Violations(t, rounds[..|rounds| - 1]) + ViolationsIn(t, |rounds| - 1, rounds[|rounds| - 1])
  }

  function AgreedErrors(rounds: seq<Round>): nat {
    if rounds == [] then 0
    else AgreedErrors(rounds[..|rounds| - 1]) + (if rounds[|rounds| - 1].Agreed() then 1 else 0)
  }

  function ReportOf(mode: Refresh, t: Terms, start: Baseline, rounds: seq<Round>): Report {
    var ds := Divergences(mode, start, rounds);
    Report(t.expectedName, t.actualName, FirstIndex(ds), ds, Violations(t, rounds), AgreedErrors(rounds))
  }

  // ---- compare -------------------------------------------------------------------------

  method RecordViolations(invs: seq<Invariant>, o: Observables, model: string, i: nat, out: seq<Violation>)
      returns (r: seq<Violation>)
    ensures r == out + BrokenBy(i, model, o, invs)
  {
    r := out;
    for k := 0 to |invs|
      invariant r + BrokenBy(i, model, o, invs[k..]) == out + BrokenBy(i, model, o, invs)
    {
      if !Holds(invs[k], o) {
        r := r + [Violation(i, model, invs[k])];
      }
    }
  }

  /** The field loop shared by both comparisons. */
  method RecordFields(i: nat, round: Round, before: Baseline, fields: seq<Field>, out: seq<Divergence>)
      returns (r: seq<Divergence>)
    ensures r == out + FieldEntries(i, round, before, fields)
  {
    hide Changed;
    r := out;
    for k := 0 to |fields|
      invariant r + FieldEntries(i, round, before, fields[k..]) == out + FieldEntries(i, round, before, fields)
    {
      var f := fields[k];
      if Changed(f, before, round) {
        r := r + [FieldDiverges(i, round.op, f, round.expected.obs.Get(f), round.actual.obs.Get(f))];
      }
    }
  }

  /** The mutable variables of both comparison loops. */
  datatype Tally = Tally(
    before: Baseline, first: Option<nat>, divergences: seq<Divergence>, violations: seq<Violation>, agreedErrors: nat)

  /** The values of the loop variables once `rounds` have been played. */
  function TallyOf(mode: Refresh, t: Terms, start: Baseline, rounds: seq<Round>): Tally {
    var ds := Divergences(mode, start, rounds);
    Tally(BaselineAfter(mode, start, rounds), FirstIndex(ds), ds, Violations(t, rounds), AgreedErrors(rounds))
  }

  /** The body of both loops: play one round. */
  method PlayRound(mode: Refresh, t: Terms, i: nat, round: Round, tally: Tally) returns (r: Tally)
    requires tally.first == FirstIndex(tally.divergences)
    ensures r.divergences == tally.divergences + Entries(i, round, tally.before)
    ensures r.violations == tally.violations + ViolationsIn(t, i, round)
    ensures r.agreedErrors == tally.agreedErrors + (if round.Agreed() then 1 else 0)
    ensures r.before == if mode == OnExamined && round.Agreed() then tally.before else (round.expected.obs, round.actual.obs)
    ensures r.first == FirstIndex(r.divergences)
  {
    hide FieldEntries, BrokenBy, Differences;
    var now := (round.expected.obs, round.actual.obs);
    if round.Agreed() {
      r := tally.(agreedErrors := tally.agreedErrors + 1, before := if mode == OnExamined then tally.before else now);
      return;
    }
    var violations, divergences := tally.violations, tally.divergences;
    if round.expected.outcome.Ok? {
      violations := RecordViolations(t.invariants, round.expected.obs, t.expectedName, i, violations);
    }
    if round.actual.outcome.Ok? {
      violations := RecordViolations(t.invariants, round.actual.obs, t.actualName, i, violations);
    }
    if round.expected.outcome.Err? || round.actual.outcome.Err? {
      divergences := divergences + [ResultDiverges(i, round.op, round.expected.outcome, round.actual.outcome)];
    }
    divergences :=
      RecordFields(i, round, tally.before, Differences(round.expected.obs, round.actual.obs), divergences);
    EntriesAreIndexed(i, round, tally.before);
    assert divergences == tally.divergences + Entries(i, round, tally.before);
    var first := if tally.first.None? && divergences != [] then Some(i) else tally.first;
    r := Tally(now, first, divergences, violations, tally.agreedErrors);
  }

  lemma TallyStep(mode: Refresh, t: Terms, start: Baseline, rounds: seq<Round>, i: nat, r: Tally)
    requires i < |rounds|
    requires var was := TallyOf(mode, t, start, rounds[..i]);
      && r.divergences == was.divergences + Entries(i, rounds[i], was.before)
      && r.violations == was.violations + ViolationsIn(t, i, rounds[i])
      && r.agreedErrors == was.agreedErrors + (if rounds[i].Agreed() then 1 else 0)
      && r.before == (if mode == OnExamined && rounds[i].Agreed() then was.before else (rounds[i].expected.obs, rounds[i].actual.obs))
      && r.first == FirstIndex(r.divergences)
    ensures r == TallyOf(mode, t, start, rounds[..i + 1])
  {
    assert rounds[..i + 1][..i] == rounds[..i];
  }

  lemma AfterStep<S>(m: Machine<S>, start: S, ops: seq<Op>, i: nat)
    requires i < |ops|
    ensures After(m, start, ops[..i + 1]) == m.step(After(m, start, ops[..i]), ops[i]).0
  {
    assert ops[..i + 1][..i] == ops[..i];
  }

  function OrDefault(invs: seq<Invariant>): (r: seq<Invariant>)
    ensures r == invs || (invs == [] && r == DEFAULT_INVARIANTS)
    ensures r != []
  {
    if invs == [] then DEFAULT_INVARIANTS else invs
  }

  method Compare<S, T>(ops: seq<Op>, invariants: seq<Invariant>, expected: ProgramModel<S>, actual: ProgramModel<T>)
      returns (report: Report)
    requires (expected as object) != actual
    modifies expected, actual
    ensures report == ReportOf(OnExamined,
      Terms(expected.code.name, actual.code.name, OrDefault(invariants)),
      (expected.code.view(old(expected.state)), actual.code.view(old(actual.state))),
      Rounds(expected.code, old(expected.state), actual.code, old(actual.state), ops))
    ensures report.expectedModel == expected.code.name && report.actualModel == actual.code.name
    ensures expected.state == After(expected.code, old(expected.state), ops)
    ensures actual.state == After(actual.code, old(actual.state), ops)
  {
    var t := Terms(expected.code.name, actual.code.name, OrDefault(invariants));
    var tally := Tally((expected.Observe(), actual.Observe()), None, [], [], 0);
    ghost var start := tally.before;
    ghost var rounds := Rounds(expected.code, expected.state, actual.code, actual.state, ops);
    for i := 0 to |ops|
      invariant expected.state == After(expected.code, old(expected.state), ops[..i])
      invariant actual.state == After(actual.code, old(actual.state), ops[..i])
      invariant tally == TallyOf(OnExamined, t, start, rounds[..i])
    {
      AfterStep(expected.code, old(expected.state), ops, i);
      AfterStep(actual.code, old(actual.state), ops, i);
      var er := expected.Apply(ops[i]);
      var ar := actual.Apply(ops[i]);
      var round := Round(ops[i], Reply(er, expected.Observe()), Reply(ar, actual.Observe()));
      assert round == RoundAt(expected.code, old(expected.state), actual.code, old(actual.state), ops, i);
      tally := PlayRound(OnExamined, t, i, round, tally);
      TallyStep(OnExamined, t, start, rounds, i, tally);
    }
    assert rounds[..|ops|] == rounds && ops[..|ops|] == ops;
    report := Report(t.expectedName, t.actualName, tally.first, tally.divergences, tally.violations, tally.agreedErrors);
  }

  // ---- compare_with_trace -----------------------------------------------------------------

  datatype TraceStep = TraceStep(opIndex: nat, obs: Observables, error: Option<string>)

  datatype Trace = Trace(model: string, steps: seq<TraceStep>)

  /** The first step of that index. */
  function FindStep(steps: seq<TraceStep>, i: nat): (r: Option<TraceStep>)
    ensures r.Some? ==> r.value in steps && r.value.opIndex == i
    ensures r.None? ==> forall s :: s in steps ==> s.opIndex != i
  {
    if steps == [] then None
    else if steps[0].opIndex == i then Some(steps[0])
    else FindStep(steps[1..], i)
  }

  /** Of several steps with the same index the earliest is found. */
  lemma {:induction false} TheFirstStepIsFound(steps: seq<TraceStep>, i: nat, k: nat)
    requires k < |steps| && steps[k].opIndex == i && forall j :: 0 <= j < k ==> steps[j].opIndex != i
    ensures FindStep(steps, i) == Some(steps[k])
  {
    if k > 0 {
      TheFirstStepIsFound(steps[1..], i, k - 1);
    }
  }

  /** How many leading operations the trace has a step for. */
  function Covered(steps: seq<TraceStep>, i: nat, n: nat): (r: nat)
    requires i <= n
    ensures i <= r <= n
    ensures forall k :: i <= k < r ==> FindStep(steps, k).Some?
    ensures r < n ==> FindStep(steps, r).None?
    decreases n - i
  {
    if i == n || FindStep(steps, i).None? then i else Covered(steps, i + 1, n)
  }

  function Recorded(s: TraceStep): Reply {
    Reply(if s.error.Some? then Err(s.error.value) else Ok, s.obs)
  }

  function FirstObserved(steps: seq<TraceStep>): Observables {
    if steps == [] then NOTHING_OBSERVED else steps[0].obs
  }

  ghost function TraceRoundAt<S>(e: Machine<S>, e0: S, trace: Trace, ops: seq<Op>, i: nat): Round
    requires i < |ops| && FindStep(trace.steps, i).Some?
  {
    Round(ops[i], ReplyTo(e, After(e, e0, ops[..i]), ops[i]), Recorded(FindStep(trace.steps, i).value))
  }

  ghost function TraceRounds<S>(e: Machine<S>, e0: S, trace: Trace, ops: seq<Op>): (rs: seq<Round>)
    ensures |rs| == Covered(trace.steps, 0, |ops|)
    ensures forall i :: 0 <= i < |rs| ==> rs[i] == TraceRoundAt(e, e0, trace, ops, i)
  {
    var n := Covered(trace.steps, 0, |ops|);
    seq(n, i requires 0 <= i < n => TraceRoundAt(e, e0, trace, ops, i))
  }

  /** The report against a trace; it stops at the first operation the trace does not cover. */
  ghost function TraceReportOf<S>(t: Terms, e: Machine<S>, e0: S, trace: Trace, ops: seq<Op>): Report {
    var rounds := TraceRounds(e, e0, trace, ops);
    var n := |rounds|;
    var missing := if n == |ops| then [] else [StepMissing(n, ops[n], ReplyTo(e, After(e, e0, ops[..n]), ops[n]).outcome)];
    var ds := Divergences(Always, (e.view(e0), FirstObserved(trace.steps)), rounds) + missing;
    Report(t.expectedName, t.actualName, FirstIndex(ds), ds, Violations(t, rounds), AgreedErrors(rounds))
  }

  method CompareWithTrace<S>(ops: seq<Op>, invariants: seq<Invariant>, expected: ProgramModel<S>, trace: Trace)
      returns (report: Report)
    modifies expected
    ensures report == TraceReportOf(Terms(expected.code.name, trace.model, OrDefault(invariants)),
                                    expected.code, old(expected.state), trace, ops)
    ensures report.expectedModel == expected.code.name && report.actualModel == trace.model
  {
    var t := Terms(expected.code.name, trace.model, OrDefault(invariants));
    var tally := Tally((expected.Observe(), FirstObserved(trace.steps)), None, [], [], 0);
    ghost var start := tally.before;
    ghost var rounds := TraceRounds(expected.code, expected.state, trace, ops);
    for i := 0 to |ops|
      invariant i <= |rounds|
      invariant expected.state == After(expected.code, old(expected.state), ops[..i])
      invariant tally == TallyOf(Always, t, start, rounds[..i])
    {
      AfterStep(expected.code, old(expected.state), ops, i);
      var er := expected.Apply(ops[i]);
      var found := FindStep(trace.steps, i);
      if found.None? {
        var ds := tally.divergences + [StepMissing(i, ops[i], er)];
        assert rounds[..i] == rounds;
        report := Report(t.expectedName, t.actualName, FirstIndex(ds), ds, tally.violations, tally.agreedErrors);
        return;
      }
      var round := Round(ops[i], Reply(er, expected.Observe()), Recorded(found.value));
      assert round == TraceRoundAt(expected.code, old(expected.state), trace, ops, i);
      tally := PlayRound(Always, t, i, round, tally);
      TallyStep(Always, t, start, rounds, i, tally);
    }
    assert rounds[..|ops|] == rounds;
    report := Report(t.expectedName, t.actualName, tally.first, tally.divergences, tally.violations, tally.agreedErrors);
  }

  // ---- elementary facts --------------------------------------------------------------------

  lemma {:induction false} FieldEntriesAreIndexed(i: nat, r: Round, before: Baseline, fields: seq<Field>)
    ensures forall d :: d in FieldEntries(i, r, before, fields) ==> d.opIndex == i && d.FieldDiverges?
    ensures FieldEntries(i, r, before, fields) == [] <==> forall f :: f in fields ==> !Changed(f, before, r)
  {
    if fields != [] {
      FieldEntriesAreIndexed(i, r, before, fields[1..]);
      assert fields == [fields[0]] + fields[1..];
    }
  }

  lemma EntriesAreIndexed(i: nat, r: Round, before: Baseline)
    ensures forall d :: d in Entries(i, r, before) ==> d.opIndex == i
    ensures Entries(i, r, before) != [] ==> Entries(i, r, before)[0].opIndex == i && r.Disagrees()
  {
    FieldEntriesAreIndexed(i, r, before, Differences(r.expected.obs, r.actual.obs));
    assert Entries(i, r, before) != [] ==> Entries(i, r, before)[0] in Entries(i, r, before);
  }
}
