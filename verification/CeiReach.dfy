/**
 The CEI walker on whole function bodies: every finding is a violation unless the write is
 dead code, findings are complete where interactions are statements, and where it goes wrong.
 */
module CeiReach {
  import opened Wrappers
  import opened Cei
  import opened CeiOutcomes
  import opened CeiTheorems

  // ---- what is said about executions -----------------------------------------------------------

  /** Every effect at this site comes after some interaction. */
  ghost predicate Guarded(t: seq<Event>, site: Site) {
    forall j :: 0 <= j < |t| && t[j] == Effect(site) ==> exists i :: 0 <= i < j && t[i] == Interaction
  }

  /** Some effect happens after some interaction. */
  ghost predicate EffectAfterInteraction(t: seq<Event>) {
    exists i, j :: 0 <= i < j < |t| && t[i] == Interaction && t[j].Effect?
  }

  lemma GuardedOrShown(r: Run, site: Site)
    ensures Guarded(r.trace, site) <==> !Shows(r, WritesAt(site, false))
  {
    var t := r.trace;
    if !Guarded(t, site) {
      var j :| 0 <= j < |t| && t[j] == Effect(site) && !exists i :: 0 <= i < j && t[i] == Interaction;
      assert !Seen(t[..j]);
    } else {
      forall j | 0 <= j < |t| && t[j] == Effect(site)
        ensures Seen(t[..j])
      {
        var i :| 0 <= i < j && t[i] == Interaction;
        assert t[..j][i] == Interaction;
      }
    }
  }

  lemma ReachedOrShown(r: Run, site: Site)
    ensures Effect(site) in r.trace <==> Shows(r, WritesAt(site, false)) || Shows(r, WritesAt(site, true))
  {
    if Effect(site) in r.trace {
      var j :| 0 <= j < |r.trace| && r.trace[j] == Effect(site);
      assert Shows(r, WritesAt(site, Seen(r.trace[..j])));
    }
  }

  lemma AfterOrShown(r: Run)
    ensures EffectAfterInteraction(r.trace) <==> exists site :: Shows(r, WritesAt(site, true))
  {
    var t := r.trace;
    if EffectAfterInteraction(t) {
      var i, j :| 0 <= i < j < |t| && t[i] == Interaction && t[j].Effect?;
      assert t[..j][i] == Interaction;
      assert Shows(r, WritesAt(t[j].site, true));
    } else {
      forall site, j | 0 <= j < |t| && t[j] == Effect(site)
        ensures !Seen(t[..j])
      {
        assert forall i :: 0 <= i < j ==> t[..j][i] == t[i];
      }
    }
  }

  /** Computed on the tree: control may get to the write. */
  predicate MayReach(body: seq<Stmt>, site: Site) {
    WritesAt(site, false) in OutcomesOfBlock(body) || WritesAt(site, true) in OutcomesOfBlock(body)
  }

  predicate MayComplete(a: set<Outcome>) {
    Completes(false) in a || Completes(true) in a
  }

  lemma ShownByBlock(body: seq<Stmt>, o: Outcome)
    ensures o in OutcomesOfBlock(body) <==> exists c: seq<nat> :: Shows(ExecBlock(body, c), o)
  {
    OutcomesOfBlockAreExact(body);
    hide OutcomesOfBlock;
    ShownIffIn(RunningBlock(body), OutcomesOfBlock(body), o);
    assert forall c :: RunningBlock(body)(c) == ExecBlock(body, c);
    hide Shows, ExecBlock;
    if o in OutcomesOfBlock(body) {
      var c: seq<nat> :| Shows(RunningBlock(body)(c), o);
      assert Shows(ExecBlock(body, c), o);
    }
    if exists c: seq<nat> :: Shows(ExecBlock(body, c), o) {
      var c: seq<nat> :| Shows(ExecBlock(body, c), o);
      assert Shows(RunningBlock(body)(c), o);
      assert o in OutcomesOfBlock(body);
    }
  }

  /** Reachability and order of writes over all executions, decided on the tree. */
  lemma ExecutionsAreDecided(body: seq<Stmt>, site: Site)
    ensures (exists c: seq<nat> :: Effect(site) in ExecBlock(body, c).trace) <==> MayReach(body, site)
    ensures (forall c: seq<nat> :: Guarded(ExecBlock(body, c).trace, site)) <==> NeverFirst(OutcomesOfBlock(body), site)
  {
    hide ExecBlock, OutcomesOfBlock, Guarded, Shows;
    ShownByBlock(body, WritesAt(site, false));
    ShownByBlock(body, WritesAt(site, true));
    forall c: seq<nat>
      ensures Guarded(ExecBlock(body, c).trace, site) <==> !Shows(ExecBlock(body, c), WritesAt(site, false))
      ensures Effect(site) in ExecBlock(body, c).trace
        <==> Shows(ExecBlock(body, c), WritesAt(site, false)) || Shows(ExecBlock(body, c), WritesAt(site, true))
    {
      GuardedOrShown(ExecBlock(body, c), site);
      ReachedOrShown(ExecBlock(body, c), site);
    }
  }

  lemma ViolationIsComputed(body: seq<Stmt>, c: seq<nat>)
    requires EffectAfterInteraction(ExecBlock(body, c).trace)
    ensures exists site :: WritesAt(site, true) in OutcomesOfBlock(body)
  {
    hide ExecBlock, OutcomesOfBlock, EffectAfterInteraction, Shows;
    AfterOrShown(ExecBlock(body, c));
    var site :| Shows(ExecBlock(body, c), WritesAt(site, true));
    ShownByBlock(body, WritesAt(site, true));
    assert WritesAt(site, true) in OutcomesOfBlock(body);
  }

  lemma ComputedViolationHappens(body: seq<Stmt>, site: Site)
    requires WritesAt(site, true) in OutcomesOfBlock(body)
    ensures exists c: seq<nat> :: EffectAfterInteraction(ExecBlock(body, c).trace)
  {
    hide ExecBlock, OutcomesOfBlock, EffectAfterInteraction, Shows;
    ShownByBlock(body, WritesAt(site, true));
    var c: seq<nat> :| Shows(ExecBlock(body, c), WritesAt(site, true));
    AfterOrShown(ExecBlock(body, c));
    assert EffectAfterInteraction(ExecBlock(body, c).trace);
  }

  // ---- the main results on a whole function body ------------------------------------------------------

  /**
   Soundness. If the walk of a function body finds something, then for every write it
   reports, every execution reaching the write has already interacted; and some execution
   does reach it exactly when control may get there.
   */
  lemma FindingsAreViolations(body: seq<Stmt>, site: Site)
    requires AllInBlock(body, KeepsItsLabel, true)
    requires site in Reported(WalkBlock(body, false).findings)
    ensures forall c: seq<nat> :: Guarded(ExecBlock(body, c).trace, site)
    ensures (exists c: seq<nat> :: Effect(site) in ExecBlock(body, c).trace) <==> MayReach(body, site)
  {
    SafeInBlock(body, site);
    ExecutionsAreDecided(body, site);
  }

  /** The flag handed to the code after a block: every completed execution of the block has interacted. */
  lemma CpiOutMeansInteraction(body: seq<Stmt>, c: seq<nat>)
    requires AllInBlock(body, KeepsItsLabel, true)
    requires WalkBlock(body, false).escapes && !WalkBlock(body, false).found
    ensures ExecBlock(body, c).end.Completed? ==> Interaction in ExecBlock(body, c).trace
  {
    EscapeInBlock(body);
    ShownByBlock(body, Completes(false));
    assert Interaction !in ExecBlock(body, c).trace && ExecBlock(body, c).end.Completed?
      ==> Shows(ExecBlock(body, c), Completes(false));
  }

  // ---- how many findings ---------------------------------------------------------------------------------

  /** The walk comes to a call two of whose arguments have something to report. */
  predicate Doubles(e: Expr)
    decreases e, 1
  {
    match e
    case Call(args) => DoublesInArgs(args)
    case Method(receiver, _, _) => Doubles(receiver)
    case Block(_, body) => DoublesInBlock(body, false)
    case If(cond, thn, els) =>
      Doubles(cond)
      || (!WalkExpr(cond).found
          && (DoublesInBlock(thn, false) || (!WalkBlock(thn, false).found && els.Some? && Doubles(els.value))))
    case Match(scrutinee, arms) => Doubles(scrutinee) || (!WalkExpr(scrutinee).found && DoublesInArms(arms))
    case For(_, head, body) => Doubles(head) || (!WalkExpr(head).found && DoublesInBlock(body, false))
    case While(_, cond, body) => Doubles(cond) || (!WalkExpr(cond).found && DoublesInBlock(body, false))
    case Loop(_, body) => DoublesInBlock(body, false)
    case Try(inner) => Doubles(inner)
    case Wrap(inner) => Doubles(inner)
    case _ => false
  }

  predicate DoublesInArgs(args: seq<Expr>)
    decreases args, 0
  {
    args != []
    && (|| Doubles(args[0])
        || (WalkExpr(args[0]).found && exists i :: 1 <= i < |args| && WalkExpr(args[i]).found)
        || DoublesInArgs(args[1..]))
  }

  predicate DoublesInArm(arm: Arm)
    decreases arm, 0
  {
    || (arm.guard.Some? && Doubles(arm.guard.value))
    || ((arm.guard.None? || !WalkExpr(arm.guard.value).found) && Doubles(arm.body))
  }

  predicate DoublesInArms(arms: seq<Arm>)
    decreases arms, 0
  {
    arms != [] && (DoublesInArm(arms[0]) || (!WalkArm(arms[0]).found && DoublesInArms(arms[1..])))
  }

  predicate DoublesInStmt(s: Stmt)
    decreases s, 0
  {
    match s
    case ExprStmt(e) => Doubles(e)
    case Local(init) => init.Some? && Doubles(init.value)
    case Item => false
  }

  /** The statements from here on, as the walk visits them. */
  predicate DoublesInBlock(ss: seq<Stmt>, seen: bool)
    decreases ss, 0
  {
    ss != [] && !seen
    && (DoublesInStmt(ss[0]) || (!WalkStmt(ss[0]).found && DoublesInBlock(ss[1..], WalkStmt(ss[0]).escapes)))
  }

  /** A pair of findings in what `Contained` puts together. */
  lemma PairContained(a: Walk, b: Walk)
    requires (a.found <==> a.findings != []) && (b.found <==> b.findings != [])
    ensures |Contained(a, b).findings| >= 2 <==> |a.findings| >= 2 || (!a.found && |b.findings| >= 2)
    ensures Contained(a, b).found <==> Contained(a, b).findings != []
  {
  }

  lemma {:induction false} DoublesExactly(e: Expr)
    ensures Doubles(e) <==> |WalkExpr(e).findings| >= 2
    decreases e, 1
  {
    hide Reported;
    WalkIsConsistent(e);
    match e
    case Call(args) => DoublesExactlyInArgs(args);
    case Method(receiver, _, _) => DoublesExactly(receiver);
    case Block(_, body) => DoublesExactlyInBlock(body, false);
    case If(_, _, _) => DoublesExactlyInIf(e);
    case Match(scrutinee, arms) =>
      DoublesExactly(scrutinee);
      DoublesExactlyInArms(arms);
      WalkIsConsistent(scrutinee);
      WalkArmsIsConsistent(arms);
      PairContained(WalkExpr(scrutinee), WalkArms(arms));
    case For(_, head, body) =>
      DoublesExactly(head);
      DoublesExactlyInBlock(body, false);
      WalkIsConsistent(head);
      WalkBlockIsConsistent(body, false);
      PairContained(WalkExpr(head), WalkBlock(body, false).(escapes := false));
    case While(_, cond, body) =>
      DoublesExactly(cond);
      DoublesExactlyInBlock(body, false);
      WalkIsConsistent(cond);
      WalkBlockIsConsistent(body, false);
      PairContained(WalkExpr(cond), WalkBlock(body, false).(escapes := false));
    case Loop(_, body) => DoublesExactlyInBlock(body, false);
    case Try(inner) => DoublesExactly(inner);
    case Wrap(inner) => DoublesExactly(inner);
    case _ =>
  }

  lemma {:induction false} DoublesExactlyInIf(e: Expr)
    requires e.If?
    ensures Doubles(e) <==> |WalkExpr(e).findings| >= 2
    decreases e, 0
  {
    hide Reported;
    DoublesExactly(e.cond);
    DoublesExactlyInBlock(e.thn, false);
    WalkIsConsistent(e.cond);
    WalkBlockIsConsistent(e.thn, false);
    if e.els.Some? {
      DoublesExactly(e.els.value);
      WalkIsConsistent(e.els.value);
      PairContained(WalkExpr(e.els.value), QUIET);
    }
    PairContained(WalkBlock(e.thn, false), WalkElse(e.els));
    PairContained(WalkExpr(e.cond), Contained(WalkBlock(e.thn, false), WalkElse(e.els)));
  }

  lemma {:induction false} ArgsFound(args: seq<Expr>)
    ensures WalkArgs(args).found <==> exists i :: 0 <= i < |args| && WalkExpr(args[i]).found
  {
    if args != [] {
      ArgsFound(args[1..]);
      if i: int :| 1 <= i < |args| && WalkExpr(args[i]).found {
        assert WalkExpr(args[1..][i - 1]).found;
      }
    }
  }

  lemma {:induction false} DoublesExactlyInArgs(args: seq<Expr>)
    ensures DoublesInArgs(args) <==> |WalkArgs(args).findings| >= 2
    decreases args, 0
  {
    hide Reported;
    if args != [] {
      DoublesExactly(args[0]);
      DoublesExactlyInArgs(args[1..]);
      WalkIsConsistent(args[0]);
      WalkArgsIsConsistent(args[1..]);
      ArgsFound(args[1..]);
      assert (exists i :: 1 <= i < |args| && WalkExpr(args[i]).found) <==> WalkArgs(args[1..]).found by {
        if i: int :| 1 <= i < |args| && WalkExpr(args[i]).found {
          assert WalkExpr(args[1..][i - 1]).found;
        }
        if k: int :| 0 <= k < |args[1..]| && WalkExpr(args[1..][k]).found {
          assert WalkExpr(args[k + 1]).found;
        }
      }
    }
  }

  lemma {:induction false} DoublesExactlyInArms(arms: seq<Arm>)
    ensures DoublesInArms(arms) <==> |WalkArms(arms).findings| >= 2
    decreases arms, 0
  {
    hide Reported;
    if arms != [] {
      var arm := arms[0];
      DoublesExactlyInArm(arm);
      DoublesExactlyInArms(arms[1..]);
      WalkArmIsConsistent(arm);
      WalkArmsIsConsistent(arms[1..]);
      PairContained(WalkArm(arm), WalkArms(arms[1..]));
    }
  }

  lemma {:induction false} DoublesExactlyInArm(arm: Arm)
    ensures DoublesInArm(arm) <==> |WalkArm(arm).findings| >= 2
    decreases arm, 0
  {
    hide Reported;
    DoublesExactly(arm.body);
    WalkIsConsistent(arm.body);
    if arm.guard.Some? {
      DoublesExactly(arm.guard.value);
      WalkIsConsistent(arm.guard.value);
      PairContained(WalkExpr(arm.guard.value), WalkExpr(arm.body));
    } else {
      PairContained(QUIET, WalkExpr(arm.body));
    }
  }

  lemma {:induction false} DoublesExactlyInStmt(s: Stmt)
    ensures DoublesInStmt(s) <==> |WalkStmt(s).findings| >= 2
    decreases s, 0
  {
    match s
    case ExprStmt(e) => DoublesExactly(e);
    case Local(init) =>
      if init.Some? {
        DoublesExactly(init.value);
      }
    case Item =>
  }

  lemma {:induction false} DoublesExactlyInBlock(ss: seq<Stmt>, seen: bool)
    ensures DoublesInBlock(ss, seen) <==> |WalkBlock(ss, seen).findings| >= 2
    decreases ss, 0
  {
    hide Reported;
    if ss != [] {
      var w := WalkStmt(ss[0]);
      WalkStmtIsConsistent(ss[0]);
      DoublesExactlyInStmt(ss[0]);
      DoublesExactlyInBlock(ss[1..], if seen then true else w.escapes);
      WalkBlockIsConsistent(ss[1..], w.escapes);
      PairContained(w, WalkBlock(ss[1..], w.escapes));
    }
  }

  /**
   "At most one finding per function" holds of exactly the bodies in which the walk never
   comes to a call with two offending arguments.
   */
  lemma AtMostOneFindingIff(body: seq<Stmt>)
    ensures |WalkBlock(body, false).findings| <= 1 <==> !DoublesInBlock(body, false)
  {
    DoublesExactlyInBlock(body, false);
  }

  /** The shortest way to more: every offending argument pushes its own finding. */
  lemma TwoOffendingArguments(a: Expr, b: Expr)
    requires WalkExpr(a).found && WalkExpr(b).found
    ensures |WalkBlock([ExprStmt(Call([a, b]))], false).findings| >= 2
  {
    var body := [ExprStmt(Call([a, b]))];
    assert WalkExpr([a, b][1]).found;
    assert DoublesInArgs([a, b]) && DoublesInStmt(body[0]);
    DoublesExactlyInBlock(body, false);
  }

  // ---- code to try the walker on -------------------------------------------------------------------------

  /** `x.amount = 1` */
  function BareWrite(site: Site): Stmt {
    ExprStmt(Binary(Call([]), Call([]), false, Some(site)))
  }

  lemma BareWriteFacts(site: Site)
    ensures var s := BareWrite(site); WritesInStmt(s) == [site] && WalkStmt(s) == QUIET
    ensures OutcomesOfStmt(BareWrite(site)) == {Completes(false), WritesAt(site, false)}
    ensures OutcomesOfBlock([BareWrite(site)]) == {Completes(false), WritesAt(site, false)}
  {
    assert WritesInAll([]) == [] && Writes(Call([])) == [];
    assert OutcomesOfAll([]) == {Completes(false)} && Outcomes(Call([])) == {Completes(false)};
    DoneFirst({Completes(false)});
    DoneFirst(Emitted(Some(site), false));
    assert [BareWrite(site)][1..] == [];
    DoneLast(Emitted(Some(site), false));
  }

  lemma DoneFirst(a: set<Outcome>)
    ensures InTurn({Completes(false)}, a) == a
  {
  }

  lemma DoneLast(a: set<Outcome>)
    requires Completes(false) in a && Completes(true) !in a
    ensures InTurn(a, {Completes(false)}) == a
  {
    forall o
      ensures o in InTurn(a, {Completes(false)}) <==> o in a
    {
      InInTurn(a, {Completes(false)}, o);
    }
  }

  /** After an interaction a write is reported at once. */
  lemma WriteAfterSeen(site: Site)
    ensures var w := WalkBlock([BareWrite(site)], true); w.found && site in Reported(w.findings)
  {
    BareWriteFacts(site);
    var f := [Finding([site])];
    assert f[1..] == [] && site in [site];
    assert Reported(f) == (set s | s in [site]) + Reported([]);
  }

  lemma WalkOfInvoke()
    ensures WalkStmt(Invoke()) == Walk(false, true, [])
  {
  }

  function Invoke(): Stmt {
    ExprStmt(Cpi([], None))
  }

  lemma InvokeFacts()
    ensures WalkStmt(Invoke()) == Walk(false, true, []) && WritesInStmt(Invoke()) == []
    ensures OutcomesOfStmt(Invoke()) == {Completes(true)}
  {
    assert OutcomesOfAll([]) == {Completes(false)} && WritesInAll([]) == [];
    DoneFirst(Emitted(None, true));
  }

  // ---- completeness: what the walker never misses, exactly ------------------------------------------------

  /** Some execution of the body writes after an interaction. */
  ghost predicate Violates(body: seq<Stmt>) {
    exists c: seq<nat> :: EffectAfterInteraction(ExecBlock(body, c).trace)
  }

  ghost predicate IsMissed(body: seq<Stmt>) {
    Violates(body) && !WalkBlock(body, false).found
  }

  lemma ViolatesIff(body: seq<Stmt>)
    ensures Violates(body) <==> exists site :: WritesAt(site, true) in OutcomesOfBlock(body)
  {
    hide ExecBlock, EffectAfterInteraction, OutcomesOfBlock;
    forall c: seq<nat> | EffectAfterInteraction(ExecBlock(body, c).trace)
      ensures exists site :: WritesAt(site, true) in OutcomesOfBlock(body)
    {
      ViolationIsComputed(body, c);
    }
    if site :| WritesAt(site, true) in OutcomesOfBlock(body) {
      ComputedViolationHappens(body, site);
    }
  }

  /**
   What the walker says about a statement is what the statement may do: when it finds nothing
   there, no write inside comes after an interaction; when it neither finds anything nor lets
   an interaction escape, the statement cannot complete having interacted; and when it
   collects no write, the statement cannot write.
   */
  ghost predicate Faithful(s: Stmt) {
    var w, a := WalkStmt(s), OutcomesOfStmt(s);
    && (!w.found ==> forall site :: WritesAt(site, true) !in a)
    && (!w.found && !w.escapes ==> Completes(true) !in a)
    && (WritesInStmt(s) == [] ==> forall o :: o in a ==> !o.WritesAt?)
  }

  /** From here on nothing is written after an interaction; once one was seen, nothing is written at all. */
  lemma {:induction false} SilenceOfFaithful(ss: seq<Stmt>, seen: bool)
    requires (forall s :: s in ss ==> Faithful(s)) && !WalkBlock(ss, seen).found
    ensures forall o :: o in OutcomesOfBlock(ss) && o.WritesAt? ==> !o.seen && !seen
    decreases ss
  {
    if ss != [] {
      var after := if seen then true else WalkStmt(ss[0]).escapes;
      SilenceOfFaithful(ss[1..], after);
      forall o | o in OutcomesOfBlock(ss) && o.WritesAt?
        ensures !o.seen && !seen
      {
        InInTurn(OutcomesOfStmt(ss[0]), OutcomesOfBlock(ss[1..]), o);
        assert Faithful(ss[0]);
      }
    }
  }

  /** Nothing is missed in a body of faithful statements. */
  lemma NothingIsMissed(body: seq<Stmt>)
    requires forall s :: s in body ==> Faithful(s)
    ensures !IsMissed(body)
  {
    hide Faithful;
    ViolatesIff(body);
    if !WalkBlock(body, false).found {
      SilenceOfFaithful(body, false);
    }
  }

  lemma SingleStatement(s: Stmt)
    ensures WalkBlock([s], false).found == WalkStmt(s).found
    ensures forall o :: o in OutcomesOfBlock([s]) <==> o in OutcomesOfStmt(s)
  {
    assert [s][1..] == [];
    forall o
      ensures o in OutcomesOfBlock([s]) <==> o in OutcomesOfStmt(s)
    {
      InInTurn(OutcomesOfStmt(s), {Completes(false)}, o);
    }
  }

  /** `s; x.amount = 1` violates by s itself, or by completing s after an interaction. */
  lemma ThenAWrite(s: Stmt, site: Site, x: Site)
    ensures WritesAt(x, true) in OutcomesOfBlock([s, BareWrite(site)])
      <==> WritesAt(x, true) in OutcomesOfStmt(s) || (x == site && Completes(true) in OutcomesOfStmt(s))
  {
    assert [s, BareWrite(site)][1..] == [BareWrite(site)];
    BareWriteFacts(site);
    InInTurn(OutcomesOfStmt(s), OutcomesOfBlock([BareWrite(site)]), WritesAt(x, true));
  }

  /** With nothing to find in s itself the flag decides. */
  lemma FoundByTheFlag(s: Stmt, site: Site)
    requires !WalkStmt(s).found
    ensures WalkBlock([s, BareWrite(site)], false).found <==> WalkStmt(s).escapes
  {
    assert [s, BareWrite(site)][1..] == [BareWrite(site)];
    BareWriteFacts(site);
    SingleStatement(BareWrite(site));
    WriteAfterSeen(site);
  }

  /** `invoke(); s` violates by any write of s. */
  lemma AfterAnInteraction(s: Stmt, x: Site)
    ensures WritesAt(x, true) in OutcomesOfBlock([Invoke(), s])
      <==> WritesAt(x, false) in OutcomesOfStmt(s) || WritesAt(x, true) in OutcomesOfStmt(s)
  {
    assert [Invoke(), s][1..] == [s];
    InvokeFacts();
    SingleStatement(s);
    InInTurn(OutcomesOfStmt(Invoke()), OutcomesOfBlock([s]), WritesAt(x, true));
  }

  lemma FoundByItsWrites(s: Stmt)
    ensures WalkBlock([Invoke(), s], false).found <==> WritesInStmt(s) != []
  {
    assert [Invoke(), s][1..] == [s] && [s][1..] == [];
    InvokeFacts();
    assert WalkBlock([s], true).found <==> WritesInStmt(s) != [];
  }

  lemma MissedAloneIff(s: Stmt)
    ensures IsMissed([s]) <==> !WalkStmt(s).found && exists site :: WritesAt(site, true) in OutcomesOfStmt(s)
  {
    hide Violates, WalkStmt, OutcomesOfStmt, WalkBlock, OutcomesOfBlock;
    ViolatesIff([s]);
    SingleStatement(s);
  }

  lemma MissedBeforeAWrite(s: Stmt, site: Site)
    requires !WalkStmt(s).found
    ensures IsMissed([s, BareWrite(site)]) <==>
      && !WalkStmt(s).escapes
      && (Completes(true) in OutcomesOfStmt(s) || exists x :: WritesAt(x, true) in OutcomesOfStmt(s))
  {
    hide Violates, WalkStmt, OutcomesOfStmt, WalkBlock, OutcomesOfBlock;
    ViolatesIff([s, BareWrite(site)]);
    FoundByTheFlag(s, site);
    forall x
      ensures WritesAt(x, true) in OutcomesOfBlock([s, BareWrite(site)])
        <==> WritesAt(x, true) in OutcomesOfStmt(s) || (x == site && Completes(true) in OutcomesOfStmt(s))
    {
      ThenAWrite(s, site, x);
    }
    if Completes(true) in OutcomesOfStmt(s) {
      assert WritesAt(site, true) in OutcomesOfBlock([s, BareWrite(site)]);
    }
    if x :| WritesAt(x, true) in OutcomesOfStmt(s) {
      assert WritesAt(x, true) in OutcomesOfBlock([s, BareWrite(site)]);
    }
  }

  lemma MissedBehindAnInteractionIff(s: Stmt)
    ensures IsMissed([Invoke(), s]) <==> WritesInStmt(s) == [] && exists o :: o in OutcomesOfStmt(s) && o.WritesAt?
  {
    hide Violates, WalkStmt, OutcomesOfStmt, WalkBlock, OutcomesOfBlock, WritesInStmt;
    ViolatesIff([Invoke(), s]);
    FoundByItsWrites(s);
    forall x
      ensures WritesAt(x, true) in OutcomesOfBlock([Invoke(), s])
        <==> WritesAt(x, false) in OutcomesOfStmt(s) || WritesAt(x, true) in OutcomesOfStmt(s)
    {
      AfterAnInteraction(s, x);
    }
    if o :| o in OutcomesOfStmt(s) && o.WritesAt? {
      assert o == WritesAt(o.site, o.seen);
      assert WritesAt(o.site, true) in OutcomesOfBlock([Invoke(), s]);
    }
  }

  /**
   Being faithful is exactly what it takes: a statement is faithful if and only if it is not
   missed alone, nor in front of a plain write, nor behind a plain interaction. Together with
   NothingIsMissed, these three contexts stand for every body of faithful statements.
   */
  lemma FaithfulIff(s: Stmt, site: Site)
    ensures Faithful(s) <==> !IsMissed([s]) && !IsMissed([s, BareWrite(site)]) && !IsMissed([Invoke(), s])
  {
    hide IsMissed, WalkStmt, OutcomesOfStmt, WritesInStmt;
    MissedAloneIff(s);
    MissedBehindAnInteractionIff(s);
    if WalkStmt(s).found {
      FoundAtOnce(s, BareWrite(site));
    } else {
      MissedBeforeAWrite(s, site);
    }
  }

  lemma FoundAtOnce(s: Stmt, t: Stmt)
    requires WalkStmt(s).found
    ensures !IsMissed([s, t])
  {
    hide Violates;
    assert WalkBlock([s, t], false).found;
  }

  /** A statement with nothing to find in it, before a write of its own: missed exactly when it may complete unnoticed after interacting. */
  lemma MissedBeforeAWriteIff(s: Stmt, site: Site)
    requires !WalkStmt(s).found && site !in SitesInStmt(s)
    ensures var body := [s, BareWrite(site)];
      && (WalkBlock(body, false).found <==> WalkStmt(s).escapes)
      && ((exists c: seq<nat> :: Shows(ExecBlock(body, c), WritesAt(site, true))) <==> Completes(true) in OutcomesOfStmt(s))
  {
    hide WalkStmt, OutcomesOfStmt, WalkBlock, OutcomesOfBlock, ExecBlock, Shows;
    ThenAWrite(s, site, site);
    FoundByTheFlag(s, site);
    EffectsInStmt(s);
    ShownByBlock([s, BareWrite(site)], WritesAt(site, true));
  }

  /** `if invoke() {}` completes after an interaction that does not escape: the write behind it is missed. */
  lemma InteractionsInConditionsAreMissed(site: Site)
    ensures IsMissed([ExprStmt(If(Cpi([], None), [], None)), BareWrite(site)])
  {
    var s := ExprStmt(If(Cpi([], None), [], None));
    hide Violates;
    InvokeFacts();
    assert OutcomesOfBlock([]) == {Completes(false)} && WalkBlock([], false) == QUIET && WalkElse(None) == QUIET;
    assert OutcomesOfStmt(s) == InTurn({Completes(true)}, {Completes(false)} + {Completes(false)});
    InInTurn({Completes(true)}, {Completes(false)} + {Completes(false)}, Completes(true));
    assert WalkStmt(s) == QUIET;
    MissedBeforeAWrite(s, site);
  }

  // ---- loops: a write is met again after the interaction of an earlier iteration ----------------------------

  /** Some iteration interacts and goes on. */
  predicate GoesOnSeen(e: Expr)
    requires IsLoop(e)
  {
    exists o :: o in OutcomesOfPass(e) && o.seen && KeepsLooping(e, o)
  }

  /** A write comes after an interaction in one iteration, or in a later one. */
  lemma LoopWritesAfterIff(e: Expr, site: Site)
    requires IsLoop(e)
    ensures WritesAt(site, true) in OutcomesOfLoop(e)
      <==> WritesAt(site, true) in OutcomesOfPass(e) || (WritesAt(site, false) in OutcomesOfPass(e) && GoesOnSeen(e))
  {
    hide OutcomesOfPass, OutcomesOfLast;
    var pass, last := OutcomesOfPass(e), OutcomesOfLast(e);
    InInTurn(Warmup(e, pass), Endings(e, pass, last), WritesAt(site, true));
    assert forall seen :: WritesAt(site, seen) in Endings(e, pass, last) <==> WritesAt(site, seen) in pass;
  }

  /**
   A loop in which the walk finds nothing, entered through a head that does not interact: it
   is missed exactly when it can be entered and some write follows an interaction within an
   iteration, or lies in the same loop as an iteration that interacts and goes on.
   */
  lemma LoopIsMissedIff(e: Expr)
    requires IsLoop(e) && !WalkExpr(e).found && (e.For? ==> All(e.head, Quiet, false))
    ensures IsMissed([ExprStmt(e)])
      <==> (&& (e.For? ==> Completes(false) in Outcomes(e.head))
            && exists site ::
                 || WritesAt(site, true) in OutcomesOfPass(e)
                 || (WritesAt(site, false) in OutcomesOfPass(e) && GoesOnSeen(e)))
  {
    hide Violates, OutcomesOfPass, OutcomesOfLoop, GoesOnSeen, WalkBlock, OutcomesOfBlock, WalkExpr;
    var s := ExprStmt(e);
    MissedAloneIff(s);
    hide IsMissed;
    forall site
      ensures WritesAt(site, true) in OutcomesOfLoop(e)
        <==> WritesAt(site, true) in OutcomesOfPass(e) || (WritesAt(site, false) in OutcomesOfPass(e) && GoesOnSeen(e))
    {
      LoopWritesAfterIff(e, site);
    }
    forall site
      ensures WritesAt(site, true) in OutcomesOfStmt(s)
        <==> (e.For? ==> Completes(false) in Outcomes(e.head)) && WritesAt(site, true) in OutcomesOfLoop(e)
    {
      if e.For? {
        EffectsAreSites(e.head);
        InInTurn(Outcomes(e.head), OutcomesOfLoop(e), WritesAt(site, true));
      }
    }
  }

  lemma GoesOnSeenBy(e: Expr, o: Outcome)
    requires IsLoop(e) && o in OutcomesOfPass(e) && o.seen && KeepsLooping(e, o)
    ensures GoesOnSeen(e)
  {
  }

  /** `loop { x.amount = 1; invoke(); }`: the write of the second iteration comes after the first interaction. */
  lemma BackEdgesAreMissed(site: Site)
    ensures IsMissed([ExprStmt(Loop(None, [BareWrite(site), Invoke()]))])
  {
    var body := [BareWrite(site), Invoke()];
    var e := Loop(None, body);
    hide IsMissed;
    assert body[1..] == [Invoke()] && [Invoke()][1..] == [];
    BareWriteFacts(site);
    InvokeFacts();
    assert WalkBlock(body, false) == Walk(false, true, []);
    SingleStatement(Invoke());
    InInTurn(OutcomesOfStmt(BareWrite(site)), OutcomesOfBlock([Invoke()]), Completes(true));
    InInTurn(OutcomesOfStmt(BareWrite(site)), OutcomesOfBlock([Invoke()]), WritesAt(site, false));
    GoesOnSeenBy(e, Completes(true));
    assert WritesAt(site, false) in OutcomesOfPass(e);
    LoopIsMissedIff(e);
  }

  // ---- a fragment on which every statement is faithful -------------------------------------------------------

  /**
   Interactions occur only in plain view, as statements of the body or of nested bare blocks,
   as receivers or among the arguments, with no write behind them in the same statement; and
   all writes are in sight.
   */
  ghost predicate PlainExpr(e: Expr)
    decreases e, 1
  {
    match e
    case Cpi(operands, _) => AllOf(operands, Quiet, false)
    case Block(_, body) => PlainBlock(body)
    case Try(inner) => PlainExpr(inner)
    case Wrap(inner) => PlainExpr(inner)
    case Method(receiver, args, write) =>
      All(e, Quiet, false) || (PlainExpr(receiver) && write.None? && Silent(args))
    case Call(args) => PlainArgs(args)
    case _ => All(e, Quiet, false)
  }

  /** Neither interacts nor writes. */
  ghost predicate Silent(es: seq<Expr>) {
    AllOf(es, Quiet, false) && SitesInAll(es) == {}
  }

  /** Quiet arguments, and then at most one that may interact, with only silent ones behind it. */
  ghost predicate PlainArgs(args: seq<Expr>)
    decreases args, 0
  {
    || args == []
    || (All(args[0], Quiet, false) && PlainArgs(args[1..]))
    || (PlainExpr(args[0]) && Silent(args[1..]))
  }

  ghost predicate PlainStmt(s: Stmt)
    decreases s, 0
  {
    match s
    case ExprStmt(e) => PlainExpr(e)
    case Local(init) => init.Some? ==> PlainExpr(init.value)
    case Item => true
  }

  ghost predicate PlainBlock(ss: seq<Stmt>)
    decreases ss, 0
  {
    ss == [] || (PlainStmt(ss[0]) && PlainBlock(ss[1..]))
  }

  /** All writes of the code are in the walker's sight. */
  ghost predicate InSight(sites: set<Site>, writes: seq<Site>) {
    forall s :: s in sites ==> s in writes
  }

  lemma {:induction false} PlainSites(e: Expr)
    requires PlainExpr(e)
    ensures InSight(Sites(e), Writes(e))
    decreases e, 1
  {
    match e
    case Cpi(operands, _) => WritesInAllAreSites(operands);
    case Block(_, body) => PlainSitesInBlock(body);
    case Try(inner) => PlainSites(inner);
    case Wrap(inner) => PlainSites(inner);
    case Method(receiver, args, _) =>
      WritesAreSites(e);
      if !All(e, Quiet, false) {
        PlainSites(receiver);
      }
    case Call(args) => PlainSitesInArgs(args);
    case _ => WritesAreSites(e);
  }

  lemma {:induction false} PlainSitesInArgs(args: seq<Expr>)
    requires PlainArgs(args)
    ensures InSight(SitesInAll(args), WritesInAll(args))
    decreases args, 0
  {
    if args != [] {
      if All(args[0], Quiet, false) && PlainArgs(args[1..]) {
        WritesAreSites(args[0]);
        PlainSitesInArgs(args[1..]);
      } else {
        PlainSites(args[0]);
      }
    }
  }

  lemma {:induction false} PlainSitesInStmt(s: Stmt)
    requires PlainStmt(s)
    ensures InSight(SitesInStmt(s), WritesInStmt(s))
    decreases s, 0
  {
    match s
    case ExprStmt(e) => PlainSites(e);
    case Local(init) =>
      if init.Some? {
        PlainSites(init.value);
      }
    case Item =>
  }

  lemma {:induction false} PlainSitesInBlock(ss: seq<Stmt>)
    requires PlainBlock(ss)
    ensures InSight(SitesInBlock(ss), WritesInBlock(ss))
    decreases ss, 0
  {
    if ss != [] {
      PlainSitesInStmt(ss[0]);
      PlainSitesInBlock(ss[1..]);
    }
  }

  /** What a walk that does not escape, or finds nothing, says about the outcomes. */
  ghost predicate Harmless(a: set<Outcome>, w: Walk) {
    && (!w.escapes ==> forall o :: o in a ==> !o.seen)
    && (!w.found ==> forall s :: WritesAt(s, true) !in a)
  }

  lemma HarmlessThen(a: set<Outcome>, b: set<Outcome>, w: Walk)
    requires Harmless(a, w) && forall o :: o in b ==> !o.seen && !o.WritesAt?
    ensures Harmless(InTurn(a, b), w)
  {
    forall o | o in InTurn(a, b)
      ensures !w.escapes ==> !o.seen
      ensures !w.found && o.WritesAt? ==> !o.seen
    {
      InInTurn(a, b, o);
    }
  }

  lemma {:induction false} PlainOutcomes(e: Expr)
    requires PlainExpr(e)
    ensures Harmless(Outcomes(e), WalkExpr(e))
    decreases e, 1
  {
    match e
    case Cpi(operands, write) =>
      EffectsInAll(operands);
      forall s
        ensures WritesAt(s, true) !in Outcomes(e)
      {
        InInTurn(OutcomesOfAll(operands), Emitted(write, true), WritesAt(s, true));
      }
    case Block(_, body) => PlainOutcomesOfBlock(body, false);
    case Try(inner) =>
      PlainOutcomes(inner);
      HarmlessThen(Outcomes(inner), {Completes(false)} + {Leaves(Return, false)}, WalkExpr(inner));
    case Wrap(inner) => PlainOutcomes(inner);
    case Method(receiver, args, write) =>
      if All(e, Quiet, false) {
        EffectsAreSites(e);
      } else {
        PlainOutcomes(receiver);
        EffectsInAll(args);
        HarmlessThen(Outcomes(receiver), OutcomesOfAll(args), WalkExpr(receiver));
        HarmlessThen(InTurn(Outcomes(receiver), OutcomesOfAll(args)), Emitted(write, false), WalkExpr(receiver));
      }
    case Call(args) => PlainOutcomesOfArgs(args);
    case _ => EffectsAreSites(e);
  }

  lemma {:induction false} PlainOutcomesOfArgs(args: seq<Expr>)
    requires PlainArgs(args)
    ensures Harmless(OutcomesOfAll(args), WalkArgs(args))
    decreases args, 0
  {
    if args != [] {
      if All(args[0], Quiet, false) && PlainArgs(args[1..]) {
        EffectsAreSites(args[0]);
        PlainOutcomesOfArgs(args[1..]);
        HarmlessBehind(Outcomes(args[0]), OutcomesOfAll(args[1..]), WalkArgs(args[1..]));
      } else {
        PlainOutcomes(args[0]);
        EffectsInAll(args[1..]);
        HarmlessThen(Outcomes(args[0]), OutcomesOfAll(args[1..]), WalkExpr(args[0]));
      }
    }
  }

  lemma HarmlessBehind(a: set<Outcome>, b: set<Outcome>, w: Walk)
    requires Harmless(b, w) && forall o :: o in a ==> !o.seen
    ensures Harmless(InTurn(a, b), w)
  {
    forall o | o in InTurn(a, b)
      ensures !w.escapes ==> !o.seen
      ensures !w.found && o.WritesAt? ==> !o.seen
    {
      InInTurn(a, b, o);
    }
  }

  lemma {:induction false} PlainOutcomesOfStmt(s: Stmt)
    requires PlainStmt(s)
    ensures Harmless(OutcomesOfStmt(s), WalkStmt(s))
    decreases s, 0
  {
    match s
    case ExprStmt(e) => PlainOutcomes(e);
    case Local(init) =>
      if init.Some? {
        PlainOutcomes(init.value);
      }
    case Item =>
  }

  /** Once an interaction was seen, silence also means that nothing is written. */
  lemma {:induction false} PlainOutcomesOfBlock(ss: seq<Stmt>, seen: bool)
    requires PlainBlock(ss)
    ensures Harmless(OutcomesOfBlock(ss), WalkBlock(ss, seen))
    ensures seen ==> WalkBlock(ss, seen).escapes
    ensures !WalkBlock(ss, seen).found && seen ==> forall o :: o in OutcomesOfBlock(ss) ==> !o.WritesAt?
    decreases ss, 0
  {
    if ss != [] {
      PlainOutcomesOfStmt(ss[0]);
      PlainSitesInStmt(ss[0]);
      EffectsInStmt(ss[0]);
      var after := if seen then true else WalkStmt(ss[0]).escapes;
      PlainOutcomesOfBlock(ss[1..], after);
      forall o | o in OutcomesOfBlock(ss)
        ensures !WalkBlock(ss, seen).escapes ==> !o.seen
        ensures !WalkBlock(ss, seen).found && o.WritesAt? ==> !o.seen && !seen
      {
        InInTurn(OutcomesOfStmt(ss[0]), OutcomesOfBlock(ss[1..]), o);
      }
    }
  }

  /** Statements whose interactions are statements themselves, of a body or of nested bare blocks, are faithful. */
  lemma PlainIsFaithful(s: Stmt)
    requires PlainStmt(s)
    ensures Faithful(s)
  {
    PlainOutcomesOfStmt(s);
    PlainSitesInStmt(s);
    EffectsInStmt(s);
  }

  /**
   Completeness on bodies of faithful statements, plain ones among them. Whatever some
   execution writes after an interaction, something is found. What is found is such a write as
   soon as control may get to one of the reported writes; and it is a false alarm exactly when
   every write after an interaction is dead.
   */
  lemma FoundIffSomeExecutionWritesAfterInteraction(body: seq<Stmt>)
    requires forall s :: s in body ==> Faithful(s) || PlainStmt(s)
    ensures Violates(body) ==> WalkBlock(body, false).found
    ensures AllInBlock(body, KeepsItsLabel, true)
      && (exists site :: site in Reported(WalkBlock(body, false).findings) && MayReach(body, site))
      ==> Violates(body)
    ensures WalkBlock(body, false).found && !Violates(body)
      <==> WalkBlock(body, false).found && forall site :: WritesAt(site, true) !in OutcomesOfBlock(body)
  {
    hide Violates, OutcomesOfBlock, WalkBlock, Reported, Faithful, PlainStmt;
    forall s | s in body
      ensures Faithful(s)
    {
      if PlainStmt(s) {
        PlainIsFaithful(s);
      }
    }
    NothingIsMissed(body);
    ViolatesIff(body);
    if AllInBlock(body, KeepsItsLabel, true) {
      forall site | site in Reported(WalkBlock(body, false).findings) && MayReach(body, site)
        ensures WritesAt(site, true) in OutcomesOfBlock(body)
      {
        SafeInBlock(body, site);
      }
    }
  }

  // ---- where the walker reports too much ------------------------------------------------------------------

  /**
   `invoke(); s; x.amount = 1`: the write is reported whatever s is, and reached exactly when
   s may complete. With `return`, or a `loop` without `break`, for s the report is a false alarm.
   */
  lemma ReportedIsReachedIff(s: Stmt, site: Site)
    requires WritesInStmt(s) == [] && site !in SitesInStmt(s)
    ensures var body := [Invoke(), s, BareWrite(site)];
      && site in Reported(WalkBlock(body, false).findings)
      && ((exists c: seq<nat> :: Effect(site) in ExecBlock(body, c).trace) <==> MayComplete(OutcomesOfStmt(s)))
  {
    hide ExecBlock, WalkStmt, SitesInStmt;
    var invoke := Invoke();
    var body := [invoke, s, BareWrite(site)];
    assert body[1..] == [s, BareWrite(site)] && body[1..][1..] == [BareWrite(site)];
    WriteAfterSeen(site);
    WalkOfInvoke();
    assert WalkBlock(body[1..], true) == WalkBlock([BareWrite(site)], true);
    ExecutionsAreDecided(body, site);
    EffectsInStmt(s);
    BareWriteFacts(site);
    assert OutcomesOfStmt(invoke) == {Completes(true)} by {
      DoneFirst(Emitted(None, true));
    }
    forall seen
      ensures WritesAt(site, seen) in OutcomesOfBlock(body) <==> seen && MayComplete(OutcomesOfStmt(s))
    {
      InInTurn(OutcomesOfStmt(invoke), OutcomesOfBlock(body[1..]), WritesAt(site, seen));
      InInTurn(OutcomesOfStmt(s), OutcomesOfBlock([BareWrite(site)]), WritesAt(site, seen));
      InInTurn(OutcomesOfStmt(s), OutcomesOfBlock([BareWrite(site)]), WritesAt(site, false));
    }
  }

  /** Neither a `return` nor a `loop` without a `break` completes. */
  lemma SomeStatementsNeverComplete()
    ensures !MayComplete(OutcomesOfStmt(ExprStmt(Jump(Return, []))))
    ensures !MayComplete(OutcomesOfStmt(ExprStmt(Loop(None, []))))
  {
    DoneFirst({Leaves(Return, false)});
    var e := Loop(None, []);
    forall seen
      ensures Completes(seen) !in OutcomesOfLoop(e)
    {
      InInTurn(Warmup(e, OutcomesOfPass(e)), Endings(e, OutcomesOfPass(e), OutcomesOfLast(e)), Completes(seen));
    }
  }

  /**
   `'a: { inner } x.amount = 1`, where the walker takes the block to interact: the write is
   reported, and rightly so exactly when 'a is never broken to before an interaction.
   */
  lemma LabelledBlockIsJudgedRightIff(tag: Label, inner: seq<Stmt>, site: Site)
    requires AllInBlock(inner, KeepsItsLabel, true) && site !in SitesInBlock(inner)
    requires WalkBlock(inner, false).escapes && !WalkBlock(inner, false).found
    ensures var body := [ExprStmt(Block(Some(tag), inner)), BareWrite(site)];
      && site in Reported(WalkBlock(body, false).findings)
      && ((forall c: seq<nat> :: Guarded(ExecBlock(body, c).trace, site))
          <==> Leaves(Break(Some(tag)), false) !in OutcomesOfBlock(inner))
  {
    hide ExecBlock, Guarded, SitesInBlock;
    var labelled := ExprStmt(Block(Some(tag), inner));
    var body := [labelled, BareWrite(site)];
    assert body[1..] == [BareWrite(site)];
    WalkBlockIsConsistent(inner, false);
    WriteAfterSeen(site);
    assert WalkStmt(labelled) == Walk(false, true, []);
    assert [] + WalkBlock([BareWrite(site)], true).findings == WalkBlock([BareWrite(site)], true).findings;
    ExecutionsAreDecided(body, site);
    EscapeInBlock(inner);
    EffectsInBlock(inner);
    BareWriteFacts(site);
    var inside, write := OutcomesOfBlock(inner), OutcomesOfBlock([BareWrite(site)]);
    assert OutcomesOfStmt(labelled) == Caught(Some(tag), inside);
    assert OutcomesOfBlock(body) == InTurn(Caught(Some(tag), inside), write);
    UnseenInTurn(Caught(Some(tag), inside), write, WritesAt(site, false));
    CaughtUnseen(tag, inside, site);
  }

  lemma CaughtUnseen(tag: Label, a: set<Outcome>, site: Site)
    ensures Completes(false) in Caught(Some(tag), a) <==> Completes(false) in a || Leaves(Break(Some(tag)), false) in a
    ensures WritesAt(site, false) in Caught(Some(tag), a) <==> WritesAt(site, false) in a
  {
    if Leaves(Break(Some(tag)), false) in a {
      assert Leaves(Break(Some(tag)), false).exit == Break(Some(tag));
    }
  }

  lemma NothingInside()
    ensures SitesInAll([]) == {} && AllOf([], KeepsItsLabel, true)
    ensures SitesInBlock([]) == {} && AllInBlock([], KeepsItsLabel, true)
  {
  }

  lemma NothingToWalk()
    ensures WalkBlock([], false) == QUIET && WalkArgs([]) == QUIET
  {
  }

  /** `'a: { if .. { break 'a } invoke() }` is such a block that may be left too early. */
  lemma LabelledBlocksAreMisjudged(tag: Label, site: Site)
    ensures
      var inner := [ExprStmt(If(Call([]), [ExprStmt(Jump(Break(Some(tag)), []))], None)), Invoke()];
      var body := [ExprStmt(Block(Some(tag), inner)), BareWrite(site)];
      && site in Reported(WalkBlock(body, false).findings)
      && exists c: seq<nat> :: !Guarded(ExecBlock(body, c).trace, site)
  {
    hide ExecBlock, Guarded;
    var jump := [ExprStmt(Jump(Break(Some(tag)), []))];
    var choice := ExprStmt(If(Call([]), jump, None));
    var inner := [choice, Invoke()];
    assert inner[1..] == [Invoke()] && inner[1..][1..] == [];
    assert jump[1..] == [];
    var early := Leaves(Break(Some(tag)), false);
    DoneFirst({early});
    assert OutcomesOfAll([]) == {Completes(false)};
    assert OutcomesOfStmt(jump[0]) == {early};
    assert early in OutcomesOfBlock(jump);
    assert Outcomes(Call([])) == {Completes(false)};
    DoneFirst(OutcomesOfElse(None) + OutcomesOfBlock(jump));
    assert early in OutcomesOfStmt(choice);
    UnseenInTurn(OutcomesOfStmt(choice), OutcomesOfBlock(inner[1..]), early);
    NothingToWalk();
    assert WalkStmt(jump[0]) == QUIET;
    assert WalkBlock(jump, false) == QUIET;
    assert WalkElse(None) == QUIET && WalkExpr(Call([])) == QUIET;
    assert WalkStmt(choice) == QUIET;
    assert WalkBlock(inner[1..], false) == Walk(false, true, []);
    assert AllInBlock(inner, KeepsItsLabel, true) && SitesInBlock(inner) == {} by {
      NothingInside();
      assert AllInStmt(jump[0], KeepsItsLabel, true) && SitesInStmt(jump[0]) == {};
      assert AllInBlock(jump, KeepsItsLabel, true) && SitesInBlock(jump) == {};
      assert All(Call([]), KeepsItsLabel, true) && Sites(Call([])) == {};
      assert Sites(choice.e) == Sites(Call([])) + SitesInBlock(jump) + SitesInOption(choice.e.els);
      assert SitesInOption(choice.e.els) == {} && SitesInStmt(choice) == Sites(choice.e);
      assert AllInStmt(choice, KeepsItsLabel, true) && SitesInStmt(choice) == {};
      assert AllInStmt(Invoke(), KeepsItsLabel, true) && SitesInStmt(Invoke()) == {};
      assert AllInBlock(inner[1..], KeepsItsLabel, true) && SitesInBlock(inner[1..]) == {};
    }
    LabelledBlockIsJudgedRightIff(tag, inner, site);
  }
}
