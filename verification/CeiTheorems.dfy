/**
 The CEI walker against the outcomes of the code it walks: what it reports, what its flag
 means, and that a reported write never comes before an interaction.
 */
module CeiTheorems {
  import opened Wrappers
  import opened Cei
  import opened CeiOutcomes

  // ---- sites -----------------------------------------------------------------------------------

  /** Every write site inside, examined or not. */
  function Sites(e: Expr): set<Site>
    decreases e, 1
  {
    match e
    case Cpi(operands, write) => OwnSite(write) + SitesInAll(operands)
    case Call(args) => SitesInAll(args)
    case Method(receiver, args, write) => OwnSite(write) + Sites(receiver) + SitesInAll(args)
    case Binary(left, right, _, write) => OwnSite(write) + Sites(left) + Sites(right)
    case Block(_, body) => SitesInBlock(body)
    case If(cond, thn, els) => Sites(cond) + SitesInBlock(thn) + SitesInOption(els)
    case Match(scrutinee, arms) => Sites(scrutinee) + SitesInArms(arms)
    case For(_, head, body) => Sites(head) + SitesInBlock(body)
    case While(_, cond, body) => Sites(cond) + SitesInBlock(body)
    case Loop(_, body) => SitesInBlock(body)
    case Try(inner) => Sites(inner)
    case Wrap(inner) => Sites(inner)
    case Unexamined(parts) => SitesInAll(parts)
    case Jump(_, parts) => SitesInAll(parts)
  }

  function OwnSite(write: Option<Site>): set<Site> {
    if write.Some? then {write.value} else {}
  }

  function SitesInOption(e: Option<Expr>): set<Site>
    decreases e, 0
  {
    if e.Some? then Sites(e.value) else {}
  }

  function SitesInAll(es: seq<Expr>): set<Site>
    decreases es, 0
  {
    if es == [] then {} else Sites(es[0]) + SitesInAll(es[1..])
  }

  function SitesInStmt(s: Stmt): set<Site>
    decreases s, 0
  {
    match s
    case ExprStmt(e) => Sites(e)
    case Local(init) => SitesInOption(init)
    case Item => {}
  }

  function SitesInBlock(ss: seq<Stmt>): set<Site>
    decreases ss, 0
  {
    if ss == [] then {} else SitesInStmt(ss[0]) + SitesInBlock(ss[1..])
  }

  function SitesInArm(arm: Arm): set<Site>
    decreases arm, 0
  {
    SitesInOption(arm.guard) + Sites(arm.body)
  }

  function SitesInArms(arms: seq<Arm>): set<Site>
    decreases arms, 0
  {
    if arms == [] then {} else SitesInArm(arms[0]) + SitesInArms(arms[1..])
  }

  // ---- conditions on every node of a body -----------------------------------------------------

  /** p holds of every node, and no two nodes share a write site when `apart`. */
  ghost predicate All(e: Expr, p: Expr -> bool, apart: bool)
    decreases e, 1
  {
    p(e) &&
    match e
    case Cpi(operands, write) => AllOf(operands, p, apart) && (apart ==> OwnSite(write) !! SitesInAll(operands))
    case Call(args) => AllOf(args, p, apart)
    case Method(receiver, args, write) =>
      && All(receiver, p, apart) && AllOf(args, p, apart)
      && (apart ==> OwnSite(write) !! Sites(receiver) !! SitesInAll(args))
    case Binary(left, right, _, write) =>
      && All(left, p, apart) && All(right, p, apart)
      && (apart ==> OwnSite(write) !! Sites(left) !! Sites(right))
    case Block(_, body) => AllInBlock(body, p, apart)
    case If(cond, thn, els) =>
      && All(cond, p, apart) && AllInBlock(thn, p, apart) && (els.Some? ==> All(els.value, p, apart))
      && (apart ==> Sites(cond) !! SitesInBlock(thn) !! SitesInOption(els))
    case Match(scrutinee, arms) =>
      All(scrutinee, p, apart) && AllInArms(arms, p, apart) && (apart ==> Sites(scrutinee) !! SitesInArms(arms))
    case For(_, head, body) =>
      All(head, p, apart) && AllInBlock(body, p, apart) && (apart ==> Sites(head) !! SitesInBlock(body))
    case While(_, cond, body) =>
      All(cond, p, apart) && AllInBlock(body, p, apart) && (apart ==> Sites(cond) !! SitesInBlock(body))
    case Loop(_, body) => AllInBlock(body, p, apart)
    case Try(inner) => All(inner, p, apart)
    case Wrap(inner) => All(inner, p, apart)
    case Unexamined(parts) => AllOf(parts, p, apart)
    case Jump(_, parts) => AllOf(parts, p, apart)
  }

  ghost predicate AllOf(es: seq<Expr>, p: Expr -> bool, apart: bool)
    decreases es, 0
  {
    es == []
    || (All(es[0], p, apart) && AllOf(es[1..], p, apart) && (apart ==> Sites(es[0]) !! SitesInAll(es[1..])))
  }

  ghost predicate AllInStmt(s: Stmt, p: Expr -> bool, apart: bool)
    decreases s, 0
  {
    match s
    case ExprStmt(e) => All(e, p, apart)
    case Local(init) => init.Some? ==> All(init.value, p, apart)
    case Item => true
  }

  ghost predicate AllInBlock(ss: seq<Stmt>, p: Expr -> bool, apart: bool)
    decreases ss, 0
  {
    ss == []
    || (&& AllInStmt(ss[0], p, apart) && AllInBlock(ss[1..], p, apart)
        && (apart ==> SitesInStmt(ss[0]) !! SitesInBlock(ss[1..])))
  }

  ghost predicate AllInArm(arm: Arm, p: Expr -> bool, apart: bool)
    decreases arm, 0
  {
    && (arm.guard.Some? ==> All(arm.guard.value, p, apart)) && All(arm.body, p, apart)
    && (apart ==> SitesInOption(arm.guard) !! Sites(arm.body))
  }

  ghost predicate AllInArms(arms: seq<Arm>, p: Expr -> bool, apart: bool)
    decreases arms, 0
  {
    arms == []
    || (&& AllInArm(arms[0], p, apart) && AllInArms(arms[1..], p, apart)
        && (apart ==> SitesInArm(arms[0]) !! SitesInArms(arms[1..])))
  }

  /** When the walker relies on a labelled block to interact, its label is never broken to before that. */
  predicate KeepsItsLabel(e: Expr) {
    e.Block? && e.tag.Some? && WalkBlock(e.body, false).escapes && !WalkBlock(e.body, false).found ==>
      Leaves(Break(e.tag), false) !in OutcomesOfBlock(e.body)
  }

  /** No interaction, and no write out of the walker's sight. */
  predicate Quiet(e: Expr) {
    !e.Cpi? && (e.Unexamined? || e.Jump? ==> SitesInAll(e.parts) == {})
  }

  // ---- outcomes come from sites ------------------------------------------------------------------

  /** Writes happen at sites of the code only, and quiet code never interacts. */
  ghost predicate Within(a: set<Outcome>, sites: set<Site>, quiet: bool) {
    (forall s, seen :: WritesAt(s, seen) in a ==> s in sites) && (quiet ==> forall o :: o in a ==> !o.seen)
  }

  lemma WithinInTurn(a: set<Outcome>, b: set<Outcome>, sites: set<Site>, quiet: bool)
    requires Within(a, sites, quiet) && Within(b, sites, quiet)
    ensures Within(InTurn(a, b), sites, quiet)
  {
    forall o | o in InTurn(a, b)
      ensures o.WritesAt? ==> o.site in sites
      ensures quiet ==> !o.seen
    {
      InInTurn(a, b, o);
      assert o.WritesAt? ==> o in a || WritesAt(o.site, o.seen) in b || WritesAt(o.site, false) in b;
    }
  }

  lemma {:induction false} EffectsAreSites(e: Expr)
    ensures Within(Outcomes(e), Sites(e), All(e, Quiet, false))
    decreases e, 2
  {
    var sites, quiet := Sites(e), All(e, Quiet, false);
    match e
    case Cpi(operands, write) =>
      EffectsInAll(operands);
      WithinInTurn(OutcomesOfAll(operands), Emitted(write, true), sites, quiet);
    case Call(args) => EffectsInAll(args);
    case Method(receiver, args, write) =>
      EffectsAreSites(receiver);
      EffectsInAll(args);
      WithinInTurn(Outcomes(receiver), OutcomesOfAll(args), sites, quiet);
      WithinInTurn(InTurn(Outcomes(receiver), OutcomesOfAll(args)), Emitted(write, false), sites, quiet);
    case Binary(_, _, _, _) => EffectsInBinary(e);
    case Block(_, body) => EffectsInBlock(body);
    case If(_, _, _) => EffectsInIf(e);
    case Match(scrutinee, arms) =>
      EffectsAreSites(scrutinee);
      EffectsInArms(arms);
      WithinInTurn(Outcomes(scrutinee), OutcomesOfArms(arms), sites, quiet);
    case For(_, head, _) =>
      EffectsAreSites(head);
      EffectsInLoop(e);
      WithinInTurn(Outcomes(head), OutcomesOfLoop(e), sites, quiet);
    case While(_, _, _) => EffectsInLoop(e);
    case Loop(_, _) => EffectsInLoop(e);
    case Try(inner) =>
      EffectsAreSites(inner);
      WithinInTurn(Outcomes(inner), {Completes(false)} + {Leaves(Return, false)}, sites, quiet);
    case Wrap(inner) => EffectsAreSites(inner);
    case Unexamined(parts) => EffectsInAll(parts);
    case Jump(exit, parts) =>
      EffectsInAll(parts);
      WithinInTurn(OutcomesOfAll(parts), {Leaves(exit, false)}, sites, quiet);
  }

  lemma {:induction false} EffectsInIf(e: Expr)
    requires e.If?
    ensures Within(Outcomes(e), Sites(e), All(e, Quiet, false))
    decreases e, 1
  {
    EffectsAreSites(e.cond);
    EffectsInBlock(e.thn);
    if e.els.Some? {
      EffectsAreSites(e.els.value);
    }
    assert Within(OutcomesOfElse(e.els), Sites(e), All(e, Quiet, false));
    WithinInTurn(Outcomes(e.cond), OutcomesOfElse(e.els) + OutcomesOfBlock(e.thn), Sites(e), All(e, Quiet, false));
  }

  lemma {:induction false} EffectsInBinary(e: Expr)
    requires e.Binary?
    ensures Within(Outcomes(e), Sites(e), All(e, Quiet, false))
    decreases e, 1
  {
    var sites, quiet := Sites(e), All(e, Quiet, false);
    EffectsAreSites(e.left);
    EffectsAreSites(e.right);
    var second := if e.isLazy then {Completes(false)} + Outcomes(e.right) else Outcomes(e.right);
    WithinInTurn(Outcomes(e.left), second, sites, quiet);
    WithinInTurn(InTurn(Outcomes(e.left), second), Emitted(e.write, false), sites, quiet);
  }

  lemma {:induction false} EffectsInLoop(e: Expr)
    requires IsLoop(e)
    ensures Within(OutcomesOfLoop(e), Sites(e), All(e, Quiet, false))
    decreases e, 1
  {
    var sites, quiet := Sites(e), All(e, Quiet, false);
    EffectsInBlock(e.body);
    if e.While? {
      EffectsAreSites(e.cond);
      WithinInTurn(Outcomes(e.cond), OutcomesOfBlock(e.body), sites, quiet);
    }
    WithinInTurn(Warmup(e, OutcomesOfPass(e)), Endings(e, OutcomesOfPass(e), OutcomesOfLast(e)), sites, quiet);
  }

  lemma {:induction false} EffectsInAll(es: seq<Expr>)
    ensures Within(OutcomesOfAll(es), SitesInAll(es), AllOf(es, Quiet, false))
    decreases es, 0
  {
    if es != [] {
      EffectsAreSites(es[0]);
      EffectsInAll(es[1..]);
      WithinInTurn(Outcomes(es[0]), OutcomesOfAll(es[1..]), SitesInAll(es), AllOf(es, Quiet, false));
    }
  }

  lemma {:induction false} EffectsInStmt(s: Stmt)
    ensures Within(OutcomesOfStmt(s), SitesInStmt(s), AllInStmt(s, Quiet, false))
    decreases s, 0
  {
    match s
    case ExprStmt(e) => EffectsAreSites(e);
    case Local(init) =>
      if init.Some? {
        EffectsAreSites(init.value);
      }
    case Item =>
  }

  lemma {:induction false} EffectsInBlock(ss: seq<Stmt>)
    ensures Within(OutcomesOfBlock(ss), SitesInBlock(ss), AllInBlock(ss, Quiet, false))
    decreases ss, 0
  {
    if ss != [] {
      EffectsInStmt(ss[0]);
      EffectsInBlock(ss[1..]);
      WithinInTurn(OutcomesOfStmt(ss[0]), OutcomesOfBlock(ss[1..]), SitesInBlock(ss), AllInBlock(ss, Quiet, false));
    }
  }

  lemma {:induction false} EffectsInArm(arm: Arm, others: set<Outcome>, sites: set<Site>, quiet: bool)
    requires Within(others, sites, quiet) && SitesInArm(arm) <= sites && (quiet ==> AllInArm(arm, Quiet, false))
    ensures Within(OutcomesOfArm(arm, others), sites, quiet)
    decreases arm, 0
  {
    EffectsAreSites(arm.body);
    if arm.guard.Some? {
      EffectsAreSites(arm.guard.value);
      WithinInTurn(Outcomes(arm.guard.value), others + Outcomes(arm.body), sites, quiet);
    }
  }

  lemma {:induction false} EffectsInArms(arms: seq<Arm>)
    ensures Within(OutcomesOfArms(arms), SitesInArms(arms), AllInArms(arms, Quiet, false))
    decreases arms, 0
  {
    if arms != [] {
      EffectsInArms(arms[1..]);
      EffectsInArm(arms[0], OutcomesOfArms(arms[1..]), SitesInArms(arms), AllInArms(arms, Quiet, false));
    }
  }

  // ---- what findings list ------------------------------------------------------------------------

  /** The sites a walk reported. */
  function Reported(fs: seq<Finding>): set<Site> {
    if fs == [] then {} else (set s | s in fs[0].writes) + Reported(fs[1..])
  }

  lemma {:induction false} ReportedJoin(a: seq<Finding>, b: seq<Finding>)
    ensures Reported(a + b) == Reported(a) + Reported(b)
  {
    if a == [] {
      assert a + b == b;
    } else {
      assert (a + b)[1..] == a[1..] + b;
      ReportedJoin(a[1..], b);
    }
  }

  /** A walk found something exactly when it pushed a finding; every finding lists a write, and only writes of the code. */
  ghost predicate Consistent(w: Walk, writes: seq<Site>) {
    && (w.found <==> w.findings != [])
    && (w.found <==> Reported(w.findings) != {})
    && forall s :: s in Reported(w.findings) ==> s in writes
  }

  lemma ContainedConsistent(a: Walk, b: Walk, x: seq<Site>, y: seq<Site>)
    requires Consistent(a, x) && Consistent(b, y)
    ensures Consistent(Contained(a, b), x + y)
  {
    ReportedJoin(a.findings, b.findings);
  }

  /** Collected writes are write sites; in quiet code they are all of them. */
  ghost predicate Matches(writes: seq<Site>, sites: set<Site>, quiet: bool) {
    (forall s :: s in writes ==> s in sites) && (quiet ==> forall s :: s in sites ==> s in writes)
  }

  lemma {:induction false} WritesAreSites(e: Expr)
    ensures Matches(Writes(e), Sites(e), All(e, Quiet, false))
    decreases e, 1
  {
    match e
    case Cpi(operands, _) => WritesInAllAreSites(operands);
    case Call(args) => WritesInAllAreSites(args);
    case Method(receiver, args, _) =>
      WritesAreSites(receiver);
      WritesInAllAreSites(args);
    case Binary(left, right, _, _) =>
      WritesAreSites(left);
      WritesAreSites(right);
    case Block(_, body) => WritesInBlockAreSites(body);
    case If(cond, thn, els) =>
      WritesAreSites(cond);
      WritesInBlockAreSites(thn);
      if els.Some? {
        WritesAreSites(els.value);
      }
    case Match(scrutinee, arms) =>
      WritesAreSites(scrutinee);
      WritesInArmsAreSites(arms);
    case For(_, head, body) =>
      WritesAreSites(head);
      WritesInBlockAreSites(body);
    case While(_, cond, body) =>
      WritesAreSites(cond);
      WritesInBlockAreSites(body);
    case Loop(_, body) => WritesInBlockAreSites(body);
    case Try(inner) => WritesAreSites(inner);
    case Wrap(inner) => WritesAreSites(inner);
    case _ =>
  }

  lemma {:induction false} WritesInAllAreSites(es: seq<Expr>)
    ensures Matches(WritesInAll(es), SitesInAll(es), AllOf(es, Quiet, false))
    decreases es, 0
  {
    if es != [] {
      WritesAreSites(es[0]);
      WritesInAllAreSites(es[1..]);
    }
  }

  lemma {:induction false} WritesInStmtAreSites(s: Stmt)
    ensures Matches(WritesInStmt(s), SitesInStmt(s), AllInStmt(s, Quiet, false))
    decreases s, 0
  {
    match s
    case ExprStmt(e) => WritesAreSites(e);
    case Local(init) =>
      if init.Some? {
        WritesAreSites(init.value);
      }
    case Item =>
  }

  lemma {:induction false} WritesInBlockAreSites(ss: seq<Stmt>)
    ensures Matches(WritesInBlock(ss), SitesInBlock(ss), AllInBlock(ss, Quiet, false))
    decreases ss, 0
  {
    if ss != [] {
      WritesInStmtAreSites(ss[0]);
      WritesInBlockAreSites(ss[1..]);
    }
  }

  lemma {:induction false} WritesInArmAreSites(arm: Arm)
    ensures Matches(WritesInArm(arm), SitesInArm(arm), AllInArm(arm, Quiet, false))
    decreases arm, 0
  {
    if arm.guard.Some? {
      WritesAreSites(arm.guard.value);
    }
    WritesAreSites(arm.body);
  }

  lemma {:induction false} WritesInArmsAreSites(arms: seq<Arm>)
    ensures Matches(WritesInArms(arms), SitesInArms(arms), AllInArms(arms, Quiet, false))
    decreases arms, 0
  {
    if arms != [] {
      WritesInArmAreSites(arms[0]);
      WritesInArmsAreSites(arms[1..]);
    }
  }

  /** found holds exactly when at least one finding was pushed. */
  lemma {:induction false} WalkIsConsistent(e: Expr)
    ensures Consistent(WalkExpr(e), Writes(e))
    decreases e, 1
  {
    match e
    case Call(args) => WalkArgsIsConsistent(args);
    case Method(receiver, _, _) => WalkIsConsistent(receiver);
    case Block(_, body) => WalkBlockIsConsistent(body, false);
    case If(cond, thn, els) =>
      WalkIsConsistent(cond);
      WalkBlockIsConsistent(thn, false);
      if els.Some? {
        WalkIsConsistent(els.value);
        ContainedConsistent(WalkExpr(els.value), QUIET, Writes(els.value), []);
      }
      var inElse := if els.Some? then Writes(els.value) else [];
      assert inElse + [] == inElse;
      ContainedConsistent(WalkBlock(thn, false), WalkElse(els), WritesInBlock(thn), inElse);
      ContainedConsistent(WalkExpr(cond), Contained(WalkBlock(thn, false), WalkElse(els)), Writes(cond), WritesInBlock(thn) + inElse);
    case Match(scrutinee, arms) =>
      WalkIsConsistent(scrutinee);
      WalkArmsIsConsistent(arms);
      ContainedConsistent(WalkExpr(scrutinee), WalkArms(arms), Writes(scrutinee), WritesInArms(arms));
    case For(_, head, body) =>
      WalkIsConsistent(head);
      WalkBlockIsConsistent(body, false);
      ContainedConsistent(WalkExpr(head), WalkBlock(body, false).(escapes := false), Writes(head), WritesInBlock(body));
    case While(_, cond, body) =>
      WalkIsConsistent(cond);
      WalkBlockIsConsistent(body, false);
      ContainedConsistent(WalkExpr(cond), WalkBlock(body, false).(escapes := false), Writes(cond), WritesInBlock(body));
    case Loop(_, body) => WalkBlockIsConsistent(body, false);
    case Try(inner) => WalkIsConsistent(inner);
    case Wrap(inner) => WalkIsConsistent(inner);
    case _ =>
  }

  lemma {:induction false} WalkArgsIsConsistent(args: seq<Expr>)
    ensures Consistent(WalkArgs(args), WritesInAll(args))
    decreases args, 0
  {
    if args != [] {
      WalkIsConsistent(args[0]);
      WalkArgsIsConsistent(args[1..]);
      ReportedJoin(WalkExpr(args[0]).findings, WalkArgs(args[1..]).findings);
    }
  }

  lemma {:induction false} WalkArmsIsConsistent(arms: seq<Arm>)
    ensures Consistent(WalkArms(arms), WritesInArms(arms))
    decreases arms, 0
  {
    if arms != [] {
      WalkArmIsConsistent(arms[0]);
      WalkArmsIsConsistent(arms[1..]);
      ContainedConsistent(WalkArm(arms[0]), WalkArms(arms[1..]), WritesInArm(arms[0]), WritesInArms(arms[1..]));
    }
  }

  lemma {:induction false} WalkArmIsConsistent(arm: Arm)
    ensures Consistent(WalkArm(arm), WritesInArm(arm))
    decreases arm, 0
  {
    WalkIsConsistent(arm.body);
    if arm.guard.Some? {
      WalkIsConsistent(arm.guard.value);
      ContainedConsistent(WalkExpr(arm.guard.value), WalkExpr(arm.body), Writes(arm.guard.value), Writes(arm.body));
    } else {
      ContainedConsistent(QUIET, WalkExpr(arm.body), [], Writes(arm.body));
    }
  }

  lemma {:induction false} WalkStmtIsConsistent(s: Stmt)
    ensures Consistent(WalkStmt(s), WritesInStmt(s))
    decreases s, 0
  {
    match s
    case ExprStmt(e) => WalkIsConsistent(e);
    case Local(init) =>
      if init.Some? {
        WalkIsConsistent(init.value);
      }
    case Item =>
  }

  lemma {:induction false} WalkBlockIsConsistent(ss: seq<Stmt>, seen: bool)
    ensures Consistent(WalkBlock(ss, seen), WritesInBlock(ss))
    decreases ss, 0
  {
    if ss != [] {
      if seen {
        WalkBlockIsConsistent(ss[1..], true);
        var writes := WritesInStmt(ss[0]);
        if writes != [] {
          var f := [Finding(writes)];
          assert f[1..] == [] && Reported(f) == (set s | s in writes) + Reported([]);
          assert writes[0] in Reported(f);
        }
      } else {
        var w := WalkStmt(ss[0]);
        WalkStmtIsConsistent(ss[0]);
        WalkBlockIsConsistent(ss[1..], w.escapes);
        ContainedConsistent(w, WalkBlock(ss[1..], w.escapes), WritesInStmt(ss[0]), WritesInBlock(ss[1..]));
      }
    }
  }

  // ---- escaping means that every completed execution interacts ---------------------------------------

  /** What is shown without an interaction before it. */
  lemma UnseenInTurn(a: set<Outcome>, b: set<Outcome>, o: Outcome)
    requires !o.seen
    ensures o in InTurn(a, b) <==> (o in a && !o.Completes?) || (Completes(false) in a && o in b)
  {
    InInTurn(a, b, o);
  }

  lemma {:induction false} EscapeMeansInteraction(e: Expr)
    requires All(e, KeepsItsLabel, true) && WalkExpr(e).escapes && !WalkExpr(e).found
    ensures Completes(false) !in Outcomes(e)
    decreases e, 1
  {
    match e
    case Cpi(operands, write) => UnseenInTurn(OutcomesOfAll(operands), Emitted(write, true), Completes(false));
    case Call(args) => EscapeInArgs(args);
    case Method(receiver, args, write) =>
      EscapeMeansInteraction(receiver);
      UnseenInTurn(Outcomes(receiver), OutcomesOfAll(args), Completes(false));
      UnseenInTurn(InTurn(Outcomes(receiver), OutcomesOfAll(args)), Emitted(write, false), Completes(false));
    case Block(_, body) => EscapeInBlock(body);
    case Try(inner) =>
      EscapeMeansInteraction(inner);
      UnseenInTurn(Outcomes(inner), {Completes(false)} + {Leaves(Return, false)}, Completes(false));
    case Wrap(inner) => EscapeMeansInteraction(inner);
    case Match(scrutinee, arms) => ArmsDoNotEscape(arms);
    case _ =>
  }

  lemma {:induction false} ArmsDoNotEscape(arms: seq<Arm>)
    ensures WalkArms(arms).escapes ==> WalkArms(arms).found
  {
    if arms != [] {
      ArmsDoNotEscape(arms[1..]);
    }
  }

  lemma {:induction false} EscapeInArgs(args: seq<Expr>)
    requires AllOf(args, KeepsItsLabel, true) && WalkArgs(args).escapes && !WalkArgs(args).found
    ensures Completes(false) !in OutcomesOfAll(args)
    decreases args, 0
  {
    if args != [] {
      UnseenInTurn(Outcomes(args[0]), OutcomesOfAll(args[1..]), Completes(false));
      if WalkExpr(args[0]).escapes {
        EscapeMeansInteraction(args[0]);
      } else {
        EscapeInArgs(args[1..]);
      }
    }
  }

  lemma {:induction false} EscapeInStmt(s: Stmt)
    requires AllInStmt(s, KeepsItsLabel, true) && WalkStmt(s).escapes && !WalkStmt(s).found
    ensures Completes(false) !in OutcomesOfStmt(s)
    decreases s, 0
  {
    match s
    case ExprStmt(e) => EscapeMeansInteraction(e);
    case Local(init) =>
      if init.Some? {
        EscapeMeansInteraction(init.value);
      }
    case Item =>
  }

  lemma {:induction false} EscapeInBlock(ss: seq<Stmt>)
    requires AllInBlock(ss, KeepsItsLabel, true) && WalkBlock(ss, false).escapes && !WalkBlock(ss, false).found
    ensures Completes(false) !in OutcomesOfBlock(ss)
    decreases ss, 0
  {
    if ss != [] {
      UnseenInTurn(OutcomesOfStmt(ss[0]), OutcomesOfBlock(ss[1..]), Completes(false));
      if WalkStmt(ss[0]).escapes {
        EscapeInStmt(ss[0]);
      } else {
        EscapeInBlock(ss[1..]);
      }
    }
  }

  // ---- reported writes only ever happen after an interaction -----------------------------------------

  /** What a walk reports lies in the sites of what was walked. */
  lemma ReportedAreSites(e: Expr)
    ensures forall s :: s in Reported(WalkExpr(e).findings) ==> s in Sites(e)
  {
    WalkIsConsistent(e);
    WritesAreSites(e);
  }

  lemma ReportedInBlockAreSites(ss: seq<Stmt>, seen: bool)
    ensures forall s :: s in Reported(WalkBlock(ss, seen).findings) ==> s in SitesInBlock(ss)
  {
    WalkBlockIsConsistent(ss, seen);
    WritesInBlockAreSites(ss);
  }

  /** No execution writes at the site before interacting. */
  predicate NeverFirst(a: set<Outcome>, site: Site) {
    WritesAt(site, false) !in a
  }

  lemma NeverFirstInTurn(a: set<Outcome>, b: set<Outcome>, site: Site)
    ensures NeverFirst(InTurn(a, b), site) <==> NeverFirst(a, site) && (Completes(false) in a ==> NeverFirst(b, site))
  {
    UnseenInTurn(a, b, WritesAt(site, false));
  }

  lemma {:induction false} Safe(e: Expr, site: Site)
    requires All(e, KeepsItsLabel, true)
    requires site in Reported(WalkExpr(e).findings) || site !in Sites(e)
    ensures NeverFirst(Outcomes(e), site)
    decreases e, 2
  {
    if site !in Sites(e) {
      EffectsAreSites(e);
    } else {
      match e
      case Call(args) => SafeInArgs(args, site);
      case Method(_, _, _) => SafeInMethod(e, site);
      case Block(_, body) => SafeInBlock(body, site);
      case If(_, _, _) => SafeInIf(e, site);
      case Match(_, _) => SafeInMatch(e, site);
      case For(_, head, _) => SafeInLoop(e, head, site);
      case While(_, cond, _) => SafeInLoop(e, cond, site);
      case Loop(_, body) =>
        SafeInBlock(body, site);
        LoopNeverFirst(e, site);
      case Try(inner) =>
        Safe(inner, site);
        NeverFirstInTurn(Outcomes(inner), {Completes(false)} + {Leaves(Return, false)}, site);
      case Wrap(inner) => Safe(inner, site);
      case _ =>
    }
  }

  lemma {:induction false} SafeInMethod(e: Expr, site: Site)
    requires e.Method? && All(e, KeepsItsLabel, true) && site in Reported(WalkExpr(e).findings)
    ensures NeverFirst(Outcomes(e), site)
    decreases e, 1
  {
    var a, b := Outcomes(e.receiver), OutcomesOfAll(e.args);
    ReportedAreSites(e.receiver);
    Safe(e.receiver, site);
    EffectsInAll(e.args);
    NeverFirstInTurn(a, b, site);
    NeverFirstInTurn(InTurn(a, b), Emitted(e.write, false), site);
  }

  lemma {:induction false} SafeInArgs(args: seq<Expr>, site: Site)
    requires AllOf(args, KeepsItsLabel, true)
    requires site in Reported(WalkArgs(args).findings) || site !in SitesInAll(args)
    ensures NeverFirst(OutcomesOfAll(args), site)
    decreases args, 0
  {
    if args != [] {
      ReportedJoin(WalkExpr(args[0]).findings, WalkArgs(args[1..]).findings);
      ReportedAreSites(args[0]);
      WalkArgsIsConsistent(args[1..]);
      WritesInAllAreSites(args[1..]);
      Safe(args[0], site);
      SafeInArgs(args[1..], site);
      NeverFirstInTurn(Outcomes(args[0]), OutcomesOfAll(args[1..]), site);
    }
  }

  lemma {:induction false} SafeInStmt(s: Stmt, site: Site)
    requires AllInStmt(s, KeepsItsLabel, true)
    requires site in Reported(WalkStmt(s).findings) || site !in SitesInStmt(s)
    ensures NeverFirst(OutcomesOfStmt(s), site)
    decreases s, 0
  {
    match s
    case ExprStmt(e) => Safe(e, site);
    case Local(init) =>
      if init.Some? {
        Safe(init.value, site);
      }
    case Item =>
  }

  lemma {:induction false} SafeInBlock(ss: seq<Stmt>, site: Site)
    requires AllInBlock(ss, KeepsItsLabel, true)
    requires site in Reported(WalkBlock(ss, false).findings) || site !in SitesInBlock(ss)
    ensures NeverFirst(OutcomesOfBlock(ss), site)
    decreases ss, 0
  {
    if ss != [] {
      var w := WalkStmt(ss[0]);
      ReportedJoin(w.findings, WalkBlock(ss[1..], w.escapes).findings);
      WalkStmtIsConsistent(ss[0]);
      WritesInStmtAreSites(ss[0]);
      ReportedInBlockAreSites(ss[1..], w.escapes);
      SafeInStmt(ss[0], site);
      if !w.found && w.escapes {
        EscapeInStmt(ss[0]);
      } else {
        SafeInBlock(ss[1..], site);
      }
      NeverFirstInTurn(OutcomesOfStmt(ss[0]), OutcomesOfBlock(ss[1..]), site);
    }
  }

  lemma {:induction false} SafeInIf(e: Expr, site: Site)
    requires e.If? && All(e, KeepsItsLabel, true) && site in Reported(WalkExpr(e).findings)
    ensures NeverFirst(Outcomes(e), site)
    decreases e, 1
  {
    IfReports(e, site);
    Safe(e.cond, site);
    SafeInBlock(e.thn, site);
    if e.els.Some? {
      Safe(e.els.value, site);
    }
    NeverFirstInTurn(Outcomes(e.cond), OutcomesOfElse(e.els) + OutcomesOfBlock(e.thn), site);
  }

  /** A site an `if` reports belongs to one of its parts, and is reported there. */
  lemma IfReports(e: Expr, site: Site)
    requires e.If? && All(e, KeepsItsLabel, true) && site in Reported(WalkExpr(e).findings)
    ensures site in Reported(WalkExpr(e.cond).findings) || site !in Sites(e.cond)
    ensures site in Reported(WalkBlock(e.thn, false).findings) || site !in SitesInBlock(e.thn)
    ensures e.els.Some? ==> site in Reported(WalkExpr(e.els.value).findings) || site !in Sites(e.els.value)
  {
    var wc, wt, we := WalkExpr(e.cond), WalkBlock(e.thn, false), WalkElse(e.els);
    ReportedJoin(wc.findings, Contained(wt, we).findings);
    ReportedJoin(wt.findings, we.findings);
    ReportedAreSites(e.cond);
    ReportedInBlockAreSites(e.thn, false);
    if e.els.Some? {
      ReportedAreSites(e.els.value);
      ReportedJoin(WalkExpr(e.els.value).findings, []);
    }
  }

  lemma {:induction false} SafeInMatch(e: Expr, site: Site)
    requires e.Match? && All(e, KeepsItsLabel, true) && site in Reported(WalkExpr(e).findings)
    ensures NeverFirst(Outcomes(e), site)
    decreases e, 1
  {
    ReportedJoin(WalkExpr(e.scrutinee).findings, WalkArms(e.arms).findings);
    ReportedAreSites(e.scrutinee);
    WalkArmsIsConsistent(e.arms);
    WritesInArmsAreSites(e.arms);
    Safe(e.scrutinee, site);
    SafeInArms(e.arms, site);
    NeverFirstInTurn(Outcomes(e.scrutinee), OutcomesOfArms(e.arms), site);
  }

  lemma {:induction false} SafeInArm(arm: Arm, site: Site, others: set<Outcome>)
    requires AllInArm(arm, KeepsItsLabel, true) && NeverFirst(others, site)
    requires site in Reported(WalkArm(arm).findings) || site !in SitesInArm(arm)
    ensures NeverFirst(OutcomesOfArm(arm, others), site)
    decreases arm, 0
  {
    ReportedAreSites(arm.body);
    if arm.guard.Some? {
      ReportedJoin(WalkExpr(arm.guard.value).findings, WalkExpr(arm.body).findings);
      ReportedAreSites(arm.guard.value);
      Safe(arm.guard.value, site);
      NeverFirstInTurn(Outcomes(arm.guard.value), others + Outcomes(arm.body), site);
    } else {
      ReportedJoin([], WalkExpr(arm.body).findings);
    }
    Safe(arm.body, site);
  }

  lemma {:induction false} SafeInArms(arms: seq<Arm>, site: Site)
    requires AllInArms(arms, KeepsItsLabel, true)
    requires site in Reported(WalkArms(arms).findings) || site !in SitesInArms(arms)
    ensures NeverFirst(OutcomesOfArms(arms), site)
    decreases arms, 0
  {
    if arms != [] {
      ReportedJoin(WalkArm(arms[0]).findings, WalkArms(arms[1..]).findings);
      WalkArmIsConsistent(arms[0]);
      WritesInArmAreSites(arms[0]);
      WalkArmsIsConsistent(arms[1..]);
      WritesInArmsAreSites(arms[1..]);
      SafeInArms(arms[1..], site);
      SafeInArm(arms[0], site, OutcomesOfArms(arms[1..]));
    }
  }

  lemma {:induction false} SafeInLoop(e: Expr, head: Expr, site: Site)
    requires (e.For? && head == e.head) || (e.While? && head == e.cond)
    requires All(e, KeepsItsLabel, true) && site in Reported(WalkExpr(e).findings)
    ensures NeverFirst(Outcomes(e), site)
    decreases e, 1
  {
    LoopReports(e, head, site);
    Safe(head, site);
    SafeInBlock(e.body, site);
    NeverFirstInTurn(Outcomes(head), OutcomesOfBlock(e.body), site);
    LoopNeverFirst(e, site);
    NeverFirstInTurn(Outcomes(head), OutcomesOfLoop(e), site);
  }

  /** A site a loop reports belongs to its head or to its body, and is reported there. */
  lemma LoopReports(e: Expr, head: Expr, site: Site)
    requires (e.For? && head == e.head) || (e.While? && head == e.cond)
    requires All(e, KeepsItsLabel, true) && site in Reported(WalkExpr(e).findings)
    ensures site in Reported(WalkExpr(head).findings) || site !in Sites(head)
    ensures site in Reported(WalkBlock(e.body, false).findings) || site !in SitesInBlock(e.body)
  {
    ReportedJoin(WalkExpr(head).findings, WalkBlock(e.body, false).findings);
    ReportedAreSites(head);
    ReportedInBlockAreSites(e.body, false);
  }

  lemma LoopNeverFirst(e: Expr, site: Site)
    requires IsLoop(e) && NeverFirst(OutcomesOfPass(e), site)
    ensures NeverFirst(OutcomesOfLoop(e), site)
  {
    NeverFirstInTurn(Warmup(e, OutcomesOfPass(e)), Endings(e, OutcomesOfPass(e), OutcomesOfLast(e)), site);
  }
}
