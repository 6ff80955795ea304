/**
 What the walk of a body comes to, read off the syntax tree without walking: which code always
 performs an interaction as far as the walker can tell, and which bodies it reports.
 */
module CeiSyntax {
  import opened Wrappers
  import opened Cei
  import opened CeiTheorems

  /**
   The interaction is in plain view: a CPI, possibly behind `?`, unary operators, as the
   receiver of a method, among the arguments of a call, or in a statement of a bare block.
   */
  predicate Interacts(e: Expr)
    decreases e, 1
  {
    match e
    case Cpi(_, _) => true
    case Call(args) => exists i :: 0 <= i < |args| && Interacts(args[i])
    case Method(receiver, _, _) => Interacts(receiver)
    case Block(_, body) => exists i :: 0 <= i < |body| && StmtInteracts(body[i])
    case Try(inner) => Interacts(inner)
    case Wrap(inner) => Interacts(inner)
    case _ => false
  }

  predicate StmtInteracts(s: Stmt)
    decreases s, 0
  {
    match s
    case ExprStmt(e) => Interacts(e)
    case Local(init) => init.Some? && Interacts(init.value)
    case Item => false
  }

  predicate Writing(s: Stmt) {
    WritesInStmt(s) != []
  }

  /** Somewhere among these statements, or in a block, branch, arm or loop body inside, a statement in which a write is in sight comes after one that interacts. */
  predicate Offends(ss: seq<Stmt>)
    decreases ss, 1
  {
    || (exists i, j :: 0 <= i < j < |ss| && StmtInteracts(ss[i]) && Writing(ss[j]))
    || exists i :: 0 <= i < |ss| && StmtOffends(ss[i])
  }

  predicate StmtOffends(s: Stmt)
    decreases s, 0
  {
    match s
    case ExprStmt(e) => ExprOffends(e)
    case Local(init) => init.Some? && ExprOffends(init.value)
    case Item => false
  }

  predicate ExprOffends(e: Expr)
    decreases e, 1
  {
    match e
    case Call(args) => exists i :: 0 <= i < |args| && ExprOffends(args[i])
    case Method(receiver, _, _) => ExprOffends(receiver)
    case Block(_, body) => Offends(body)
    case If(cond, thn, els) => ExprOffends(cond) || Offends(thn) || (els.Some? && ExprOffends(els.value))
    case Match(scrutinee, arms) => ExprOffends(scrutinee) || exists i :: 0 <= i < |arms| && ArmOffends(arms[i])
    case For(_, head, body) => ExprOffends(head) || Offends(body)
    case While(_, cond, body) => ExprOffends(cond) || Offends(body)
    case Loop(_, body) => Offends(body)
    case Try(inner) => ExprOffends(inner)
    case Wrap(inner) => ExprOffends(inner)
    case _ => false
  }

  predicate ArmOffends(arm: Arm)
    decreases arm, 0
  {
    (arm.guard.Some? && ExprOffends(arm.guard.value)) || ExprOffends(arm.body)
  }

  // ---- one element more ---------------------------------------------------------------------------

  lemma OffendsByStep(ss: seq<Stmt>)
    requires ss != []
    ensures Offends(ss) <==>
      || StmtOffends(ss[0])
      || (StmtInteracts(ss[0]) && exists j :: 0 <= j < |ss[1..]| && Writing(ss[1..][j]))
      || Offends(ss[1..])
  {
    hide StmtOffends, StmtInteracts, Writing;
    var rest := ss[1..];
    assert forall k :: 0 <= k < |rest| ==> rest[k] == ss[k + 1];
    if i, j :| 0 <= i < j < |ss| && StmtInteracts(ss[i]) && Writing(ss[j]) {
      assert rest[j - 1] == ss[j];
      if i > 0 {
        assert rest[i - 1] == ss[i];
      }
    }
    if i :| 0 <= i < |ss| && StmtOffends(ss[i]) {
      if i > 0 {
        assert rest[i - 1] == ss[i];
      }
    }
  }

  lemma InteractsByStep(ss: seq<Stmt>)
    requires ss != []
    ensures (exists i :: 0 <= i < |ss| && StmtInteracts(ss[i]))
      <==> StmtInteracts(ss[0]) || exists i :: 0 <= i < |ss[1..]| && StmtInteracts(ss[1..][i])
  {
    hide StmtInteracts;
    if i :| 0 <= i < |ss| && StmtInteracts(ss[i]) {
      assert i > 0 ==> ss[1..][i - 1] == ss[i];
    }
    if i :| 0 <= i < |ss[1..]| && StmtInteracts(ss[1..][i]) {
      assert ss[i + 1] == ss[1..][i];
    }
  }

  lemma WritingByStep(ss: seq<Stmt>)
    requires ss != []
    ensures (exists i :: 0 <= i < |ss| && Writing(ss[i]))
      <==> Writing(ss[0]) || exists i :: 0 <= i < |ss[1..]| && Writing(ss[1..][i])
  {
    hide Writing;
    if i :| 0 <= i < |ss| && Writing(ss[i]) {
      assert i > 0 ==> ss[1..][i - 1] == ss[i];
    }
    if i :| 0 <= i < |ss[1..]| && Writing(ss[1..][i]) {
      assert ss[i + 1] == ss[1..][i];
    }
  }

  lemma {:induction false} WritesInBlockIff(ss: seq<Stmt>)
    ensures WritesInBlock(ss) != [] <==> exists i :: 0 <= i < |ss| && Writing(ss[i])
  {
    if ss != [] {
      WritesInBlockIff(ss[1..]);
      WritingByStep(ss);
    }
  }

  lemma {:induction false} WritesInAllIff(es: seq<Expr>)
    ensures WritesInAll(es) != [] <==> exists i :: 0 <= i < |es| && Writes(es[i]) != []
  {
    if es != [] {
      WritesInAllIff(es[1..]);
      if i :| 0 <= i < |es| && Writes(es[i]) != [] {
        assert i > 0 ==> es[1..][i - 1] == es[i];
      }
      if i :| 0 <= i < |es[1..]| && Writes(es[1..][i]) != [] {
        assert es[i + 1] == es[1..][i];
      }
    }
  }

  lemma {:induction false} WritesInArmsIff(arms: seq<Arm>)
    ensures WritesInArms(arms) != [] <==> exists i :: 0 <= i < |arms| && WritesInArm(arms[i]) != []
  {
    if arms != [] {
      WritesInArmsIff(arms[1..]);
      if i :| 0 <= i < |arms| && WritesInArm(arms[i]) != [] {
        assert i > 0 ==> arms[1..][i - 1] == arms[i];
      }
      if i :| 0 <= i < |arms[1..]| && WritesInArm(arms[1..][i]) != [] {
        assert arms[i + 1] == arms[1..][i];
      }
    }
  }

  /** What offends has a write in sight. */
  lemma {:induction false} OffendingWrites(e: Expr)
    requires ExprOffends(e)
    ensures Writes(e) != []
    decreases e, 1
  {
    match e
    case Call(args) =>
      var i :| 0 <= i < |args| && ExprOffends(args[i]);
      OffendingWrites(args[i]);
      WritesInAllIff(args);
    case Method(receiver, _, _) => OffendingWrites(receiver);
    case Block(_, body) => OffendingBlockWrites(body);
    case If(cond, thn, els) =>
      if ExprOffends(cond) {
        OffendingWrites(cond);
      } else if Offends(thn) {
        OffendingBlockWrites(thn);
      } else {
        OffendingWrites(els.value);
      }
    case Match(scrutinee, arms) =>
      if ExprOffends(scrutinee) {
        OffendingWrites(scrutinee);
      } else {
        var i :| 0 <= i < |arms| && ArmOffends(arms[i]);
        OffendingArmWrites(arms[i]);
        WritesInArmsIff(arms);
      }
    case For(_, head, body) =>
      if ExprOffends(head) {
        OffendingWrites(head);
      } else {
        OffendingBlockWrites(body);
      }
    case While(_, cond, body) =>
      if ExprOffends(cond) {
        OffendingWrites(cond);
      } else {
        OffendingBlockWrites(body);
      }
    case Loop(_, body) => OffendingBlockWrites(body);
    case Try(inner) => OffendingWrites(inner);
    case Wrap(inner) => OffendingWrites(inner);
  }

  lemma {:induction false} OffendingArmWrites(arm: Arm)
    requires ArmOffends(arm)
    ensures WritesInArm(arm) != []
    decreases arm, 0
  {
    if arm.guard.Some? && ExprOffends(arm.guard.value) {
      OffendingWrites(arm.guard.value);
    } else {
      OffendingWrites(arm.body);
    }
  }

  lemma {:induction false} OffendingStmtWrites(s: Stmt)
    requires StmtOffends(s)
    ensures Writing(s)
    decreases s, 0
  {
    match s
    case ExprStmt(e) => OffendingWrites(e);
    case Local(init) => OffendingWrites(init.value);
  }

  lemma {:induction false} OffendingBlockWrites(ss: seq<Stmt>)
    requires Offends(ss)
    ensures WritesInBlock(ss) != []
    decreases ss, 0
  {
    WritesInBlockIff(ss);
    if i :| 0 <= i < |ss| && StmtOffends(ss[i]) {
      OffendingStmtWrites(ss[i]);
    }
  }

  // ---- the walk -------------------------------------------------------------------------------------

  /** The pair returned by the walk is what the syntax says. */
  predicate Says(w: Walk, offends: bool, interacts: bool) {
    (w.found <==> offends) && (!w.found ==> (w.escapes <==> interacts))
  }

  lemma {:induction false} WalkSays(e: Expr)
    ensures Says(WalkExpr(e), ExprOffends(e), Interacts(e))
    decreases e, 1
  {
    match e
    case Call(args) => WalkArgsSays(args);
    case Method(receiver, _, _) => WalkSays(receiver);
    case Block(_, body) => WalkBlockSays(body);
    case If(cond, thn, els) =>
      WalkSays(cond);
      WalkBlockSays(thn);
      if els.Some? {
        WalkSays(els.value);
      }
    case Match(scrutinee, arms) =>
      WalkSays(scrutinee);
      WalkArmsSays(arms);
    case For(_, head, body) =>
      WalkSays(head);
      WalkBlockSays(body);
    case While(_, cond, body) =>
      WalkSays(cond);
      WalkBlockSays(body);
    case Loop(_, body) => WalkBlockSays(body);
    case Try(inner) => WalkSays(inner);
    case Wrap(inner) => WalkSays(inner);
    case _ =>
  }

  lemma {:induction false} WalkArgsSays(args: seq<Expr>)
    ensures Says(WalkArgs(args),
      exists i :: 0 <= i < |args| && ExprOffends(args[i]), exists i :: 0 <= i < |args| && Interacts(args[i]))
    decreases args, 0
  {
    hide WalkExpr, ExprOffends, Interacts;
    if args != [] {
      WalkSays(args[0]);
      WalkArgsSays(args[1..]);
      assert forall i :: 0 <= i < |args[1..]| ==> args[1..][i] == args[i + 1];
      if i :| 0 <= i < |args| && ExprOffends(args[i]) {
        assert i > 0 ==> args[1..][i - 1] == args[i];
      }
      if i :| 0 <= i < |args| && Interacts(args[i]) {
        assert i > 0 ==> args[1..][i - 1] == args[i];
      }
    }
  }

  lemma {:induction false} WalkArmsSays(arms: seq<Arm>)
    ensures Says(WalkArms(arms), exists i :: 0 <= i < |arms| && ArmOffends(arms[i]), false)
    decreases arms, 0
  {
    hide WalkArm, ArmOffends;
    if arms != [] {
      WalkArmSays(arms[0]);
      WalkArmsSays(arms[1..]);
      if i :| 0 <= i < |arms| && ArmOffends(arms[i]) {
        assert i > 0 ==> arms[1..][i - 1] == arms[i];
      }
      if i :| 0 <= i < |arms[1..]| && ArmOffends(arms[1..][i]) {
        assert arms[i + 1] == arms[1..][i];
      }
    }
  }

  lemma {:induction false} WalkArmSays(arm: Arm)
    ensures WalkArm(arm).found <==> ArmOffends(arm)
    decreases arm, 0
  {
    if arm.guard.Some? {
      WalkSays(arm.guard.value);
    }
    WalkSays(arm.body);
  }

  lemma {:induction false} WalkStmtSays(s: Stmt)
    ensures Says(WalkStmt(s), StmtOffends(s), StmtInteracts(s))
    decreases s, 0
  {
    match s
    case ExprStmt(e) => WalkSays(e);
    case Local(init) =>
      if init.Some? {
        WalkSays(init.value);
      }
    case Item =>
  }

  /** Behind an interaction every write is found. */
  lemma {:induction false} WalkSeenSays(ss: seq<Stmt>)
    ensures Says(WalkBlock(ss, true), exists i :: 0 <= i < |ss| && Writing(ss[i]), true)
    decreases ss, 0
  {
    hide Writing;
    if ss != [] {
      WalkSeenSays(ss[1..]);
      WritingByStep(ss);
      assert Writing(ss[0]) <==> WritesInStmt(ss[0]) != [] by {
        WritingIs(ss[0]);
      }
    }
  }

  lemma WritingIs(s: Stmt)
    ensures Writing(s) <==> WritesInStmt(s) != []
  {
  }

  lemma {:induction false} WalkBlockSays(ss: seq<Stmt>)
    ensures Says(WalkBlock(ss, false), Offends(ss), exists i :: 0 <= i < |ss| && StmtInteracts(ss[i]))
    decreases ss, 0
  {
    hide WalkStmt, StmtOffends, StmtInteracts, Writing, Offends;
    if ss == [] {
      NothingOffends();
    } else {
      WalkStmtSays(ss[0]);
      OffendsByStep(ss);
      InteractsByStep(ss);
      if !StmtOffends(ss[0]) {
        if StmtInteracts(ss[0]) {
          WalkSeenSays(ss[1..]);
          if Offends(ss[1..]) {
            OffendingBlockWrites(ss[1..]);
            WritesInBlockIff(ss[1..]);
          }
        } else {
          WalkBlockSays(ss[1..]);
        }
      }
    }
  }

  lemma NothingOffends()
    ensures !Offends([])
  {
  }

  /**
   A body is reported if and only if somewhere, in the body itself or in a block, branch, arm
   or loop body inside, a statement with a write in sight follows one that interacts.
   */
  lemma FoundIffOffends(body: seq<Stmt>)
    ensures WalkBlock(body, false).found <==> Offends(body)
    ensures !Offends(body) ==>
      (WalkBlock(body, false).escapes <==> exists i :: 0 <= i < |body| && StmtInteracts(body[i]))
  {
    WalkBlockSays(body);
  }

  /** The finding lists the writes of the first statement with any behind the first that interacts. */
  lemma {:induction false} FindingIsTheFirstWriting(ss: seq<Stmt>, i: nat, j: nat)
    requires i < j < |ss| && StmtInteracts(ss[i]) && Writing(ss[j])
    requires forall k :: 0 <= k < i ==> !StmtInteracts(ss[k])
    requires forall k :: 0 <= k <= i ==> !StmtOffends(ss[k])
    requires forall k :: i < k < j ==> !Writing(ss[k])
    ensures WalkBlock(ss, false).findings == [Finding(WritesInStmt(ss[j]))]
    decreases |ss|
  {
    hide WalkStmt, StmtOffends, StmtInteracts;
    WalkStmtSays(ss[0]);
    WalkStmtIsConsistent(ss[0]);
    var w := WalkStmt(ss[0]);
    assert StmtOffends(ss[0]) == false && w.findings == [];
    if i > 0 {
      assert forall k :: 0 <= k < |ss| - 1 ==> ss[1..][k] == ss[k + 1];
      FindingIsTheFirstWriting(ss[1..], i - 1, j - 1);
      assert [] + [Finding(WritesInStmt(ss[j]))] == [Finding(WritesInStmt(ss[j]))];
    } else {
      FirstWriting(ss[1..], j - 1);
      assert [] + WalkBlock(ss[1..], true).findings == WalkBlock(ss[1..], true).findings;
    }
  }

  lemma {:induction false} FirstWriting(ss: seq<Stmt>, j: nat)
    requires j < |ss| && Writing(ss[j]) && forall k :: 0 <= k < j ==> !Writing(ss[k])
    ensures WalkBlock(ss, true).findings == [Finding(WritesInStmt(ss[j]))]
  {
    if j > 0 {
      assert forall k :: 0 <= k < |ss| - 1 ==> ss[1..][k] == ss[k + 1];
      FirstWriting(ss[1..], j - 1);
    }
  }

  // ---- the order in which writes are collected -----------------------------------------------------------

  /** The parts of an expression the collectors enter, in source order; a block counts as its statements. */
  function Parts(e: Expr): seq<Expr> {
    match e
    case Cpi(operands, _) => operands
    case Call(args) => args
    case Method(receiver, args, _) => [receiver] + args
    case Binary(left, right, _, _) => [left, right]
    case Block(_, body) => StmtParts(body)
    case If(cond, thn, els) => [cond] + StmtParts(thn) + Maybe(els)
    case Match(scrutinee, arms) => [scrutinee] + ArmParts(arms)
    case For(_, head, body) => [head] + StmtParts(body)
    case While(_, cond, body) => [cond] + StmtParts(body)
    case Loop(_, body) => StmtParts(body)
    case Try(inner) => [inner]
    case Wrap(inner) => [inner]
    case Unexamined(_) => []
    case Jump(_, _) => []
  }

  function Maybe(e: Option<Expr>): seq<Expr> {
    if e.Some? then [e.value] else []
  }

  function StmtParts(ss: seq<Stmt>): seq<Expr> {
    if ss == [] then []
    else (match ss[0] case ExprStmt(e) => [e] case Local(init) => Maybe(init) case Item => []) + StmtParts(ss[1..])
  }

  function ArmParts(arms: seq<Arm>): seq<Expr> {
    if arms == [] then [] else Maybe(arms[0].guard) + [arms[0].body] + ArmParts(arms[1..])
  }

  /** The write site of the expression itself. */
  function OwnWrite(e: Expr): seq<Site> {
    if (e.Cpi? || e.Method? || e.Binary?) && e.write.Some? then [e.write.value] else []
  }

  lemma {:induction false} WritesInAllJoin(a: seq<Expr>, b: seq<Expr>)
    ensures WritesInAll(a + b) == WritesInAll(a) + WritesInAll(b)
  {
    if a == [] {
      assert a + b == b;
    } else {
      assert (a + b)[1..] == a[1..] + b;
      WritesInAllJoin(a[1..], b);
    }
  }

  lemma WritesInMaybe(e: Option<Expr>)
    ensures WritesInAll(Maybe(e)) == if e.Some? then Writes(e.value) else []
  {
    if e.Some? {
      assert [e.value][1..] == [];
    }
  }

  lemma {:induction false} BlockInParts(ss: seq<Stmt>)
    ensures WritesInBlock(ss) == WritesInAll(StmtParts(ss))
  {
    if ss != [] {
      BlockInParts(ss[1..]);
      var head := match ss[0] case ExprStmt(e) => [e] case Local(init) => Maybe(init) case Item => [];
      WritesInAllJoin(head, StmtParts(ss[1..]));
      WritesInMaybe(match ss[0] case ExprStmt(e) => Some(e) case Local(init) => init case Item => None);
    }
  }

  lemma {:induction false} ArmsInParts(arms: seq<Arm>)
    ensures WritesInArms(arms) == WritesInAll(ArmParts(arms))
  {
    if arms != [] {
      ArmsInParts(arms[1..]);
      WritesInMaybe(arms[0].guard);
      WritesInMaybe(Some(arms[0].body));
      WritesInAllJoin(Maybe(arms[0].guard), [arms[0].body]);
      WritesInAllJoin(Maybe(arms[0].guard) + [arms[0].body], ArmParts(arms[1..]));
    }
  }

  lemma OneThenMore(e: Expr, more: seq<Expr>)
    ensures WritesInAll([e] + more) == Writes(e) + WritesInAll(more)
  {
    assert ([e] + more)[1..] == more;
  }

  lemma IfInParts(e: Expr)
    requires e.If?
    ensures Writes(e) == WritesInAll(Parts(e))
  {
    hide WritesInBlock, WritesInAll;
    BlockInParts(e.thn);
    WritesInMaybe(e.els);
    OneThenMore(e.cond, StmtParts(e.thn));
    WritesInAllJoin([e.cond] + StmtParts(e.thn), Maybe(e.els));
  }

  lemma BinaryInParts(e: Expr)
    requires e.Binary?
    ensures Writes(e) == Own(e.write) + WritesInAll(Parts(e))
  {
    hide WritesInAll;
    OneThenMore(e.left, [e.right]);
    assert [e.left] + [e.right] == [e.left, e.right];
    WritesInMaybe(Some(e.right));
  }

  lemma NoParts()
    ensures WritesInAll([]) == []
  {
  }

  /** Writes are collected in source order, the expression's own before those of its parts. */
  lemma CollectedInSourceOrder(e: Expr)
    ensures Writes(e) == OwnWrite(e) + WritesInAll(Parts(e))
  {
    hide WritesInBlock, WritesInArms, WritesInAll;
    match e
    case Method(receiver, args, _) => OneThenMore(receiver, args);
    case Binary(_, _, _, _) => BinaryInParts(e);
    case Block(_, body) => BlockInParts(body);
    case If(_, _, _) => IfInParts(e);
    case Match(scrutinee, arms) =>
      ArmsInParts(arms);
      OneThenMore(scrutinee, ArmParts(arms));
    case For(_, head, body) =>
      BlockInParts(body);
      OneThenMore(head, StmtParts(body));
    case While(_, cond, body) =>
      BlockInParts(body);
      OneThenMore(cond, StmtParts(body));
    case Loop(_, body) => BlockInParts(body);
    case Try(inner) => WritesInMaybe(Some(inner));
    case Wrap(inner) => WritesInMaybe(Some(inner));
    case _ => NoParts();
  }
}
