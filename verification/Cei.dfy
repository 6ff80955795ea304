/**
 The CEI (checks, effects, interactions) walker, over the part of the Rust syntax tree it
 distinguishes, together with what the code it walks can do when executed.
 */
module Cei {
  import opened Wrappers

  /** A write site is a node that counts as an account write; sites are named by numbers. */
  type Site = nat

  type Label = nat

  datatype Exit = Return | Break(tag: Option<Label>) | Continue(tag: Option<Label>)

  datatype Expr =
    /** `invoke` / `invoke_signed`, as a call or a method call; operands are evaluated first. */
    | Cpi(operands: seq<Expr>, write: Option<Site>)
    | Call(args: seq<Expr>)
    | Method(receiver: Expr, args: seq<Expr>, write: Option<Site>)
    /** Binary operators and assignments; a lazy one may leave its right side unevaluated. */
    | Binary(left: Expr, right: Expr, isLazy: bool, write: Option<Site>)
    | Block(tag: Option<Label>, body: seq<Stmt>)
    | If(cond: Expr, thn: seq<Stmt>, els: Option<Expr>)
    | Match(scrutinee: Expr, arms: seq<Arm>)
    | For(tag: Option<Label>, head: Expr, body: seq<Stmt>)
    | While(tag: Option<Label>, cond: Expr, body: seq<Stmt>)
    | Loop(tag: Option<Label>, body: seq<Stmt>)
    | Try(inner: Expr)
    /** Unary operators, `let` conditions and parentheses. */
    | Wrap(inner: Expr)
    /** Every other form: its parts are evaluated but the walker does not look inside. */
    | Unexamined(parts: seq<Expr>)
    /** `return`, `break`, `continue`; not looked into either. */
    | Jump(exit: Exit, parts: seq<Expr>)

  datatype Stmt = ExprStmt(e: Expr) | Local(init: Option<Expr>) | Item

  datatype Arm = Arm(guard: Option<Expr>, body: Expr)

  // ---- write collection ----------------------------------------------------------------------

  function Own(write: Option<Site>): seq<Site> {
    if write.Some? then [write.value] else []
  }

  /** `find_account_writes_in_expr`: writes anywhere inside, including nested blocks. */
  function Writes(e: Expr): seq<Site>
    decreases e, 1
  {
    match e
    case Cpi(operands, write) => Own(write) + WritesInAll(operands)
    case Call(args) => WritesInAll(args)
    case Method(receiver, args, write) => Own(write) + Writes(receiver) + WritesInAll(args)
    case Binary(left, right, _, write) => Own(write) + Writes(left) + Writes(right)
    case Block(_, body) => WritesInBlock(body)
    case If(cond, thn, els) => Writes(cond) + WritesInBlock(thn) + (if els.Some? then Writes(els.value) else [])
    case Match(scrutinee, arms) => Writes(scrutinee) + WritesInArms(arms)
    case For(_, head, body) => Writes(head) + WritesInBlock(body)
    case While(_, cond, body) => Writes(cond) + WritesInBlock(body)
    case Loop(_, body) => WritesInBlock(body)
    case Try(inner) => Writes(inner)
    case Wrap(inner) => Writes(inner)
    case Unexamined(_) => []
    case Jump(_, _) => []
  }

  function WritesInAll(es: seq<Expr>): seq<Site>
    decreases es, 0
  {
    if es == [] then [] else Writes(es[0]) + WritesInAll(es[1..])
  }

  function WritesInStmt(s: Stmt): seq<Site>
    decreases s, 0
  {
    match s
    case ExprStmt(e) => Writes(e)
    case Local(init) => if init.Some? then Writes(init.value) else []
    case Item => []
  }

  function WritesInBlock(ss: seq<Stmt>): seq<Site>
    decreases ss, 0
  {
    if ss == [] then [] else WritesInStmt(ss[0]) + WritesInBlock(ss[1..])
  }

  function WritesInArms(arms: seq<Arm>): seq<Site>
    decreases arms, 0
  {
    if arms == [] then [] else WritesInArm(arms[0]) + WritesInArms(arms[1..])
  }

  function WritesInArm(arm: Arm): seq<Site>
    decreases arm, 0
  {
    (if arm.guard.Some? then Writes(arm.guard.value) else []) + Writes(arm.body)
  }

  /** `push_unique_str`: a text that is listed already is not listed again. */
  function PushUnique(texts: seq<string>, text: string): seq<string> {
    if text in texts then texts else texts + [text]
  }

  /** The texts listed once these writes have been collected as well. */
  function Listed(texts: seq<string>, writes: seq<Site>, text: Site -> string): seq<string>
    decreases |writes|
  {
    if writes == [] then texts else Listed(PushUnique(texts, text(writes[0])), writes[1..], text)
  }

  lemma {:induction false} ListedInTurn(texts: seq<string>, a: seq<Site>, b: seq<Site>, text: Site -> string)
    ensures Listed(texts, a + b, text) == Listed(Listed(texts, a, text), b, text)
    decreases |a|
  {
    if a == [] {
      assert a + b == b;
    } else {
      assert (a + b)[1..] == a[1..] + b;
      ListedInTurn(PushUnique(texts, text(a[0])), a[1..], b, text);
    }
  }

  /** Every collected text is listed exactly once, and nothing else is. */
  lemma {:induction false} ListedOnce(texts: seq<string>, writes: seq<Site>, text: Site -> string)
    requires forall i, j :: 0 <= i < j < |texts| ==> texts[i] != texts[j]
    ensures var r := Listed(texts, writes, text);
      && (forall i, j :: 0 <= i < j < |r| ==> r[i] != r[j])
      && (forall x :: x in r <==> x in texts || exists s :: s in writes && text(s) == x)
      && texts <= r
    decreases |writes|
  {
    if writes != [] {
      ListedOnce(PushUnique(texts, text(writes[0])), writes[1..], text);
    }
  }

  lemma SomethingListed(writes: seq<Site>, text: Site -> string)
    ensures Listed([], writes, text) == [] <==> writes == []
  {
    ListedOnce([], writes, text);
    assert writes != [] ==> text(writes[0]) in Listed([], writes, text);
  }

  /** The vector of texts the write collectors append to; `text` prints a write site. */
  class WriteCollector {
    const text: Site -> string
    var writes: seq<string>

    constructor (text: Site -> string)
      ensures this.text == text && writes == []
    {
      this.text := text;
      writes := [];
    }

    method Push(write: Option<Site>)
      modifies this
      ensures writes == Listed(old(writes), Own(write), text)
    {
      if write.Some? && text(write.value) !in writes {
        writes := writes + [text(write.value)];
      }
    }

    method InExpr(e: Expr)
      modifies this
      ensures writes == Listed(old(writes), Writes(e), text)
      decreases e, 1
    {
      hide WritesInAll, WritesInBlock, WritesInArms, Listed;
      match e
      case Cpi(operands, write) =>
        Push(write);
        InAll(operands);
        ListedInTurn(old(writes), Own(write), WritesInAll(operands), text);
      case Call(args) => InAll(args);
      case Method(receiver, args, write) =>
        Push(write);
        InExpr(receiver);
        ListedInTurn(old(writes), Own(write), Writes(receiver), text);
        InAll(args);
        ListedInTurn(old(writes), Own(write) + Writes(receiver), WritesInAll(args), text);
      case Binary(left, right, _, write) =>
        Push(write);
        InExpr(left);
        ListedInTurn(old(writes), Own(write), Writes(left), text);
        InExpr(right);
        ListedInTurn(old(writes), Own(write) + Writes(left), Writes(right), text);
      case Block(_, body) => InBlock(body);
      case If(cond, thn, els) =>
        InExpr(cond);
        InBlock(thn);
        ListedInTurn(old(writes), Writes(cond), WritesInBlock(thn), text);
        var sofar := Writes(cond) + WritesInBlock(thn);
        if els.Some? {
          InExpr(els.value);
          ListedInTurn(old(writes), sofar, Writes(els.value), text);
        } else {
          assert sofar + [] == sofar;
        }
      case Match(scrutinee, arms) =>
        InExpr(scrutinee);
        InArms(arms);
        ListedInTurn(old(writes), Writes(scrutinee), WritesInArms(arms), text);
      case For(_, head, body) =>
        InExpr(head);
        InBlock(body);
        ListedInTurn(old(writes), Writes(head), WritesInBlock(body), text);
      case While(_, cond, body) =>
        InExpr(cond);
        InBlock(body);
        ListedInTurn(old(writes), Writes(cond), WritesInBlock(body), text);
      case Loop(_, body) => InBlock(body);
      case Try(inner) => InExpr(inner);
      case Wrap(inner) => InExpr(inner);
      case Unexamined(_) => NothingListed();
      case Jump(_, _) => NothingListed();
    }

    lemma NothingListed()
      ensures Listed(writes, [], text) == writes
    {
    }

    method InAll(es: seq<Expr>)
      modifies this
      ensures writes == Listed(old(writes), WritesInAll(es), text)
      decreases es, 0
    {
      for i := 0 to |es|
        invariant Listed(writes, WritesInAll(es[i..]), text) == Listed(old(writes), WritesInAll(es), text)
      {
        ghost var before := writes;
        InExpr(es[i]);
        ListedInTurn(before, Writes(es[i]), WritesInAll(es[i + 1..]), text);
        assert es[i..][1..] == es[i + 1..];
      }
    }

    method InStmt(s: Stmt)
      modifies this
      ensures writes == Listed(old(writes), WritesInStmt(s), text)
      decreases s, 0
    {
      match s
      case ExprStmt(e) => InExpr(e);
      case Local(init) =>
        if init.Some? {
          InExpr(init.value);
        }
      case Item =>
    }

    method InBlock(ss: seq<Stmt>)
      modifies this
      ensures writes == Listed(old(writes), WritesInBlock(ss), text)
      decreases ss, 0
    {
      for i := 0 to |ss|
        invariant Listed(writes, WritesInBlock(ss[i..]), text) == Listed(old(writes), WritesInBlock(ss), text)
      {
        ghost var before := writes;
        InStmt(ss[i]);
        ListedInTurn(before, WritesInStmt(ss[i]), WritesInBlock(ss[i + 1..]), text);
        assert ss[i..][1..] == ss[i + 1..];
      }
    }

    method InArm(arm: Arm)
      modifies this
      ensures writes == Listed(old(writes), WritesInArm(arm), text)
      decreases arm, 0
    {
      if arm.guard.Some? {
        InExpr(arm.guard.value);
      }
      InExpr(arm.body);
      ListedInTurn(old(writes), if arm.guard.Some? then Writes(arm.guard.value) else [], Writes(arm.body), text);
    }

    method InArms(arms: seq<Arm>)
      modifies this
      ensures writes == Listed(old(writes), WritesInArms(arms), text)
      decreases arms, 0
    {
      for i := 0 to |arms|
        invariant Listed(writes, WritesInArms(arms[i..]), text) == Listed(old(writes), WritesInArms(arms), text)
      {
        ghost var before := writes;
        InArm(arms[i]);
        ListedInTurn(before, WritesInArm(arms[i]), WritesInArms(arms[i + 1..]), text);
        assert arms[i..][1..] == arms[i + 1..];
      }
    }
  }

  // ---- the walk ---------------------------------------------------------------------------------

  /** A finding lists the writes of the offending statement. */
  datatype Finding = Finding(writes: seq<Site>)

  /** The returned pair and the findings pushed on the way. */
  datatype Walk = Walk(found: bool, escapes: bool, findings: seq<Finding>)

  const QUIET := Walk(false, false, [])

  /** A part whose CPI does not leak out; a find stops the walk. */
  function Contained(w: Walk, next: Walk): Walk {
    if w.found then Walk(true, true, w.findings) else Walk(next.found, next.escapes, w.findings + next.findings)
  }

  function WalkExpr(e: Expr): Walk
    decreases e, 1
  {
    match e
    case Cpi(_, _) => Walk(false, true, [])
    case Call(args) => WalkArgs(args)
    case Method(receiver, _, _) => WalkExpr(receiver)
    case Block(_, body) => WalkBlock(body, false)
    case If(cond, thn, els) =>
      Contained(WalkExpr(cond), Contained(WalkBlock(thn, false), WalkElse(els)))
    case Match(scrutinee, arms) => Contained(WalkExpr(scrutinee), WalkArms(arms))
    case For(_, head, body) => Contained(WalkExpr(head), WalkBlock(body, false).(escapes := false))
    case While(_, cond, body) => Contained(WalkExpr(cond), WalkBlock(body, false).(escapes := false))
    case Loop(_, body) => WalkBlock(body, false).(escapes := false)
    case Try(inner) => WalkExpr(inner)
    case Wrap(inner) => WalkExpr(inner)
    case Binary(_, _, _, _) => QUIET
    case Unexamined(_) => QUIET
    case Jump(_, _) => QUIET
  }

  function WalkElse(els: Option<Expr>): Walk
    decreases els, 0
  {
    if els.Some? then Contained(WalkExpr(els.value), QUIET) else QUIET
  }

  /** Every argument is walked, also after a find. */
  function WalkArgs(args: seq<Expr>): Walk
    decreases args, 0
  {
    if args == [] then QUIET
    else
      var w, rest := WalkExpr(args[0]), WalkArgs(args[1..]);
      Walk(w.found || rest.found, w.escapes || rest.escapes, w.findings + rest.findings)
  }

  function WalkArms(arms: seq<Arm>): Walk
    decreases arms, 0
  {
    if arms == [] then QUIET else Contained(WalkArm(arms[0]), WalkArms(arms[1..]))
  }

  function WalkArm(arm: Arm): Walk
    decreases arm, 0
  {
    Contained(if arm.guard.Some? then WalkExpr(arm.guard.value) else QUIET, WalkExpr(arm.body))
  }

  function WalkStmt(s: Stmt): Walk
    decreases s, 0
  {
    match s
    case ExprStmt(e) => WalkExpr(e)
    case Local(init) => if init.Some? then WalkExpr(init.value) else QUIET
    case Item => QUIET
  }

  /** The statements from here on; `seen`: a CPI ran before them in this block. */
  function WalkBlock(ss: seq<Stmt>, seen: bool): Walk
    decreases ss, 0
  {
    if ss == [] then Walk(false, seen, [])
    else if seen then
      if WritesInStmt(ss[0]) != [] then Walk(true, true, [Finding(WritesInStmt(ss[0]))]) else WalkBlock(ss[1..], true)
    else
      var w := WalkStmt(ss[0]);
      Contained(w, WalkBlock(ss[1..], w.escapes))
  }

  /** A finding as it is printed: the distinct texts of its writes. */
  function Printed(fs: seq<Finding>, text: Site -> string): seq<seq<string>> {
    if fs == [] then [] else [Listed([], fs[0].writes, text)] + Printed(fs[1..], text)
  }

  lemma {:induction false} PrintedInTurn(a: seq<Finding>, b: seq<Finding>, text: Site -> string)
    ensures Printed(a + b, text) == Printed(a, text) + Printed(b, text)
  {
    if a == [] {
      assert a + b == b;
    } else {
      assert (a + b)[1..] == a[1..] + b;
      PrintedInTurn(a[1..], b, text);
    }
  }

  lemma PrintedOne(f: Finding, text: Site -> string)
    ensures Printed([f], text) == [Listed([], f.writes, text)]
  {
    assert [f][1..] == [];
  }

  /** The walker with its list of findings, as the source runs it. */
  class Walker {
    const text: Site -> string
    var findings: seq<seq<string>>

    constructor (text: Site -> string)
      ensures this.text == text && findings == []
    {
      this.text := text;
      findings := [];
    }

    lemma NothingPrinted()
      ensures Printed([], text) == []
    {
    }

    method VisitBlock(ss: seq<Stmt>) returns (found: bool, cpiOut: bool)
      modifies this
      ensures found == WalkBlock(ss, false).found && cpiOut == WalkBlock(ss, false).escapes
      ensures findings == old(findings) + Printed(WalkBlock(ss, false).findings, text)
      decreases ss, 1
    {
      hide Listed, Printed, WritesInStmt;
      NothingPrinted();
      var cpiSeen := false;
      for i := 0 to |ss|
        invariant var w := WalkBlock(ss, false); var rest := WalkBlock(ss[i..], cpiSeen);
          && w.found == rest.found && w.escapes == rest.escapes
          && findings + Printed(rest.findings, text) == old(findings) + Printed(w.findings, text)
      {
        if cpiSeen {
          var collector := new WriteCollector(text);
          collector.InStmt(ss[i]);
          SomethingListed(WritesInStmt(ss[i]), text);
          if collector.writes != [] {
            findings := findings + [collector.writes];
            PrintedOne(Finding(WritesInStmt(ss[i])), text);
            return true, true;
          }
        } else {
          var hit, escapes := VisitStmt(ss[i]);
          if hit {
            return true, true;
          }
          PrintedInTurn(WalkStmt(ss[i]).findings, WalkBlock(ss[i + 1..], escapes).findings, text);
          cpiSeen := escapes;
        }
      }
      return false, cpiSeen;
    }

    method VisitStmt(s: Stmt) returns (found: bool, escapes: bool)
      modifies this
      ensures found == WalkStmt(s).found && escapes == WalkStmt(s).escapes
      ensures findings == old(findings) + Printed(WalkStmt(s).findings, text)
      decreases s, 0
    {
      found, escapes := false, false;
      match s
      case ExprStmt(e) => found, escapes := VisitExpr(e);
      case Local(init) =>
        if init.Some? {
          found, escapes := VisitExpr(init.value);
        }
      case Item =>
    }

    method VisitExpr(e: Expr) returns (found: bool, escapes: bool)
      modifies this
      ensures found == WalkExpr(e).found && escapes == WalkExpr(e).escapes
      ensures findings == old(findings) + Printed(WalkExpr(e).findings, text)
      decreases e, 1
    {
      found, escapes := false, false;
      match e
      case Cpi(_, _) => return false, true;
      case Call(args) => found, escapes := VisitArgs(args);
      case Method(receiver, _, _) => found, escapes := VisitExpr(receiver);
      case Block(_, body) => found, escapes := VisitBlock(body);
      case If(_, _, _) => found, escapes := VisitIf(e);
      case Match(_, _) => found, escapes := VisitMatch(e);
      case For(_, head, body) => found, escapes := VisitLoop(e, head);
      case While(_, cond, body) => found, escapes := VisitLoop(e, cond);
      case Loop(_, body) =>
        found, escapes := VisitBlock(body);
        return found, false;
      case Try(inner) => found, escapes := VisitExpr(inner);
      case Wrap(inner) => found, escapes := VisitExpr(inner);
      case _ =>
    }

    method VisitArgs(args: seq<Expr>) returns (found: bool, escapes: bool)
      modifies this
      ensures found == WalkArgs(args).found && escapes == WalkArgs(args).escapes
      ensures findings == old(findings) + Printed(WalkArgs(args).findings, text)
      decreases args, 0
    {
      hide Listed, Printed;
      NothingPrinted();
      found, escapes := false, false;
      for i := 0 to |args|
        invariant var w := WalkArgs(args); var rest := WalkArgs(args[i..]);
          && w.found == (found || rest.found) && w.escapes == (escapes || rest.escapes)
          && findings + Printed(rest.findings, text) == old(findings) + Printed(w.findings, text)
      {
        var argFound, argEscapes := VisitExpr(args[i]);
        PrintedInTurn(WalkExpr(args[i]).findings, WalkArgs(args[i + 1..]).findings, text);
        found, escapes := found || argFound, escapes || argEscapes;
      }
    }

    method VisitIf(e: Expr) returns (found: bool, escapes: bool)
      requires e.If?
      modifies this
      ensures found == WalkExpr(e).found && escapes == WalkExpr(e).escapes
      ensures findings == old(findings) + Printed(WalkExpr(e).findings, text)
      decreases e, 0
    {
      hide Listed, Printed;
      NothingPrinted();
      found, escapes := VisitExpr(e.cond);
      if found {
        return true, true;
      }
      found, escapes := VisitBlock(e.thn);
      PrintedInTurn(WalkExpr(e.cond).findings, WalkBlock(e.thn, false).findings, text);
      if found {
        return true, true;
      }
      if e.els.Some? {
        found, escapes := VisitExpr(e.els.value);
      }
      assert WalkElse(e.els).findings == if e.els.Some? then WalkExpr(e.els.value).findings else [];
      PrintedInTurn(WalkBlock(e.thn, false).findings, WalkElse(e.els).findings, text);
      PrintedInTurn(WalkExpr(e.cond).findings, WalkBlock(e.thn, false).findings + WalkElse(e.els).findings, text);
      assert findings == old(findings) + Printed(WalkExpr(e.cond).findings, text)
        + Printed(WalkBlock(e.thn, false).findings, text) + Printed(WalkElse(e.els).findings, text);
      return found, found;
    }

    method VisitArms(arms: seq<Arm>) returns (found: bool, escapes: bool)
      modifies this
      ensures found == WalkArms(arms).found && escapes == WalkArms(arms).escapes
      ensures findings == old(findings) + Printed(WalkArms(arms).findings, text)
      decreases arms, 0
    {
      hide Listed, Printed;
      NothingPrinted();
      for i := 0 to |arms|
        invariant var w := WalkArms(arms); var rest := WalkArms(arms[i..]);
          && w.found == rest.found && w.escapes == rest.escapes
          && findings + Printed(rest.findings, text) == old(findings) + Printed(w.findings, text)
      {
        found, escapes := VisitArm(arms[i]);
        PrintedInTurn(WalkArm(arms[i]).findings, WalkArms(arms[i + 1..]).findings, text);
        if found {
          return true, true;
        }
      }
      return false, false;
    }

    method VisitMatch(e: Expr) returns (found: bool, escapes: bool)
      requires e.Match?
      modifies this
      ensures found == WalkExpr(e).found && escapes == WalkExpr(e).escapes
      ensures findings == old(findings) + Printed(WalkExpr(e).findings, text)
      decreases e, 0
    {
      hide Listed, Printed;
      NothingPrinted();
      found, escapes := VisitExpr(e.scrutinee);
      if found {
        return true, true;
      }
      found, escapes := VisitArms(e.arms);
      PrintedInTurn(WalkExpr(e.scrutinee).findings, WalkArms(e.arms).findings, text);
    }

    method VisitLoop(e: Expr, head: Expr) returns (found: bool, escapes: bool)
      requires (e.For? && head == e.head) || (e.While? && head == e.cond)
      modifies this
      ensures found == WalkExpr(e).found && escapes == WalkExpr(e).escapes
      ensures findings == old(findings) + Printed(WalkExpr(e).findings, text)
      decreases e, 0
    {
      hide Listed, Printed;
      NothingPrinted();
      found, escapes := VisitExpr(head);
      if found {
        return true, true;
      }
      found, escapes := VisitBlock(e.body);
      PrintedInTurn(WalkExpr(head).findings, WalkBlock(e.body, false).findings, text);
      return found, false;
    }

    method VisitArm(arm: Arm) returns (found: bool, escapes: bool)
      modifies this
      ensures var w := WalkArm(arm); found == w.found && findings == old(findings) + Printed(w.findings, text)
      decreases arm, 0
    {
      if arm.guard.Some? {
        found, escapes := VisitExpr(arm.guard.value);
        if found {
          return;
        }
      }
      found, escapes := VisitExpr(arm.body);
      PrintedInTurn(
        if arm.guard.Some? then WalkExpr(arm.guard.value).findings else [], WalkExpr(arm.body).findings, text);
    }
  }

  // ---- execution ----------------------------------------------------------------------------------

  datatype Event = Interaction | Effect(site: Site)

  /** How an execution of a piece of code ended; Cut: it is observed only this far, inside the code. */
  datatype End = Completed | Left(exit: Exit) | Cut

  /** One execution: what happened, how it ended, and the choices not yet used. */
  datatype Run = Run(trace: seq<Event>, end: End, rest: seq<nat>) {
    function Then(next: Run): Run {
      if end.Completed? then Run(trace + next.trace, next.end, next.rest) else this
    }
  }

  function First(c: seq<nat>): nat {
    if c == [] then 0 else c[0]
  }

  function Later(c: seq<nat>): seq<nat> {
    if c == [] then [] else c[1..]
  }

  function Nothing(c: seq<nat>): Run {
    Run([], Completed, c)
  }

  function Effects(write: Option<Site>): seq<Event> {
    if write.Some? then [Effect(write.value)] else []
  }

  predicate IsLoop(e: Expr) {
    e.For? || e.While? || e.Loop?
  }

  /** A `break` or `continue` with this label, inside loop e, is about e. */
  predicate Targets(tag: Option<Label>, e: Expr)
    requires IsLoop(e)
  {
    tag.None? || tag == e.tag
  }

  predicate GoesOn(e: Expr, end: End)
    requires IsLoop(e)
  {
    end.Completed? || (end.Left? && end.exit.Continue? && Targets(end.exit.tag, e))
  }

  predicate BreaksOut(e: Expr, end: End)
    requires IsLoop(e)
  {
    end.Left? && end.exit.Break? && Targets(end.exit.tag, e)
  }

  /**
   Execute under a list of choices: every branch, arm, iteration count and failing `?` is
   decided by the next choice (0 when they run out), so every list is one execution, observed
   up to its end or up to some point inside an endless loop.
   */
  function Exec(e: Expr, c: seq<nat>): Run
    decreases e, 2, 0
  {
    match e
    case Cpi(operands, write) =>
      var a := ExecAll(operands, c);
      a.Then(Run(Effects(write) + [Interaction], Completed, a.rest))
    case Call(args) => ExecAll(args, c)
    case Method(receiver, args, write) =>
      var a := Exec(receiver, c);
      var b := a.Then(ExecAll(args, a.rest));
      b.Then(Run(Effects(write), Completed, b.rest))
    case Binary(left, right, isLazy, write) =>
      var a := Exec(left, c);
      var b := a.Then(if isLazy && First(a.rest) == 0 then Nothing(Later(a.rest))
                      else Exec(right, if isLazy then Later(a.rest) else a.rest));
      b.Then(Run(Effects(write), Completed, b.rest))
    case Block(tag, body) =>
      var b := ExecBlock(body, c);
      if tag.Some? && b.end == Left(Break(tag)) then Run(b.trace, Completed, b.rest) else b
    case If(cond, thn, els) =>
      var a := Exec(cond, c);
      a.Then(if First(a.rest) != 0 then ExecBlock(thn, Later(a.rest)) else ExecElse(els, Later(a.rest)))
    case Match(scrutinee, arms) =>
      var a := Exec(scrutinee, c);
      a.Then(ExecArms(arms, a.rest))
    case For(_, head, _) =>
      var a := Exec(head, c);
      a.Then(Iterate(e, First(a.rest), Later(a.rest)))
    case While(_, _, _) => Iterate(e, First(c), Later(c))
    case Loop(_, _) => Iterate(e, First(c), Later(c))
    case Try(inner) =>
      var a := Exec(inner, c);
      a.Then(Run([], if First(a.rest) == 0 then Completed else Left(Return), Later(a.rest)))
    case Wrap(inner) => Exec(inner, c)
    case Unexamined(parts) => ExecAll(parts, c)
    case Jump(exit, parts) =>
      var a := ExecAll(parts, c);
      a.Then(Run([], Left(exit), a.rest))
  }

  function ExecElse(els: Option<Expr>, c: seq<nat>): Run
    decreases els, 0, 0
  {
    if els.Some? then Exec(els.value, c) else Nothing(c)
  }

  function ExecAll(es: seq<Expr>, c: seq<nat>): Run
    decreases es, 0, 0
  {
    if es == [] then Nothing(c)
    else
      var a := Exec(es[0], c);
      a.Then(ExecAll(es[1..], a.rest))
  }

  function ExecStmt(s: Stmt, c: seq<nat>): Run
    decreases s, 0, 0
  {
    match s
    case ExprStmt(e) => Exec(e, c)
    case Local(init) => if init.Some? then Exec(init.value, c) else Nothing(c)
    case Item => Nothing(c)
  }

  function ExecBlock(ss: seq<Stmt>, c: seq<nat>): Run
    decreases ss, 0, 0
  {
    if ss == [] then Nothing(c)
    else
      var a := ExecStmt(ss[0], c);
      a.Then(ExecBlock(ss[1..], a.rest))
  }

  /** The arms are tried in turn. A `match` is exhaustive: passing over all of them is no execution. */
  function ExecArms(arms: seq<Arm>, c: seq<nat>): Run
    decreases arms, 0, 0
  {
    if arms == [] then Run([], Cut, c)
    else if First(c) == 0 then ExecArms(arms[1..], Later(c))
    else if arms[0].guard.None? then ExecArmBody(arms[0], Later(c))
    else
      var g := ExecGuard(arms[0], Later(c));
      g.Then(if First(g.rest) == 0 then ExecArms(arms[1..], Later(g.rest)) else ExecArmBody(arms[0], Later(g.rest)))
  }

  function ExecGuard(arm: Arm, c: seq<nat>): Run
    decreases arm, 0, 0
  {
    if arm.guard.Some? then Exec(arm.guard.value, c) else Nothing(c)
  }

  function ExecArmBody(arm: Arm, c: seq<nat>): Run
    decreases arm, 0, 0
  {
    Exec(arm.body, c)
  }

  /** One iteration of a loop; a `while` evaluates its condition first. */
  function Pass(e: Expr, c: seq<nat>): Run
    requires IsLoop(e)
    decreases e, 0, 0
  {
    if e.While? then
      var a := Exec(e.cond, c);
      a.Then(ExecBlock(e.body, a.rest))
    else ExecBlock(e.body, c)
  }

  /** No further iteration: a `while` evaluates its condition once more, and a `loop` does not end by itself. */
  function LastPass(e: Expr, c: seq<nat>): Run
    requires IsLoop(e)
    decreases e, 0, 0
  {
    if e.For? then Nothing(c) else if e.Loop? then Run([], Cut, c) else Exec(e.cond, c)
  }

  /** At most n iterations; Cut when the observation ends while the loop goes on. */
  function Iterate(e: Expr, n: nat, c: seq<nat>): Run
    requires IsLoop(e)
    decreases e, 1, n
  {
    var b := if n == 0 then LastPass(e, c) else Pass(e, c);
    if BreaksOut(e, b.end) then Run(b.trace, Completed, b.rest)
    else if n > 0 && GoesOn(e, b.end) then Run(b.trace, Completed, b.rest).Then(Iterate(e, n - 1, b.rest))
    else if !b.end.Completed? && GoesOn(e, b.end) then Run(b.trace, Cut, b.rest)
    else b
  }
}
