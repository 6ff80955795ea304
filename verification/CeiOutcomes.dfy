/**
 What the executions of a piece of code can come to, computed on its syntax tree. Proved
 exact: an outcome is in the computed set if and only if some execution shows it.
 */
module CeiOutcomes {
  import opened Wrappers
  import opened Cei

  /** Something an execution shows; `seen`: an interaction came before it. */
  datatype Outcome =
    | Completes(seen: bool)
    | Leaves(exit: Exit, seen: bool)
    | WritesAt(site: Site, seen: bool)
  {
    function Since(interacted: bool): Outcome {
      if interacted then this.(seen := true) else this
    }
  }

  predicate Seen(t: seq<Event>) {
    Interaction in t
  }

  ghost predicate Shows(r: Run, o: Outcome) {
    match o
    case Completes(seen) => r.end.Completed? && seen == Seen(r.trace)
    case Leaves(exit, seen) => r.end == Left(exit) && seen == Seen(r.trace)
    case WritesAt(site, seen) =>
      exists j :: 0 <= j < |r.trace| && r.trace[j] == Effect(site) && seen == Seen(r.trace[..j])
  }

  // ---- the computed set ------------------------------------------------------------------------

  function Late(a: set<Outcome>): set<Outcome> {
    set o | o in a :: o.(seen := true)
  }

  /** One piece of code, and then, when it completes, another. */
  function InTurn(a: set<Outcome>, b: set<Outcome>): set<Outcome> {
    (set o | o in a && !o.Completes?)
    + (if Completes(false) in a then b else {})
    + (if Completes(true) in a then Late(b) else {})
  }

  function Emitted(write: Option<Site>, interacts: bool): set<Outcome> {
    {Completes(interacts)} + (if write.Some? then {WritesAt(write.value, false)} else {})
  }

  /** The labelled block turns a `break` with its label into completion. */
  function Caught(tag: Option<Label>, a: set<Outcome>): set<Outcome> {
    if tag.None? then a
    else
      (set o | o in a && !(o.Leaves? && o.exit == Break(tag)))
      + (set o | o in a && o.Leaves? && o.exit == Break(tag) :: Completes(o.seen))
  }

  /** The outcome ends an iteration and the loop goes on. */
  predicate KeepsLooping(e: Expr, o: Outcome)
    requires IsLoop(e)
  {
    o.Completes? || (o.Leaves? && GoesOn(e, Left(o.exit)))
  }

  predicate EndsLoop(e: Expr, o: Outcome)
    requires IsLoop(e)
  {
    o.Leaves? && BreaksOut(e, Left(o.exit))
  }

  /** Any number of iterations that go on: an interaction in one of them is seen by the next. */
  function Warmup(e: Expr, pass: set<Outcome>): set<Outcome>
    requires IsLoop(e)
  {
    {Completes(false)} + (if exists o :: o in pass && o.seen && KeepsLooping(e, o) then {Completes(true)} else {})
  }

  /** The iteration that ends the loop, or what is done instead of one. */
  function Endings(e: Expr, pass: set<Outcome>, last: set<Outcome>): set<Outcome>
    requires IsLoop(e)
  {
    (set o | o in pass && !KeepsLooping(e, o) && !EndsLoop(e, o))
    + (set o | o in pass && EndsLoop(e, o) :: Completes(o.seen))
    + (set o | o in last && o.Completes?)
  }

  function Outcomes(e: Expr): set<Outcome>
    decreases e, 2
  {
    match e
    case Cpi(operands, write) => InTurn(OutcomesOfAll(operands), Emitted(write, true))
    case Call(args) => OutcomesOfAll(args)
    case Method(receiver, args, write) =>
      InTurn(InTurn(Outcomes(receiver), OutcomesOfAll(args)), Emitted(write, false))
    case Binary(left, right, isLazy, write) =>
      var second := if isLazy then {Completes(false)} + Outcomes(right) else Outcomes(right);
      InTurn(InTurn(Outcomes(left), second), Emitted(write, false))
    case Block(tag, body) => Caught(tag, OutcomesOfBlock(body))
    case If(cond, thn, els) => InTurn(Outcomes(cond), OutcomesOfElse(els) + OutcomesOfBlock(thn))
    case Match(scrutinee, arms) => InTurn(Outcomes(scrutinee), OutcomesOfArms(arms))
    case For(_, head, _) => InTurn(Outcomes(head), OutcomesOfLoop(e))
    case While(_, _, _) => OutcomesOfLoop(e)
    case Loop(_, _) => OutcomesOfLoop(e)
    case Try(inner) => InTurn(Outcomes(inner), {Completes(false)} + {Leaves(Return, false)})
    case Wrap(inner) => Outcomes(inner)
    case Unexamined(parts) => OutcomesOfAll(parts)
    case Jump(exit, parts) => InTurn(OutcomesOfAll(parts), {Leaves(exit, false)})
  }

  function OutcomesOfElse(els: Option<Expr>): set<Outcome>
    decreases els, 0
  {
    if els.Some? then Outcomes(els.value) else {Completes(false)}
  }

  function OutcomesOfAll(es: seq<Expr>): set<Outcome>
    decreases es, 0
  {
    if es == [] then {Completes(false)} else InTurn(Outcomes(es[0]), OutcomesOfAll(es[1..]))
  }

  function OutcomesOfStmt(s: Stmt): set<Outcome>
    decreases s, 0
  {
    match s
    case ExprStmt(e) => Outcomes(e)
    case Local(init) => if init.Some? then Outcomes(init.value) else {Completes(false)}
    case Item => {Completes(false)}
  }

  function OutcomesOfBlock(ss: seq<Stmt>): set<Outcome>
    decreases ss, 0
  {
    if ss == [] then {Completes(false)} else InTurn(OutcomesOfStmt(ss[0]), OutcomesOfBlock(ss[1..]))
  }

  function OutcomesOfArm(arm: Arm, otherwise: set<Outcome>): set<Outcome>
    decreases arm, 0
  {
    if arm.guard.None? then Outcomes(arm.body)
    else InTurn(Outcomes(arm.guard.value), otherwise + Outcomes(arm.body))
  }

  function OutcomesOfArms(arms: seq<Arm>): set<Outcome>
    decreases arms, 0
  {
    if arms == [] then {}
    else
      var rest := OutcomesOfArms(arms[1..]);
      rest + OutcomesOfArm(arms[0], rest)
  }

  function OutcomesOfPass(e: Expr): set<Outcome>
    requires IsLoop(e)
    decreases e, 0
  {
    if e.While? then InTurn(Outcomes(e.cond), OutcomesOfBlock(e.body)) else OutcomesOfBlock(e.body)
  }

  function OutcomesOfLast(e: Expr): set<Outcome>
    requires IsLoop(e)
    decreases e, 0
  {
    if e.For? then {Completes(false)} else if e.Loop? then {} else Outcomes(e.cond)
  }

  function OutcomesOfLoop(e: Expr): set<Outcome>
    requires IsLoop(e)
    decreases e, 1
  {
    InTurn(Warmup(e, OutcomesOfPass(e)), Endings(e, OutcomesOfPass(e), OutcomesOfLast(e)))
  }

  // ---- sets of outcomes -------------------------------------------------------------------------

  lemma InLate(a: set<Outcome>, o: Outcome)
    ensures o in Late(a) <==> o.seen && (o in a || o.(seen := false) in a)
  {
    if o in Late(a) {
      var was :| was in a && o == was.(seen := true);
      assert was == o || was == o.(seen := false);
    } else if o.seen {
      assert o == o.(seen := true) && o == o.(seen := false).(seen := true);
    }
  }

  lemma InInTurn(a: set<Outcome>, b: set<Outcome>, o: Outcome)
    ensures o in InTurn(a, b) <==>
      || (o in a && !o.Completes?)
      || (Completes(false) in a && o in b)
      || (Completes(true) in a && o.seen && (o in b || o.(seen := false) in b))
  {
    InLate(b, o);
  }

  // ---- exactness ----------------------------------------------------------------------------------

  /** Code as what it does under each list of choices. */
  type Code = seq<nat> -> Run

  function EndOf(o: Outcome): End
    requires !o.WritesAt?
  {
    if o.Completes? then Completed else Left(o.exit)
  }

  /** The choices p make the code end with o, leaving all further choices unused. */
  ghost predicate Leads(f: Code, p: seq<nat>, t: seq<Event>, o: Outcome)
    requires !o.WritesAt?
  {
    Seen(t) == o.seen && forall r: seq<nat> :: f(p + r) == Run(t, EndOf(o), r)
  }

  ghost predicate Possible(f: Code, o: Outcome) {
    if o.WritesAt? then exists p: seq<nat> :: Shows(f(p), o)
    else exists p: seq<nat>, t: seq<Event> :: Leads(f, p, t, o)
  }

  /** Every outcome of every execution is in the set, and every element of the set is one. */
  ghost predicate Exact(f: Code, a: set<Outcome>) {
    Covered(f, a) && forall o: Outcome :: o in a ==> Possible(f, o)
  }

  ghost predicate Covered(f: Code, a: set<Outcome>) {
    forall c: seq<nat>, o: Outcome :: Shows(f(c), o) ==> o in a
  }

  lemma ShownIffIn(f: Code, a: set<Outcome>, o: Outcome)
    requires Exact(f, a)
    ensures o in a <==> exists c: seq<nat> :: Shows(f(c), o)
  {
    if o in a {
      assert Possible(f, o);
      if !o.WritesAt? {
        var p, t :| Leads(f, p, t, o);
        assert f(p + []) == Run(t, EndOf(o), []);
        assert Shows(f(p + []), o);
      }
    }
  }

  lemma SeenSplits(a: seq<Event>, b: seq<Event>)
    ensures Seen(a + b) == (Seen(a) || Seen(b))
  {
  }

  /** What two runs in turn show: something of the first, or of the second once the first completed. */
  lemma ThenShows(a: Run, b: Run, o: Outcome)
    requires Shows(a.Then(b), o)
    ensures (!o.Completes? && Shows(a, o))
      || (a.end.Completed? && (Shows(b, o) || (Seen(a.trace) && Shows(b, o.(seen := false)))) && (Seen(a.trace) ==> o.seen))
  {
    hide Seen;
    if a.end.Completed? {
      SeenSplits(a.trace, b.trace);
      if o.WritesAt? {
        var n, t := |a.trace|, a.trace + b.trace;
        var j :| 0 <= j < |t| && t[j] == Effect(o.site) && o.seen == Seen(t[..j]);
        if j < n {
          assert t[..j] == a.trace[..j];
        } else {
          assert t[..j] == a.trace + b.trace[..j - n];
          SeenSplits(a.trace, b.trace[..j - n]);
          assert b.trace[j - n] == Effect(o.site);
          assert Shows(b, WritesAt(o.site, Seen(b.trace[..j - n])));
        }
      }
    }
  }

  lemma FirstShows(a: Run, b: Run, o: Outcome)
    requires Shows(a, o) && !o.Completes?
    ensures Shows(a.Then(b), o)
  {
    if o.WritesAt? && a.end.Completed? {
      var t := a.trace + b.trace;
      var j :| 0 <= j < |a.trace| && a.trace[j] == Effect(o.site) && o.seen == Seen(a.trace[..j]);
      assert t[..j] == a.trace[..j] && t[j] == Effect(o.site);
    }
  }

  lemma SecondShows(a: Run, b: Run, o: Outcome)
    requires a.end.Completed? && Shows(b, o)
    ensures Shows(a.Then(b), o.Since(Seen(a.trace)))
  {
    var t := a.trace + b.trace;
    SeenSplits(a.trace, b.trace);
    if o.WritesAt? {
      var j :| 0 <= j < |b.trace| && b.trace[j] == Effect(o.site) && o.seen == Seen(b.trace[..j]);
      assert t[..|a.trace| + j] == a.trace + b.trace[..j];
      SeenSplits(a.trace, b.trace[..j]);
      assert t[|a.trace| + j] == Effect(o.site);
    }
  }

  // ---- ways of putting code together ---------------------------------------------------------------

  /** f and then g. */
  function Both(f: Code, g: Code): Code {
    c => f(c).Then(g(f(c).rest))
  }

  /** One or the other, by the next choice. */
  function Either(f: Code, g: Code): Code {
    c => if First(c) == 0 then f(Later(c)) else g(Later(c))
  }

  /** A fixed happening. */
  function Just(t: seq<Event>, end: End): Code {
    c => Run(t, end, c)
  }

  lemma Alike(f: Code, g: Code, a: set<Outcome>)
    requires Exact(f, a) && forall c :: f(c) == g(c)
    ensures Exact(g, a)
  {
    forall o | o in a
      ensures Possible(g, o)
    {
      assert Possible(f, o);
      if o.WritesAt? {
        var p :| Shows(f(p), o);
        assert Shows(g(p), o);
      } else {
        var p, t :| Leads(f, p, t, o);
        assert Leads(g, p, t, o);
      }
    }
  }

  lemma BothCovered(f: Code, g: Code, a: set<Outcome>, b: set<Outcome>, c: seq<nat>, o: Outcome)
    requires Exact(f, a) && Exact(g, b) && Shows(Both(f, g)(c), o)
    ensures o in InTurn(a, b)
  {
    InInTurn(a, b, o);
    var r := f(c);
    ThenShows(r, g(r.rest), o);
    if r.end.Completed? {
      assert Shows(r, Completes(Seen(r.trace)));
    }
  }

  lemma SecondPossible(f: Code, g: Code, x: bool, o: Outcome)
    requires Possible(f, Completes(x)) && Possible(g, o)
    ensures Possible(Both(f, g), o.Since(x))
  {
    var p, t :| Leads(f, p, t, Completes(x));
    if o.WritesAt? {
      var q :| Shows(g(q), o);
      assert f(p + q) == Run(t, Completed, q);
      SecondShows(f(p + q), g(q), o);
      assert Shows(Both(f, g)(p + q), o.Since(x));
    } else {
      var q, u :| Leads(g, q, u, o);
      SeenSplits(t, u);
      forall r: seq<nat>
        ensures Both(f, g)(p + q + r) == Run(t + u, EndOf(o.Since(x)), r)
      {
        assert p + q + r == p + (q + r);
        assert f(p + (q + r)) == Run(t, Completed, q + r);
      }
      assert Leads(Both(f, g), p + q, t + u, o.Since(x));
    }
  }

  lemma FirstPossible(f: Code, g: Code, o: Outcome)
    requires Possible(f, o) && !o.Completes?
    ensures Possible(Both(f, g), o)
  {
    if o.WritesAt? {
      var p :| Shows(f(p), o);
      FirstShows(f(p), g(f(p).rest), o);
      assert Shows(Both(f, g)(p), o);
    } else {
      var p, t :| Leads(f, p, t, o);
      assert Leads(Both(f, g), p, t, o);
    }
  }

  lemma BothExact(f: Code, g: Code, a: set<Outcome>, b: set<Outcome>)
    requires Exact(f, a) && Exact(g, b)
    ensures Exact(Both(f, g), InTurn(a, b))
  {
    forall c: seq<nat>, o: Outcome | Shows(Both(f, g)(c), o)
      ensures o in InTurn(a, b)
    {
      BothCovered(f, g, a, b, c, o);
    }
    forall o: Outcome | o in InTurn(a, b)
      ensures Possible(Both(f, g), o)
    {
      InInTurn(a, b, o);
      if o in a && !o.Completes? {
        FirstPossible(f, g, o);
      } else if Completes(false) in a && o in b {
        SecondPossible(f, g, false, o);
      } else if o in b {
        SecondPossible(f, g, true, o);
      } else {
        SecondPossible(f, g, true, o.(seen := false));
      }
    }
  }

  lemma NextChoice(k: nat, p: seq<nat>)
    ensures First([k] + p) == k && Later([k] + p) == p
  {
  }

  lemma Chosen(f: Code, g: Code, k: nat, h: Code, o: Outcome)
    requires Possible(h, o) && (k == 0 ==> h == f) && (k != 0 ==> h == g)
    ensures Possible(Either(f, g), o)
  {
    if o.WritesAt? {
      var p :| Shows(h(p), o);
      NextChoice(k, p);
      assert Either(f, g)([k] + p) == h(p);
      assert Shows(Either(f, g)([k] + p), o);
    } else {
      var p, t :| Leads(h, p, t, o);
      forall r: seq<nat>
        ensures Either(f, g)([k] + p + r) == Run(t, EndOf(o), r)
      {
        assert [k] + p + r == [k] + (p + r);
        NextChoice(k, p + r);
        assert h(p + r) == Run(t, EndOf(o), r);
      }
      assert Leads(Either(f, g), [k] + p, t, o);
    }
  }

  lemma EitherExact(f: Code, g: Code, a: set<Outcome>, b: set<Outcome>)
    requires Exact(f, a) && Exact(g, b)
    ensures Exact(Either(f, g), a + b)
  {
    forall c: seq<nat>, o: Outcome | Shows(Either(f, g)(c), o)
      ensures o in a + b
    {
      assert Shows(f(Later(c)), o) || Shows(g(Later(c)), o);
    }
    forall o | o in a + b
      ensures Possible(Either(f, g), o)
    {
      if o in a {
        Chosen(f, g, 0, f, o);
      } else {
        Chosen(f, g, 1, g, o);
      }
    }
  }

  lemma JustPossible(t: seq<Event>, end: End, o: Outcome)
    requires !end.Cut? && Shows(Run(t, end, []), o)
    ensures Possible(Just(t, end), o)
  {
    if o.WritesAt? {
      assert Just(t, end)([]) == Run(t, end, []);
    } else {
      forall r: seq<nat>
        ensures Just(t, end)([] + r) == Run(t, EndOf(o), r)
      {
        assert [] + r == r;
      }
      assert Leads(Just(t, end), [], t, o);
    }
  }

  lemma JustEnds(end: End, a: set<Outcome>)
    requires a == match end case Completed => {Completes(false)} case Left(exit) => {Leaves(exit, false)} case Cut => {}
    ensures Exact(Just([], end), a)
  {
    forall o | o in a
      ensures Possible(Just([], end), o)
    {
      JustPossible([], end, o);
    }
  }

  lemma EmitExact(write: Option<Site>, interacts: bool)
    ensures Exact(Just(Effects(write) + (if interacts then [Interaction] else []), Completed), Emitted(write, interacts))
  {
    var t := Effects(write) + (if interacts then [Interaction] else []);
    assert interacts ==> t[|t| - 1] == Interaction;
    forall c: seq<nat>, o: Outcome | Shows(Just(t, Completed)(c), o)
      ensures o in Emitted(write, interacts)
    {
      if o.WritesAt? {
        var j :| 0 <= j < |t| && t[j] == Effect(o.site) && o.seen == Seen(t[..j]);
        assert j == 0 && t[..0] == [];
      }
    }
    forall o | o in Emitted(write, interacts)
      ensures Possible(Just(t, Completed), o)
    {
      if o.WritesAt? {
        assert t[0] == Effect(o.site) && t[..0] == [];
      }
      JustPossible(t, Completed, o);
    }
  }

  function Catching(tag: Option<Label>, f: Code): Code {
    c => if tag.Some? && f(c).end == Left(Break(tag)) then Run(f(c).trace, Completed, f(c).rest) else f(c)
  }

  lemma CaughtPossible(tag: Option<Label>, f: Code, o: Outcome)
    requires Possible(f, o)
    ensures Possible(Catching(tag, f), if tag.Some? && o.Leaves? && o.exit == Break(tag) then Completes(o.seen) else o)
  {
    if o.WritesAt? {
      var p :| Shows(f(p), o);
      assert Shows(Catching(tag, f)(p), o);
    } else {
      var p, t :| Leads(f, p, t, o);
      var caught := if tag.Some? && o.Leaves? && o.exit == Break(tag) then Completes(o.seen) else o;
      assert Leads(Catching(tag, f), p, t, caught);
    }
  }

  lemma CatchExact(tag: Option<Label>, f: Code, a: set<Outcome>)
    requires Exact(f, a)
    ensures Exact(Catching(tag, f), Caught(tag, a))
  {
    forall c: seq<nat>, o: Outcome | Shows(Catching(tag, f)(c), o)
      ensures o in Caught(tag, a)
    {
      if !Shows(f(c), o) {
        assert Shows(f(c), Leaves(Break(tag), o.seen));
      }
    }
    forall o | o in Caught(tag, a)
      ensures Possible(Catching(tag, f), o)
    {
      if tag.Some? && (o !in a || (o.Leaves? && o.exit == Break(tag))) {
        var was :| was in a && was.Leaves? && was.exit == Break(tag) && o == Completes(was.seen);
        CaughtPossible(tag, f, was);
      } else {
        CaughtPossible(tag, f, o);
      }
    }
  }

  // ---- loops ------------------------------------------------------------------------------------------

  function OnePass(e: Expr): Code
    requires IsLoop(e)
  {
    c => Pass(e, c)
  }

  function FinalPass(e: Expr): Code
    requires IsLoop(e)
  {
    c => LastPass(e, c)
  }

  function Iterating(e: Expr): Code
    requires IsLoop(e)
  {
    c => Iterate(e, First(c), Later(c))
  }

  /** An iteration that goes on, with what the further ones show. */
  lemma WentOn(e: Expr, pass: set<Outcome>, last: set<Outcome>, b: Run, further: Run, o: Outcome)
    requires IsLoop(e) && GoesOn(e, b.end)
    requires forall x :: Shows(b, x) ==> x in pass
    requires forall x :: Shows(further, x) ==> x in InTurn(Warmup(e, pass), Endings(e, pass, last))
    requires Shows(Run(b.trace, Completed, b.rest).Then(further), o)
    ensures o in InTurn(Warmup(e, pass), Endings(e, pass, last))
  {
    hide InTurn;
    var first := Run(b.trace, Completed, b.rest);
    InInTurn(Warmup(e, pass), Endings(e, pass, last), o);
    ThenShows(first, further, o);
    if !o.Completes? && Shows(first, o) {
      assert Shows(b, o);
    } else {
      var seen := Seen(b.trace);
      var went := if b.end.Completed? then Completes(seen) else Leaves(b.end.exit, seen);
      assert Shows(b, went) && KeepsLooping(e, went);
      InInTurn(Warmup(e, pass), Endings(e, pass, last), if Shows(further, o) then o else o.(seen := false));
    }
  }

  lemma {:induction false} IterationsCovered(
      e: Expr, pass: set<Outcome>, last: set<Outcome>, n: nat, c: seq<nat>, o: Outcome)
    requires IsLoop(e) && Covered(OnePass(e), pass) && Covered(FinalPass(e), last)
    requires forall x :: x in last && !x.Completes? ==> x in pass
    requires Shows(Iterate(e, n, c), o)
    ensures o in InTurn(Warmup(e, pass), Endings(e, pass, last))
    decreases n
  {
    hide Pass, LastPass, InTurn;
    InInTurn(Warmup(e, pass), Endings(e, pass, last), o);
    var b := if n == 0 then FinalPass(e)(c) else OnePass(e)(c);
    if BreaksOut(e, b.end) {
      if o.Completes? {
        assert Shows(b, Leaves(b.end.exit, o.seen));
      } else {
        assert Shows(b, o);
      }
    } else if n > 0 && GoesOn(e, b.end) {
      forall x | Shows(Iterate(e, n - 1, b.rest), x)
        ensures x in InTurn(Warmup(e, pass), Endings(e, pass, last))
      {
        IterationsCovered(e, pass, last, n - 1, b.rest, x);
      }
      WentOn(e, pass, last, b, Iterate(e, n - 1, b.rest), o);
    } else {
      assert Shows(b, o);
    }
  }

  /** One more iteration, which goes on, before those that are left. */
  lemma OneMore(e: Expr, n: nat, p: seq<nat>, t: seq<Event>, went: Outcome, rest: seq<nat>)
    requires IsLoop(e) && KeepsLooping(e, went) && Leads(OnePass(e), p, t, went)
    ensures Iterate(e, n + 1, p + rest) == Run(t, Completed, rest).Then(Iterate(e, n, rest))
  {
    hide Pass, LastPass;
    assert OnePass(e)(p + rest) == Pass(e, p + rest);
  }

  /** Each way for the loop to end takes no iteration or one. */
  lemma EndingPossible(e: Expr, pass: set<Outcome>, last: set<Outcome>, o: Outcome)
      returns (n: nat, p: seq<nat>, t: seq<Event>)
    requires IsLoop(e) && Exact(OnePass(e), pass) && Exact(FinalPass(e), last)
    requires o in Endings(e, pass, last)
    ensures o.WritesAt? ==> Shows(Iterate(e, n, p), o)
    ensures !o.WritesAt? ==> Seen(t) == o.seen && forall r: seq<nat> :: Iterate(e, n, p + r) == Run(t, EndOf(o), r)
  {
    hide Pass, LastPass;
    t := [];
    if o in last && o.Completes? {
      n := 0;
      assert Possible(FinalPass(e), o);
      p, t :| Leads(FinalPass(e), p, t, o);
      forall r: seq<nat>
        ensures Iterate(e, n, p + r) == Run(t, EndOf(o), r)
      {
        assert FinalPass(e)(p + r) == LastPass(e, p + r);
      }
    } else {
      n := 1;
      var was := if o in pass && !KeepsLooping(e, o) && !EndsLoop(e, o) then o else BreakBehind(e, pass, o);
      assert Possible(OnePass(e), was);
      if was.WritesAt? {
        p :| Shows(OnePass(e)(p), was);
        var b := OnePass(e)(p);
        assert b == Pass(e, p);
        FirstShows(Run(b.trace, Completed, b.rest), Iterate(e, 0, b.rest), o);
      } else {
        p, t :| Leads(OnePass(e), p, t, was);
        forall r: seq<nat>
          ensures Iterate(e, n, p + r) == Run(t, EndOf(o), r)
        {
          assert OnePass(e)(p + r) == Pass(e, p + r);
        }
      }
    }
  }

  ghost function BreakBehind(e: Expr, pass: set<Outcome>, o: Outcome): (was: Outcome)
    requires IsLoop(e) && o in (set x | x in pass && EndsLoop(e, x) :: Completes(x.seen))
    ensures was in pass && EndsLoop(e, was) && o == Completes(was.seen)
  {
    var was :| was in pass && EndsLoop(e, was) && o == Completes(was.seen);
    was
  }

  lemma LoopPossible(e: Expr, n: nat, p: seq<nat>, t: seq<Event>, o: Outcome)
    requires IsLoop(e)
    requires o.WritesAt? ==> Shows(Iterate(e, n, p), o)
    requires !o.WritesAt? ==> Seen(t) == o.seen && forall r: seq<nat> :: Iterate(e, n, p + r) == Run(t, EndOf(o), r)
    ensures Possible(Iterating(e), o)
  {
    hide Iterate, Shows, Seen, EndOf;
    if o.WritesAt? {
      NextChoice(n, p);
      assert Iterating(e)([n] + p) == Iterate(e, n, p);
      assert Shows(Iterating(e)([n] + p), o);
    } else {
      forall r: seq<nat>
        ensures Iterating(e)([n] + p + r) == Run(t, EndOf(o), r)
      {
        assert [n] + p + r == [n] + (p + r);
        NextChoice(n, p + r);
        assert Iterating(e)([n] + (p + r)) == Iterate(e, n, p + r);
      }
      assert Leads(Iterating(e), [n] + p, t, o);
    }
  }

  lemma AfterWarmup(e: Expr, pass: set<Outcome>, last: set<Outcome>, went: Outcome, o: Outcome)
    requires IsLoop(e) && Exact(OnePass(e), pass) && Exact(FinalPass(e), last)
    requires went in pass && went.seen && KeepsLooping(e, went) && o in Endings(e, pass, last)
    ensures Possible(Iterating(e), o.(seen := true))
  {
    hide Iterate;
    assert Possible(OnePass(e), went);
    var q, u :| Leads(OnePass(e), q, u, went);
    var n, p, t := EndingPossible(e, pass, last, o);
    if o.WritesAt? {
      OneMore(e, n, q, u, went, p);
      SecondShows(Run(u, Completed, p), Iterate(e, n, p), o);
    } else {
      SeenSplits(u, t);
      forall r: seq<nat>
        ensures Iterate(e, n + 1, q + p + r) == Run(u + t, EndOf(o), r)
      {
        assert q + p + r == q + (p + r);
        OneMore(e, n, q, u, went, p + r);
      }
    }
    LoopPossible(e, n + 1, q + p, u + t, o.(seen := true));
  }

  lemma LoopReaches(e: Expr, pass: set<Outcome>, last: set<Outcome>, o: Outcome)
    requires IsLoop(e) && Exact(OnePass(e), pass) && Exact(FinalPass(e), last)
    requires o in InTurn(Warmup(e, pass), Endings(e, pass, last))
    ensures Possible(Iterating(e), o)
  {
    hide Iterate, Endings, Exact, Possible, Shows, InTurn;
    InInTurn(Warmup(e, pass), Endings(e, pass, last), o);
    if o in Endings(e, pass, last) {
      var n, p, t := EndingPossible(e, pass, last, o);
      LoopPossible(e, n, p, t, o);
    } else {
      var went :| went in pass && went.seen && KeepsLooping(e, went);
      AfterWarmup(e, pass, last, went, o.(seen := false));
    }
  }

  lemma LoopExact(e: Expr, pass: set<Outcome>, last: set<Outcome>)
    requires IsLoop(e) && Exact(OnePass(e), pass) && Exact(FinalPass(e), last)
    requires forall x :: x in last && !x.Completes? ==> x in pass
    ensures Exact(Iterating(e), InTurn(Warmup(e, pass), Endings(e, pass, last)))
  {
    hide Iterate, Endings, Possible, Shows, InTurn;
    forall c: seq<nat>, o: Outcome | Shows(Iterating(e)(c), o)
      ensures o in InTurn(Warmup(e, pass), Endings(e, pass, last))
    {
      IterationsCovered(e, pass, last, First(c), Later(c), o);
    }
    forall o: Outcome | o in InTurn(Warmup(e, pass), Endings(e, pass, last))
      ensures Possible(Iterating(e), o)
    {
      LoopReaches(e, pass, last, o);
    }
  }

  // ---- the theorem ------------------------------------------------------------------------------------

  function Running(e: Expr): Code {
    c => Exec(e, c)
  }

  function RunningAll(es: seq<Expr>): Code {
    c => ExecAll(es, c)
  }

  function RunningBlock(ss: seq<Stmt>): Code {
    c => ExecBlock(ss, c)
  }

  function RunningStmt(s: Stmt): Code {
    c => ExecStmt(s, c)
  }

  function RunningElse(els: Option<Expr>): Code {
    c => ExecElse(els, c)
  }

  function RunningArms(arms: seq<Arm>): Code {
    c => ExecArms(arms, c)
  }

  function Idle(): Code {
    Just([], Completed)
  }

  lemma IdleExact()
    ensures Exact(Idle(), {Completes(false)})
  {
    JustEnds(Completed, {Completes(false)});
  }

  /** The outcomes of code are computed exactly. */
  lemma {:induction false} OutcomesAreExact(e: Expr)
    ensures Exact(Running(e), Outcomes(e))
    decreases e, 3
  {
    hide Exact, OutcomesOfLoop, Iterate, InTurn;
    match e
    case Cpi(_, _) => CpiExact(e);
    case Call(args) =>
      OutcomesOfAllAreExact(args);
      Alike(RunningAll(args), Running(e), Outcomes(e));
    case Method(_, _, _) => MethodExact(e);
    case Binary(_, _, _, _) => BinaryExact(e);
    case Block(tag, body) =>
      OutcomesOfBlockAreExact(body);
      CatchExact(tag, RunningBlock(body), OutcomesOfBlock(body));
      Alike(Catching(tag, RunningBlock(body)), Running(e), Outcomes(e));
    case If(cond, thn, els) => IfExact(e);
    case Match(_, _) => MatchExact(e);
    case For(_, _, _) => ForExact(e);
    case While(_, _, _) => LoopingExact(e);
    case Loop(_, _) => LoopingExact(e);
    case Try(inner) => TryExact(e);
    case Wrap(inner) =>
      OutcomesAreExact(inner);
      Alike(Running(inner), Running(e), Outcomes(e));
    case Unexamined(parts) =>
      OutcomesOfAllAreExact(parts);
      Alike(RunningAll(parts), Running(e), Outcomes(e));
    case Jump(_, _) => JumpExact(e);
  }

  lemma {:induction false} CpiExact(e: Expr)
    requires e.Cpi?
    ensures Exact(Running(e), Outcomes(e))
    decreases e, 1
  {
    hide Exact;
    OutcomesOfAllAreExact(e.operands);
    EmitExact(e.write, true);
    var emit := Just(Effects(e.write) + [Interaction], Completed);
    BothExact(RunningAll(e.operands), emit, OutcomesOfAll(e.operands), Emitted(e.write, true));
    Alike(Both(RunningAll(e.operands), emit), Running(e), Outcomes(e));
  }

  lemma {:induction false} MatchExact(e: Expr)
    requires e.Match?
    ensures Exact(Running(e), Outcomes(e))
    decreases e, 1
  {
    hide Exact;
    OutcomesAreExact(e.scrutinee);
    OutcomesOfArmsAreExact(e.arms);
    BothExact(Running(e.scrutinee), RunningArms(e.arms), Outcomes(e.scrutinee), OutcomesOfArms(e.arms));
    Alike(Both(Running(e.scrutinee), RunningArms(e.arms)), Running(e), Outcomes(e));
  }

  lemma ForIs(e: Expr, c: seq<nat>)
    requires e.For?
    ensures Running(e)(c) == Both(Running(e.head), Iterating(e))(c)
  {
    hide Exec, Iterate;
    LoopRuns(e, c);
    var a := Exec(e.head, c);
    assert Iterating(e)(a.rest) == Iterate(e, First(a.rest), Later(a.rest));
    assert Both(Running(e.head), Iterating(e))(c) == Running(e.head)(c).Then(Iterating(e)(Running(e.head)(c).rest));
  }

  lemma LoopingIs(e: Expr, c: seq<nat>)
    requires e.While? || e.Loop?
    ensures Running(e)(c) == Iterating(e)(c)
  {
    hide Exec, Iterate;
    LoopRuns(e, c);
  }

  lemma LoopRuns(e: Expr, c: seq<nat>)
    requires IsLoop(e)
    ensures e.For? ==> var a := Exec(e.head, c); Exec(e, c) == a.Then(Iterate(e, First(a.rest), Later(a.rest)))
    ensures !e.For? ==> Exec(e, c) == Iterate(e, First(c), Later(c))
  {
    hide Iterate;
  }

  lemma LoopOutcomes(e: Expr)
    requires IsLoop(e)
    ensures Outcomes(e) == if e.For? then InTurn(Outcomes(e.head), OutcomesOfLoop(e)) else OutcomesOfLoop(e)
  {
    hide OutcomesOfLoop, InTurn;
  }

  lemma {:induction false} ForExact(e: Expr)
    requires e.For?
    ensures Exact(Running(e), Outcomes(e))
    decreases e, 2
  {
    hide Exact, OutcomesOfLoop, InTurn, Outcomes, Iterate, Exec, Running, Iterating, Both;
    OutcomesAreExact(e.head);
    OutcomesOfLoopAreExact(e);
    BothExact(Running(e.head), Iterating(e), Outcomes(e.head), OutcomesOfLoop(e));
    LoopOutcomes(e);
    forall c: seq<nat>
      ensures Running(e)(c) == Both(Running(e.head), Iterating(e))(c)
    {
      ForIs(e, c);
    }
    Alike(Both(Running(e.head), Iterating(e)), Running(e), Outcomes(e));
  }

  lemma {:induction false} LoopingExact(e: Expr)
    requires e.While? || e.Loop?
    ensures Exact(Running(e), Outcomes(e))
    decreases e, 2
  {
    hide Exact, OutcomesOfLoop, Outcomes, Iterate, Exec, Running, Iterating;
    OutcomesOfLoopAreExact(e);
    LoopOutcomes(e);
    forall c: seq<nat>
      ensures Running(e)(c) == Iterating(e)(c)
    {
      LoopingIs(e, c);
    }
    Alike(Iterating(e), Running(e), Outcomes(e));
  }

  lemma {:induction false} JumpExact(e: Expr)
    requires e.Jump?
    ensures Exact(Running(e), Outcomes(e))
    decreases e, 1
  {
    hide Exact;
    OutcomesOfAllAreExact(e.parts);
    JustEnds(Left(e.exit), {Leaves(e.exit, false)});
    BothExact(RunningAll(e.parts), Just([], Left(e.exit)), OutcomesOfAll(e.parts), {Leaves(e.exit, false)});
    Alike(Both(RunningAll(e.parts), Just([], Left(e.exit))), Running(e), Outcomes(e));
  }

  lemma {:induction false} MethodExact(e: Expr)
    requires e.Method?
    ensures Exact(Running(e), Outcomes(e))
    decreases e, 1
  {
    hide Exact;
    OutcomesAreExact(e.receiver);
    OutcomesOfAllAreExact(e.args);
    var evaluate, emit := Both(Running(e.receiver), RunningAll(e.args)), Just(Effects(e.write) + [], Completed);
    BothExact(Running(e.receiver), RunningAll(e.args), Outcomes(e.receiver), OutcomesOfAll(e.args));
    EmitExact(e.write, false);
    BothExact(evaluate, emit, InTurn(Outcomes(e.receiver), OutcomesOfAll(e.args)), Emitted(e.write, false));
    assert Effects(e.write) + [] == Effects(e.write);
    Alike(Both(evaluate, emit), Running(e), Outcomes(e));
  }

  lemma {:induction false} BinaryExact(e: Expr)
    requires e.Binary?
    ensures Exact(Running(e), Outcomes(e))
    decreases e, 1
  {
    hide Exact;
    OutcomesAreExact(e.left);
    OutcomesAreExact(e.right);
    IdleExact();
    EitherExact(Idle(), Running(e.right), {Completes(false)}, Outcomes(e.right));
    var second := if e.isLazy then Either(Idle(), Running(e.right)) else Running(e.right);
    var seconds := if e.isLazy then {Completes(false)} + Outcomes(e.right) else Outcomes(e.right);
    var evaluate, emit := Both(Running(e.left), second), Just(Effects(e.write) + [], Completed);
    BothExact(Running(e.left), second, Outcomes(e.left), seconds);
    EmitExact(e.write, false);
    BothExact(evaluate, emit, InTurn(Outcomes(e.left), seconds), Emitted(e.write, false));
    assert Effects(e.write) + [] == Effects(e.write);
    Alike(Both(evaluate, emit), Running(e), Outcomes(e));
  }

  lemma {:induction false} IfExact(e: Expr)
    requires e.If?
    ensures Exact(Running(e), Outcomes(e))
    decreases e, 1
  {
    hide Exact;
    OutcomesAreExact(e.cond);
    OutcomesOfBlockAreExact(e.thn);
    OutcomesOfElseAreExact(e.els);
    var branch := Either(RunningElse(e.els), RunningBlock(e.thn));
    EitherExact(RunningElse(e.els), RunningBlock(e.thn), OutcomesOfElse(e.els), OutcomesOfBlock(e.thn));
    BothExact(Running(e.cond), branch, Outcomes(e.cond), OutcomesOfElse(e.els) + OutcomesOfBlock(e.thn));
    Alike(Both(Running(e.cond), branch), Running(e), Outcomes(e));
  }

  lemma {:induction false} TryExact(e: Expr)
    requires e.Try?
    ensures Exact(Running(e), Outcomes(e))
    decreases e, 1
  {
    hide Exact;
    OutcomesAreExact(e.inner);
    IdleExact();
    JustEnds(Left(Return), {Leaves(Return, false)});
    var check := Either(Idle(), Just([], Left(Return)));
    EitherExact(Idle(), Just([], Left(Return)), {Completes(false)}, {Leaves(Return, false)});
    BothExact(Running(e.inner), check, Outcomes(e.inner), {Completes(false)} + {Leaves(Return, false)});
    Alike(Both(Running(e.inner), check), Running(e), Outcomes(e));
  }

  lemma {:induction false} OutcomesOfElseAreExact(els: Option<Expr>)
    ensures Exact(RunningElse(els), OutcomesOfElse(els))
    decreases els, 0
  {
    hide Exact;
    if els.Some? {
      OutcomesAreExact(els.value);
      Alike(Running(els.value), RunningElse(els), OutcomesOfElse(els));
    } else {
      IdleExact();
      Alike(Idle(), RunningElse(els), OutcomesOfElse(els));
    }
  }

  lemma {:induction false} OutcomesOfAllAreExact(es: seq<Expr>)
    ensures Exact(RunningAll(es), OutcomesOfAll(es))
    decreases es, 0
  {
    hide Exact;
    if es == [] {
      IdleExact();
      Alike(Idle(), RunningAll(es), OutcomesOfAll(es));
    } else {
      OutcomesAreExact(es[0]);
      OutcomesOfAllAreExact(es[1..]);
      BothExact(Running(es[0]), RunningAll(es[1..]), Outcomes(es[0]), OutcomesOfAll(es[1..]));
      Alike(Both(Running(es[0]), RunningAll(es[1..])), RunningAll(es), OutcomesOfAll(es));
    }
  }

  lemma {:induction false} OutcomesOfStmtAreExact(s: Stmt)
    ensures Exact(RunningStmt(s), OutcomesOfStmt(s))
    decreases s, 0
  {
    hide Exact;
    IdleExact();
    match s
    case ExprStmt(e) =>
      OutcomesAreExact(e);
      Alike(Running(e), RunningStmt(s), OutcomesOfStmt(s));
    case Local(init) =>
      if init.Some? {
        OutcomesAreExact(init.value);
        Alike(Running(init.value), RunningStmt(s), OutcomesOfStmt(s));
      } else {
        Alike(Idle(), RunningStmt(s), OutcomesOfStmt(s));
      }
    case Item => Alike(Idle(), RunningStmt(s), OutcomesOfStmt(s));
  }

  lemma {:induction false} OutcomesOfBlockAreExact(ss: seq<Stmt>)
    ensures Exact(RunningBlock(ss), OutcomesOfBlock(ss))
    decreases ss, 0
  {
    hide Exact;
    if ss == [] {
      IdleExact();
      Alike(Idle(), RunningBlock(ss), OutcomesOfBlock(ss));
    } else {
      OutcomesOfStmtAreExact(ss[0]);
      OutcomesOfBlockAreExact(ss[1..]);
      BothExact(RunningStmt(ss[0]), RunningBlock(ss[1..]), OutcomesOfStmt(ss[0]), OutcomesOfBlock(ss[1..]));
      Alike(Both(RunningStmt(ss[0]), RunningBlock(ss[1..])), RunningBlock(ss), OutcomesOfBlock(ss));
    }
  }

  /** One arm, with the code for when its guard fails. */
  lemma {:induction false} OutcomesOfArmAreExact(arm: Arm, otherwise: Code, others: set<Outcome>) returns (taken: Code)
    requires Exact(otherwise, others)
    ensures Exact(taken, OutcomesOfArm(arm, others))
    ensures taken == if arm.guard.None? then Running(arm.body) else Both(Running(arm.guard.value), Either(otherwise, Running(arm.body)))
    decreases arm, 0
  {
    hide Exact;
    OutcomesAreExact(arm.body);
    taken := Running(arm.body);
    if arm.guard.Some? {
      OutcomesAreExact(arm.guard.value);
      EitherExact(otherwise, Running(arm.body), others, Outcomes(arm.body));
      taken := Both(Running(arm.guard.value), Either(otherwise, Running(arm.body)));
      BothExact(Running(arm.guard.value), Either(otherwise, Running(arm.body)),
                Outcomes(arm.guard.value), others + Outcomes(arm.body));
    }
  }

  lemma {:induction false} OutcomesOfArmsAreExact(arms: seq<Arm>)
    ensures Exact(RunningArms(arms), OutcomesOfArms(arms))
    decreases arms, 0
  {
    hide Exact;
    if arms == [] {
      JustEnds(Cut, {});
      Alike(Just([], Cut), RunningArms(arms), OutcomesOfArms(arms));
    } else {
      var rest, others := RunningArms(arms[1..]), OutcomesOfArms(arms[1..]);
      OutcomesOfArmsAreExact(arms[1..]);
      var taken := OutcomesOfArmAreExact(arms[0], rest, others);
      EitherExact(rest, taken, others, OutcomesOfArm(arms[0], others));
      forall c: seq<nat>
        ensures Either(rest, taken)(c) == ExecArms(arms, c)
      {
        hide OutcomesOfArms, OutcomesOfArm, Outcomes;
        assert rest(Later(c)) == ExecArms(arms[1..], Later(c));
      }
      Alike(Either(rest, taken), RunningArms(arms), OutcomesOfArms(arms));
    }
  }

  lemma {:induction false} OutcomesOfLoopAreExact(e: Expr)
    requires IsLoop(e)
    ensures Exact(Iterating(e), OutcomesOfLoop(e))
    decreases e, 1
  {
    hide Exact;
    OutcomesOfBlockAreExact(e.body);
    if e.While? {
      OutcomesAreExact(e.cond);
      BothExact(Running(e.cond), RunningBlock(e.body), Outcomes(e.cond), OutcomesOfBlock(e.body));
      Alike(Both(Running(e.cond), RunningBlock(e.body)), OnePass(e), OutcomesOfPass(e));
      Alike(Running(e.cond), FinalPass(e), OutcomesOfLast(e));
      forall x | x in OutcomesOfLast(e) && !x.Completes?
        ensures x in OutcomesOfPass(e)
      {
        InInTurn(Outcomes(e.cond), OutcomesOfBlock(e.body), x);
      }
    } else {
      Alike(RunningBlock(e.body), OnePass(e), OutcomesOfPass(e));
      var end := if e.For? then Completed else Cut;
      JustEnds(end, OutcomesOfLast(e));
      Alike(Just([], end), FinalPass(e), OutcomesOfLast(e));
    }
    LoopExact(e, OutcomesOfPass(e), OutcomesOfLast(e));
  }
}
