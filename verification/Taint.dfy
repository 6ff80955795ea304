/**
 Taint tracking over a straight line of `let` statements: which unanchored accounts a value
 may depend on. Proved as noninterference against an evaluator with arbitrary operations.
 */
module Taint {
  import opened Wrappers

  datatype Expr =
    /** A single-segment path: a local or an account. */
    | Ident(name: string)
    | Field(base: Expr, member: string)
    /** Calls, operators, references, casts, indexing, tuples, arrays...: forms both collectors walk. */
    | Node(op: string, kids: seq<Expr>)
    /** Walked for sources, but not for references. */
    | Await(base: Expr)
    /** Closures, blocks, macros...: forms neither collector walks. */
    | Unwalked(op: string, kids: seq<Expr>)

  datatype Let = Let(name: string, init: Expr)

  type Aliases = map<string, set<nat>>

  /** The first account of that name. */
  function AccountIndex(names: seq<string>, name: string): (r: Option<nat>)
    ensures r.Some? ==> r.value < |names| && names[r.value] == name && forall j :: 0 <= j < r.value ==> names[j] != name
    ensures r.None? ==> name !in names
  {
    if names == [] then None
    else if names[0] == name then Some(0)
    else match AccountIndex(names[1..], name) case None => None case Some(i) => Some(i + 1)
  }

  function AsSet(i: Option<nat>): set<nat> {
    if i.Some? then {i.value} else {}
  }

  /** `ctx.accounts.<account>`: the account meant. */
  function CtxAccount(e: Expr, names: seq<string>): Option<nat> {
    if e.Field? && e.base == Field(Ident("ctx"), "accounts") then AccountIndex(names, e.member) else None
  }

  /** `referenced_accounts`. */
  function Referenced(e: Expr, names: seq<string>, aliases: Aliases): set<nat>
    decreases e, 1
  {
    match e
    case Ident(name) => if name in aliases then aliases[name] else AsSet(AccountIndex(names, name))
    case Field(base, _) =>
      if CtxAccount(e, names).Some? then {CtxAccount(e, names).value} else Referenced(base, names, aliases)
    case Node(_, kids) => ReferencedInAll(kids, names, aliases)
    case Await(_) => {}
    case Unwalked(_, _) => {}
  }

  function ReferencedInAll(es: seq<Expr>, names: seq<string>, aliases: Aliases): set<nat>
    decreases es, 0
  {
    if es == [] then {} else Referenced(es[0], names, aliases) + ReferencedInAll(es[1..], names, aliases)
  }

  /** `base_account_index`; a tainted local gives any one of its accounts, whichever the hash set yields first. */
  function BaseAccount(base: Expr, names: seq<string>, tainted: Aliases, pick: set<nat> -> nat): Option<nat> {
    if !base.Ident? then None
    else if base.name in tainted then if tainted[base.name] == {} then None else Some(pick(tainted[base.name]))
    else AccountIndex(names, base.name)
  }

  /** `collect_sources`. */
  function Collected(e: Expr, names: seq<string>, tainted: Aliases, sources: set<nat>, pick: set<nat> -> nat): set<nat>
    decreases e, 1
  {
    match e
    case Ident(name) =>
      (if name in tainted then tainted[name] else AsSet(AccountIndex(names, name))) * sources
    case Field(base, _) =>
      AsSet(BaseAccount(base, names, tainted, pick)) * sources + Collected(base, names, tainted, sources, pick)
    case Node(_, kids) => CollectedInAll(kids, names, tainted, sources, pick)
    case Await(base) => Collected(base, names, tainted, sources, pick)
    case Unwalked(_, _) => {}
  }

  function CollectedInAll(es: seq<Expr>, names: seq<string>, tainted: Aliases, sources: set<nat>, pick: set<nat> -> nat): set<nat>
    decreases es, 0
  {
    if es == [] then {}
    else Collected(es[0], names, tainted, sources, pick) + CollectedInAll(es[1..], names, tainted, sources, pick)
  }

  /** The set both collectors accumulate into. */
  class Collector {
    const names: seq<string>
    const aliases: Aliases
    var out: set<nat>

    constructor (names: seq<string>, aliases: Aliases)
      ensures this.names == names && this.aliases == aliases && out == {}
    {
      this.names, this.aliases, out := names, aliases, {};
    }

    method ReferencedAccounts(e: Expr)
      modifies this
      ensures out == old(out) + Referenced(e, names, aliases)
      decreases e
    {
      match e
      case Ident(name) =>
        if name in aliases {
          out := out + aliases[name];
        } else {
          out := out + AsSet(AccountIndex(names, name));
        }
      case Field(base, _) =>
        var direct := CtxAccount(e, names);
        if direct.Some? {
          out := out + {direct.value};
          return;
        }
        ReferencedAccounts(base);
      case Node(_, kids) =>
        for i := 0 to |kids|
          invariant out + ReferencedInAll(kids[i..], names, aliases) == old(out) + ReferencedInAll(kids, names, aliases)
        {
          ReferencedAccounts(kids[i]);
        }
      case Await(_) =>
      case Unwalked(_, _) =>
    }

    method CollectSources(e: Expr, sources: set<nat>, pick: set<nat> -> nat)
      modifies this
      ensures out == old(out) + Collected(e, names, aliases, sources, pick)
      decreases e
    {
      match e
      case Ident(name) =>
        if name in aliases {
          out := out + aliases[name] * sources;
        } else {
          out := out + AsSet(AccountIndex(names, name)) * sources;
        }
      case Field(base, _) =>
        var account := BaseAccount(base, names, aliases, pick);
        if account.Some? && account.value in sources {
          out := out + {account.value};
        }
        CollectSources(base, sources, pick);
      case Node(_, kids) =>
        for i := 0 to |kids|
          invariant out + CollectedInAll(kids[i..], names, aliases, sources, pick)
            == old(out) + CollectedInAll(kids, names, aliases, sources, pick)
        {
          CollectSources(kids[i], sources, pick);
        }
      case Await(base) => CollectSources(base, sources, pick);
      case Unwalked(_, _) =>
    }
  }

  /** `bind_ident`: bindings only grow; an empty reference set binds nothing. */
  function Bind(aliases: Aliases, name: string, refs: set<nat>): Aliases {
    if refs == {} then aliases
    else aliases[name := (if name in aliases then aliases[name] else {}) + refs]
  }

  function Bound(lets: seq<Let>, names: seq<string>, aliases: Aliases): Aliases {
    if lets == [] then aliases
    else
      var before := Bound(lets[..|lets| - 1], names, aliases);
      var last := lets[|lets| - 1];
      Bind(before, last.name, Referenced(last.init, names, before))
  }

  /** Let k binds the local x to the account i. */
  predicate BindsAt(lets: seq<Let>, names: seq<string>, x: string, i: nat, k: nat)
    requires k < |lets|
  {
    lets[k].name == x && i in Referenced(lets[k].init, names, Bound(lets[..k], names, map[]))
  }

  lemma BindsInPrefix(lets: seq<Let>, names: seq<string>, x: string, i: nat, k: nat)
    requires k < |lets| - 1
    ensures BindsAt(lets[..|lets| - 1], names, x, i, k) == BindsAt(lets, names, x, i, k)
  {
    assert lets[..|lets| - 1][..k] == lets[..k];
  }

  /** After a line of lets a local holds exactly the accounts that some let of its name bound it to, shadowed or not. */
  lemma {:induction false} BoundIsTheUnion(lets: seq<Let>, names: seq<string>, x: string, i: nat)
    ensures (x in Bound(lets, names, map[]) && i in Bound(lets, names, map[])[x])
      <==> exists k: nat :: k < |lets| && BindsAt(lets, names, x, i, k)
  {
    hide Referenced;
    if lets != [] {
      var n := |lets| - 1;
      BoundIsTheUnion(lets[..n], names, x, i);
      var before := Bound(lets[..n], names, map[]);
      assert (x in Bound(lets, names, map[]) && i in Bound(lets, names, map[])[x])
        == ((x in before && i in before[x]) || BindsAt(lets, names, x, i, n));
      hide BindsAt, Bound;
      forall k: nat | k < n
        ensures BindsAt(lets[..n], names, x, i, k) == BindsAt(lets, names, x, i, k)
      {
        BindsInPrefix(lets, names, x, i, k);
      }
    }
  }

  class TaintState {
    const names: seq<string>
    const sources: set<nat>
    var tainted: Aliases

    /** Sources are the accounts of a source kind that are not canonical. */
    constructor (names: seq<string>, ofSourceKind: set<nat>, canonical: set<nat>)
      ensures this.names == names && tainted == map[]
      ensures sources == ofSourceKind - canonical
    {
      this.names := names;
      sources := ofSourceKind - canonical;
      tainted := map[];
    }

    method BindIdent(ident: string, accounts: set<nat>)
      modifies this
      ensures forall x :: x in old(tainted) ==> x in tainted && old(tainted)[x] <= tainted[x]
      ensures forall x :: x != ident ==> (x in tainted <==> x in old(tainted)) && (x in tainted ==> tainted[x] == old(tainted)[x])
      ensures ident in tainted <==> ident in old(tainted) || accounts != {}
      ensures ident in tainted ==>
        tainted[ident] == (if ident in old(tainted) then old(tainted)[ident] else {}) + accounts
    {
      if accounts == {} {
        return;
      }
      tainted := tainted[ident := (if ident in tainted then tainted[ident] else {}) + accounts];
    }

    /** The `let` arm of `scan_block`, over a straight line of lets. */
    method ScanLets(lets: seq<Let>)
      modifies this
      ensures tainted == Bound(lets, names, old(tainted))
    {
      for i := 0 to |lets|
        invariant tainted == Bound(lets[..i], names, old(tainted))
      {
        assert lets[..i + 1][..i] == lets[..i];
        var collector := new Collector(names, tainted);
        collector.ReferencedAccounts(lets[i].init);
        var refs := collector.out;
        assert refs == Referenced(lets[i].init, names, tainted);
        ghost var before := tainted;
        if refs != {} {
          BindIdent(lets[i].name, refs);
        }
        assert tainted == Bind(before, lets[i].name, refs);
      }
      assert lets[..|lets|] == lets;
    }

    /** `sources_in`, as a set. */
    method SourcesIn(e: Expr, pick: set<nat> -> nat) returns (found: set<nat>)
      ensures found == Collected(e, names, tainted, sources, pick)
    {
      var collector := new Collector(names, tainted);
      collector.CollectSources(e, sources, pick);
      found := collector.out;
      assert {} + Collected(e, names, tainted, sources, pick) == Collected(e, names, tainted, sources, pick);
    }
  }

  // ---- evaluation -------------------------------------------------------------------------------

  /** Arbitrary meanings for fields, operations and names that are neither locals nor accounts. */
  datatype Semantics<!V> = Semantics(project: (V, string) -> V, apply: (string, seq<V>) -> V, unbound: string -> V)

  function Eval<V>(e: Expr, sem: Semantics<V>, names: seq<string>, accounts: seq<V>, locals: map<string, V>): V
    requires |accounts| == |names|
    decreases e, 1
  {
    match e
    case Ident(name) =>
      if name in locals then locals[name]
      else
        var i := AccountIndex(names, name);
        if i.Some? then accounts[i.value] else sem.unbound(name)
    case Field(base, member) =>
      if CtxAccount(e, names).Some? && "ctx" !in locals then accounts[CtxAccount(e, names).value]
      else sem.project(Eval(base, sem, names, accounts, locals), member)
    case Node(op, kids) => sem.apply(op, EvalAll(kids, sem, names, accounts, locals))
    case Await(base) => sem.apply("await", [Eval(base, sem, names, accounts, locals)])
    case Unwalked(op, kids) => sem.apply(op, EvalAll(kids, sem, names, accounts, locals))
  }

  function EvalAll<V>(es: seq<Expr>, sem: Semantics<V>, names: seq<string>, accounts: seq<V>, locals: map<string, V>): seq<V>
    requires |accounts| == |names|
    decreases es, 0
  {
    if es == [] then []
    else [Eval(es[0], sem, names, accounts, locals)] + EvalAll(es[1..], sem, names, accounts, locals)
  }

  /** The locals after the lets; a later let of the same name shadows. */
  function RunLets<V>(lets: seq<Let>, sem: Semantics<V>, names: seq<string>, accounts: seq<V>): map<string, V>
    requires |accounts| == |names|
  {
    if lets == [] then map[]
    else
      var before := RunLets(lets[..|lets| - 1], sem, names, accounts);
      var last := lets[|lets| - 1];
      before[last.name := Eval(last.init, sem, names, accounts, before)]
  }

  // ---- what the evaluator reads -------------------------------------------------------------------

  /** The accounts the value of e is made from, given those of the locals. */
  function Reads(e: Expr, names: seq<string>, locals: Aliases): set<nat>
    decreases e, 1
  {
    match e
    case Ident(name) => if name in locals then locals[name] else AsSet(AccountIndex(names, name))
    case Field(base, _) =>
      if CtxAccount(e, names).Some? && "ctx" !in locals then {CtxAccount(e, names).value} else Reads(base, names, locals)
    case Node(_, kids) => ReadsInAll(kids, names, locals)
    case Await(base) => Reads(base, names, locals)
    case Unwalked(_, kids) => ReadsInAll(kids, names, locals)
  }

  function ReadsInAll(es: seq<Expr>, names: seq<string>, locals: Aliases): set<nat>
    decreases es, 0
  {
    if es == [] then {} else Reads(es[0], names, locals) + ReadsInAll(es[1..], names, locals)
  }

  /** What the locals are made from after the lets. */
  function ReadsAfter(lets: seq<Let>, names: seq<string>): Aliases {
    if lets == [] then map[]
    else
      var before := ReadsAfter(lets[..|lets| - 1], names);
      var last := lets[|lets| - 1];
      before[last.name := Reads(last.init, names, before)]
  }

  ghost predicate AgreeOn<V(!new)>(a: seq<V>, b: seq<V>, on: set<nat>) {
    |a| == |b| && forall i :: i in on && i < |a| ==> a[i] == b[i]
  }

  /** Locals made from accounts on which the runs agree are equal. */
  ghost predicate MadeFrom<V(!new)>(l: map<string, V>, m: map<string, V>, locals: Aliases, a: seq<V>, b: seq<V>) {
    l.Keys == m.Keys == locals.Keys && forall x :: x in l && AgreeOn(a, b, locals[x]) ==> l[x] == m[x]
  }

  lemma {:induction false} ValueDependsOnReads<V(!new)>(
      e: Expr, sem: Semantics<V>, names: seq<string>, locals: Aliases, a: seq<V>, b: seq<V>, l: map<string, V>, m: map<string, V>)
    requires |a| == |b| == |names| && MadeFrom(l, m, locals, a, b) && AgreeOn(a, b, Reads(e, names, locals))
    ensures Eval(e, sem, names, a, l) == Eval(e, sem, names, b, m)
    decreases e, 1
  {
    match e
    case Ident(_) =>
    case Field(base, _) =>
      if !(CtxAccount(e, names).Some? && "ctx" !in locals) {
        ValueDependsOnReads(base, sem, names, locals, a, b, l, m);
      }
    case Node(_, kids) => ValuesDependOnReads(kids, sem, names, locals, a, b, l, m);
    case Await(base) => ValueDependsOnReads(base, sem, names, locals, a, b, l, m);
    case Unwalked(_, kids) => ValuesDependOnReads(kids, sem, names, locals, a, b, l, m);
  }

  lemma {:induction false} ValuesDependOnReads<V(!new)>(
      es: seq<Expr>, sem: Semantics<V>, names: seq<string>, locals: Aliases, a: seq<V>, b: seq<V>, l: map<string, V>, m: map<string, V>)
    requires |a| == |b| == |names| && MadeFrom(l, m, locals, a, b) && AgreeOn(a, b, ReadsInAll(es, names, locals))
    ensures EvalAll(es, sem, names, a, l) == EvalAll(es, sem, names, b, m)
    decreases es, 0
  {
    if es != [] {
      ValueDependsOnReads(es[0], sem, names, locals, a, b, l, m);
      ValuesDependOnReads(es[1..], sem, names, locals, a, b, l, m);
    }
  }

  lemma {:induction false} LocalsDependOnReads<V(!new)>(lets: seq<Let>, sem: Semantics<V>, names: seq<string>, a: seq<V>, b: seq<V>)
    requires |a| == |b| == |names|
    ensures MadeFrom(RunLets(lets, sem, names, a), RunLets(lets, sem, names, b), ReadsAfter(lets, names), a, b)
  {
    if lets != [] {
      var n := |lets| - 1;
      LocalsDependOnReads(lets[..n], sem, names, a, b);
      var before := ReadsAfter(lets[..n], names);
      if AgreeOn(a, b, Reads(lets[n].init, names, before)) {
        ValueDependsOnReads(lets[n].init, sem, names, before, a, b,
                            RunLets(lets[..n], sem, names, a), RunLets(lets[..n], sem, names, b));
      }
    }
  }

  // ---- noninterference -------------------------------------------------------------------------------

  /** The sources collected from e after the lets. */
  function CollectedAfter(lets: seq<Let>, e: Expr, names: seq<string>, sources: set<nat>, pick: set<nat> -> nat): set<nat> {
    Collected(e, names, Bound(lets, names, map[]), sources, pick)
  }

  /** Every source that e reads after the lets is collected. */
  predicate CollectsWhatIsRead(lets: seq<Let>, e: Expr, names: seq<string>, sources: set<nat>, pick: set<nat> -> nat) {
    Reads(e, names, ReadsAfter(lets, names)) * sources <= CollectedAfter(lets, e, names, sources, pick)
  }

  /** The two runs differ in sources only, and in none of those collected. */
  ghost predicate DifferElsewhere<V(!new)>(a: seq<V>, b: seq<V>, names: seq<string>, sources: set<nat>, collected: set<nat>) {
    && |a| == |b| == |names|
    && (forall i :: 0 <= i < |a| && i !in sources ==> a[i] == b[i])
    && AgreeOn(a, b, collected)
  }

  /**
   Noninterference: where every source that is read is collected, two runs that agree on
   every account outside the sources and on the collected sources give e the same value,
   after any straight line of lets, shadowing included, and for arbitrary operations.
   */
  lemma Noninterference<V(!new)>(
      lets: seq<Let>, e: Expr, sem: Semantics<V>, names: seq<string>, sources: set<nat>, pick: set<nat> -> nat,
      a: seq<V>, b: seq<V>)
    requires CollectsWhatIsRead(lets, e, names, sources, pick)
    requires DifferElsewhere(a, b, names, sources, CollectedAfter(lets, e, names, sources, pick))
    ensures Eval(e, sem, names, a, RunLets(lets, sem, names, a)) == Eval(e, sem, names, b, RunLets(lets, sem, names, b))
  {
    LocalsDependOnReads(lets, sem, names, a, b);
    var made := Reads(e, names, ReadsAfter(lets, names));
    forall i | i in made && i < |a|
      ensures a[i] == b[i]
    {
      assert i in sources ==> i in made * sources;
    }
    ValueDependsOnReads(e, sem, names, ReadsAfter(lets, names), a, b,
                        RunLets(lets, sem, names, a), RunLets(lets, sem, names, b));
  }

  /** Every operation is "some operand is true". */
  const ANY: Semantics<bool> := Semantics((v, _) => v, (_, vs) => true in vs, _ => false)

  ghost predicate SomeTrue(a: seq<bool>, among: set<nat>) {
    exists i :: i in among && i < |a| && a[i]
  }

  ghost predicate AnyLocals(l: map<string, bool>, locals: Aliases, a: seq<bool>) {
    l.Keys == locals.Keys && forall x :: x in l ==> (l[x] <==> SomeTrue(a, locals[x]))
  }

  lemma {:induction false} AnyValue(e: Expr, names: seq<string>, locals: Aliases, a: seq<bool>, l: map<string, bool>)
    requires |a| == |names| && AnyLocals(l, locals, a)
    ensures Eval(e, ANY, names, a, l) <==> SomeTrue(a, Reads(e, names, locals))
    decreases e, 1
  {
    match e
    case Ident(_) =>
    case Field(base, _) =>
      if !(CtxAccount(e, names).Some? && "ctx" !in locals) {
        AnyValue(base, names, locals, a, l);
      }
    case Node(_, kids) => AnyValues(kids, names, locals, a, l);
    case Await(base) => AnyValue(base, names, locals, a, l);
    case Unwalked(_, kids) => AnyValues(kids, names, locals, a, l);
  }

  lemma {:induction false} AnyValues(es: seq<Expr>, names: seq<string>, locals: Aliases, a: seq<bool>, l: map<string, bool>)
    requires |a| == |names| && AnyLocals(l, locals, a)
    ensures true in EvalAll(es, ANY, names, a, l) <==> SomeTrue(a, ReadsInAll(es, names, locals))
    decreases es, 0
  {
    if es != [] {
      AnyValue(es[0], names, locals, a, l);
      AnyValues(es[1..], names, locals, a, l);
    }
  }

  lemma {:induction false} AnyLocalsAfter(lets: seq<Let>, names: seq<string>, a: seq<bool>)
    requires |a| == |names|
    ensures AnyLocals(RunLets(lets, ANY, names, a), ReadsAfter(lets, names), a)
  {
    if lets != [] {
      var n := |lets| - 1;
      AnyLocalsAfter(lets[..n], names, a);
      AnyValue(lets[n].init, names, ReadsAfter(lets[..n], names), a, RunLets(lets[..n], ANY, names, a));
    }
  }

  lemma {:induction false} ReadsAreAccounts(e: Expr, names: seq<string>, locals: Aliases)
    requires forall x, i :: x in locals && i in locals[x] ==> i < |names|
    ensures forall i :: i in Reads(e, names, locals) ==> i < |names|
    decreases e, 1
  {
    match e
    case Ident(_) =>
    case Field(base, _) => ReadsAreAccounts(base, names, locals);
    case Node(_, kids) => ReadsInAllAreAccounts(kids, names, locals);
    case Await(base) => ReadsAreAccounts(base, names, locals);
    case Unwalked(_, kids) => ReadsInAllAreAccounts(kids, names, locals);
  }

  lemma {:induction false} ReadsInAllAreAccounts(es: seq<Expr>, names: seq<string>, locals: Aliases)
    requires forall x, i :: x in locals && i in locals[x] ==> i < |names|
    ensures forall i :: i in ReadsInAll(es, names, locals) ==> i < |names|
    decreases es, 0
  {
    if es != [] {
      ReadsAreAccounts(es[0], names, locals);
      ReadsInAllAreAccounts(es[1..], names, locals);
    }
  }

  lemma {:induction false} ReadsAfterAreAccounts(lets: seq<Let>, names: seq<string>)
    ensures forall x, i :: x in ReadsAfter(lets, names) && i in ReadsAfter(lets, names)[x] ==> i < |names|
  {
    if lets != [] {
      ReadsAfterAreAccounts(lets[..|lets| - 1], names);
      ReadsAreAccounts(lets[|lets| - 1].init, names, ReadsAfter(lets[..|lets| - 1], names));
    }
  }

  /** A source that is read and not collected changes the value without being noticed. */
  lemma UncollectedSourceInterferes(
      lets: seq<Let>, e: Expr, names: seq<string>, sources: set<nat>, pick: set<nat> -> nat, i: nat)
      returns (a: seq<bool>, b: seq<bool>)
    requires i in Reads(e, names, ReadsAfter(lets, names)) && i in sources && i !in CollectedAfter(lets, e, names, sources, pick)
    ensures DifferElsewhere(a, b, names, sources, CollectedAfter(lets, e, names, sources, pick))
    ensures Eval(e, ANY, names, a, RunLets(lets, ANY, names, a)) != Eval(e, ANY, names, b, RunLets(lets, ANY, names, b))
  {
    var locals := ReadsAfter(lets, names);
    ReadsAfterAreAccounts(lets, names);
    ReadsAreAccounts(e, names, locals);
    a := seq(|names|, k => false);
    b := a[i := true];
    AnyLocalsAfter(lets, names, a);
    AnyLocalsAfter(lets, names, b);
    AnyValue(e, names, locals, a, RunLets(lets, ANY, names, a));
    AnyValue(e, names, locals, b, RunLets(lets, ANY, names, b));
    assert b[i];
  }

  /**
   Exactly when tracking is sound: the value of e depends on no other source than the
   collected ones, under all operations and in all pairs of runs, if and only if every source
   that e reads is collected.
   */
  lemma NoninterferenceIff(lets: seq<Let>, e: Expr, names: seq<string>, sources: set<nat>, pick: set<nat> -> nat)
    ensures CollectsWhatIsRead(lets, e, names, sources, pick)
      <==> forall sem: Semantics<bool>, a: seq<bool>, b: seq<bool> ::
             DifferElsewhere(a, b, names, sources, CollectedAfter(lets, e, names, sources, pick)) ==>
               Eval(e, sem, names, a, RunLets(lets, sem, names, a)) == Eval(e, sem, names, b, RunLets(lets, sem, names, b))
  {
    hide Eval, RunLets, Reads, ReadsAfter, CollectedAfter;
    if CollectsWhatIsRead(lets, e, names, sources, pick) {
      forall sem: Semantics<bool>, a: seq<bool>, b: seq<bool>
        | DifferElsewhere(a, b, names, sources, CollectedAfter(lets, e, names, sources, pick))
        ensures Eval(e, sem, names, a, RunLets(lets, sem, names, a)) == Eval(e, sem, names, b, RunLets(lets, sem, names, b))
      {
        Noninterference(lets, e, sem, names, sources, pick, a, b);
      }
    } else {
      var i :| i in Reads(e, names, ReadsAfter(lets, names)) * sources && i !in CollectedAfter(lets, e, names, sources, pick);
      var a, b := UncollectedSourceInterferes(lets, e, names, sources, pick, i);
      assert Eval(e, ANY, names, a, RunLets(lets, ANY, names, a)) != Eval(e, ANY, names, b, RunLets(lets, ANY, names, b));
    }
  }

  // ---- the parts of an expression through which sources get away ---------------------------------------

  /** What a name stands for in the taint state. */
  function StandsFor(name: string, names: seq<string>, tainted: Aliases): set<nat> {
    if name in tainted then tainted[name] else AsSet(AccountIndex(names, name))
  }

  /**
   Sources read through a `ctx.accounts` path, inside a form that is not walked, or from a
   local that is not bound to them.
   */
  function Missed(e: Expr, names: seq<string>, locals: Aliases, tainted: Aliases, sources: set<nat>): set<nat>
    decreases e, 1
  {
    match e
    case Ident(name) => (Reads(e, names, locals) - StandsFor(name, names, tainted)) * sources
    case Field(base, _) =>
      if CtxAccount(e, names).Some? && "ctx" !in locals then {CtxAccount(e, names).value} * sources
      else Missed(base, names, locals, tainted, sources)
    case Node(_, kids) => MissedInAll(kids, names, locals, tainted, sources)
    case Await(base) => Missed(base, names, locals, tainted, sources)
    case Unwalked(_, kids) => ReadsInAll(kids, names, locals) * sources
  }

  function MissedInAll(es: seq<Expr>, names: seq<string>, locals: Aliases, tainted: Aliases, sources: set<nat>): set<nat>
    decreases es, 0
  {
    if es == [] then {}
    else Missed(es[0], names, locals, tainted, sources) + MissedInAll(es[1..], names, locals, tainted, sources)
  }

  lemma {:induction false} CollectedOrMissed(
      e: Expr, names: seq<string>, locals: Aliases, tainted: Aliases, sources: set<nat>, pick: set<nat> -> nat)
    ensures Reads(e, names, locals) * sources
      <= Collected(e, names, tainted, sources, pick) + Missed(e, names, locals, tainted, sources)
    ensures Missed(e, names, locals, tainted, sources) <= Reads(e, names, locals) * sources
    decreases e, 1
  {
    match e
    case Ident(_) =>
    case Field(base, _) => CollectedOrMissed(base, names, locals, tainted, sources, pick);
    case Node(_, kids) => AllCollectedOrMissed(kids, names, locals, tainted, sources, pick);
    case Await(base) => CollectedOrMissed(base, names, locals, tainted, sources, pick);
    case Unwalked(_, _) =>
  }

  lemma {:induction false} AllCollectedOrMissed(
      es: seq<Expr>, names: seq<string>, locals: Aliases, tainted: Aliases, sources: set<nat>, pick: set<nat> -> nat)
    ensures ReadsInAll(es, names, locals) * sources
      <= CollectedInAll(es, names, tainted, sources, pick) + MissedInAll(es, names, locals, tainted, sources)
    ensures MissedInAll(es, names, locals, tainted, sources) <= ReadsInAll(es, names, locals) * sources
    decreases es, 0
  {
    if es != [] {
      CollectedOrMissed(es[0], names, locals, tainted, sources, pick);
      AllCollectedOrMissed(es[1..], names, locals, tainted, sources, pick);
      forall i | i in ReadsInAll(es, names, locals) * sources
        ensures i in CollectedInAll(es, names, tainted, sources, pick) + MissedInAll(es, names, locals, tainted, sources)
      {
        assert i in Reads(es[0], names, locals) * sources || i in ReadsInAll(es[1..], names, locals) * sources;
      }
    }
  }

  /** Tracking is sound exactly when what the offending parts of e miss is collected elsewhere in e. */
  lemma SoundIffMissedIsCollected(lets: seq<Let>, e: Expr, names: seq<string>, sources: set<nat>, pick: set<nat> -> nat)
    ensures CollectsWhatIsRead(lets, e, names, sources, pick)
      <==> Missed(e, names, ReadsAfter(lets, names), Bound(lets, names, map[]), sources)
           <= CollectedAfter(lets, e, names, sources, pick)
  {
    CollectedOrMissed(e, names, ReadsAfter(lets, names), Bound(lets, names, map[]), sources, pick);
  }

  /** No form the reference collector skips. */
  predicate Walkable(e: Expr)
    decreases e, 1
  {
    match e
    case Ident(_) => true
    case Field(base, _) => Walkable(base)
    case Node(_, kids) => forall k :: k in kids ==> Walkable(k)
    case Await(_) => false
    case Unwalked(_, _) => false
  }

  /** No form the source collector skips: no unwalked form and no `ctx.accounts.<account>`. */
  predicate Collectable(e: Expr, names: seq<string>)
    decreases e, 1
  {
    match e
    case Ident(_) => true
    case Field(base, _) => CtxAccount(e, names).None? && Collectable(base, names)
    case Node(_, kids) => forall k :: k in kids ==> Collectable(k, names)
    case Await(base) => Collectable(base, names)
    case Unwalked(_, _) => false
  }

  /** Lets that the reference collector covers and that do not rebind `ctx`. */
  predicate Trackable(lets: seq<Let>) {
    forall s :: s in lets ==> Walkable(s.init) && s.name != "ctx"
  }

  /** Every local is bound to all accounts it is made from, and nothing else is bound. */
  ghost predicate Tracked(locals: Aliases, tainted: Aliases) {
    tainted.Keys <= locals.Keys && forall x :: x in locals && locals[x] != {} ==> x in tainted && locals[x] <= tainted[x]
  }

  lemma {:induction false} ReadsAreReferenced(e: Expr, names: seq<string>, locals: Aliases, tainted: Aliases)
    requires Tracked(locals, tainted) && Walkable(e) && "ctx" !in locals
    ensures Reads(e, names, locals) <= Referenced(e, names, tainted)
    decreases e, 1
  {
    match e
    case Ident(name) =>
    case Field(base, _) => ReadsAreReferenced(base, names, locals, tainted);
    case Node(_, kids) => AllReadsAreReferenced(kids, names, locals, tainted);
  }

  lemma {:induction false} AllReadsAreReferenced(es: seq<Expr>, names: seq<string>, locals: Aliases, tainted: Aliases)
    requires Tracked(locals, tainted) && (forall e :: e in es ==> Walkable(e)) && "ctx" !in locals
    ensures ReadsInAll(es, names, locals) <= ReferencedInAll(es, names, tainted)
    decreases es, 0
  {
    if es != [] {
      ReadsAreReferenced(es[0], names, locals, tainted);
      AllReadsAreReferenced(es[1..], names, locals, tainted);
    }
  }

  /** Lets without an offending part keep every local bound to all it is made from, shadowing included. */
  lemma {:induction false} LetsAreTracked(lets: seq<Let>, names: seq<string>)
    requires Trackable(lets)
    ensures Tracked(ReadsAfter(lets, names), Bound(lets, names, map[])) && "ctx" !in ReadsAfter(lets, names)
  {
    if lets != [] {
      var n := |lets| - 1;
      LetsAreTracked(lets[..n], names);
      assert lets[n] in lets;
      ReadsAreReferenced(lets[n].init, names, ReadsAfter(lets[..n], names), Bound(lets[..n], names, map[]));
    }
  }

  lemma {:induction false} NothingMissed(e: Expr, names: seq<string>, locals: Aliases, tainted: Aliases, sources: set<nat>)
    requires Tracked(locals, tainted) && Collectable(e, names)
    ensures Missed(e, names, locals, tainted, sources) == {}
    decreases e, 1
  {
    match e
    case Ident(_) =>
    case Field(base, _) => NothingMissed(base, names, locals, tainted, sources);
    case Node(_, kids) => NothingMissedInAll(kids, names, locals, tainted, sources);
    case Await(base) => NothingMissed(base, names, locals, tainted, sources);
  }

  lemma {:induction false} NothingMissedInAll(es: seq<Expr>, names: seq<string>, locals: Aliases, tainted: Aliases, sources: set<nat>)
    requires Tracked(locals, tainted) && forall e :: e in es ==> Collectable(e, names)
    ensures MissedInAll(es, names, locals, tainted, sources) == {}
    decreases es, 0
  {
    if es != [] {
      NothingMissed(es[0], names, locals, tainted, sources);
      NothingMissedInAll(es[1..], names, locals, tainted, sources);
    }
  }

  /** Without offending parts every source that is read is collected. */
  lemma CoveredCodeIsSound(lets: seq<Let>, e: Expr, names: seq<string>, sources: set<nat>, pick: set<nat> -> nat)
    requires Trackable(lets) && Collectable(e, names)
    ensures CollectsWhatIsRead(lets, e, names, sources, pick)
  {
    LetsAreTracked(lets, names);
    NothingMissed(e, names, ReadsAfter(lets, names), Bound(lets, names, map[]), sources);
    SoundIffMissedIsCollected(lets, e, names, sources, pick);
  }

  // ---- the two collectors against each other --------------------------------------------------------------

  ghost predicate Picks(pick: set<nat> -> nat) {
    forall s: set<nat> :: s != {} ==> pick(s) in s
  }

  /** The two collectors treat every form of e alike: no `ctx.accounts.<account>` and no `.await`. */
  predicate WalkedAlike(e: Expr, names: seq<string>)
    decreases e, 1
  {
    match e
    case Ident(_) => true
    case Field(base, _) => CtxAccount(e, names).None? && WalkedAlike(base, names)
    case Node(_, kids) => forall k :: k in kids ==> WalkedAlike(k, names)
    case Await(_) => false
    case Unwalked(_, _) => true
  }

  /** Then the sources are the referenced accounts that are sources, whatever is picked. */
  lemma {:induction false} CollectedIsReferencedSources(
      e: Expr, names: seq<string>, tainted: Aliases, sources: set<nat>, pick: set<nat> -> nat)
    requires WalkedAlike(e, names) && Picks(pick)
    ensures Collected(e, names, tainted, sources, pick) == Referenced(e, names, tainted) * sources
    decreases e, 1
  {
    match e
    case Ident(_) =>
    case Field(base, _) =>
      CollectedIsReferencedSources(base, names, tainted, sources, pick);
    case Node(_, kids) => CollectedInAllIsReferencedSources(kids, names, tainted, sources, pick);
    case Unwalked(_, _) =>
  }

  lemma {:induction false} CollectedInAllIsReferencedSources(
      es: seq<Expr>, names: seq<string>, tainted: Aliases, sources: set<nat>, pick: set<nat> -> nat)
    requires (forall e :: e in es ==> WalkedAlike(e, names)) && Picks(pick)
    ensures CollectedInAll(es, names, tainted, sources, pick) == ReferencedInAll(es, names, tainted) * sources
    decreases es, 0
  {
    if es != [] {
      CollectedIsReferencedSources(es[0], names, tainted, sources, pick);
      CollectedInAllIsReferencedSources(es[1..], names, tainted, sources, pick);
    }
  }

  /** Where the reference collector covers e, it yields exactly the accounts that e reads. */
  lemma {:induction false} ReferencedIsRead(e: Expr, names: seq<string>, aliases: Aliases)
    requires Walkable(e) && "ctx" !in aliases
    ensures Referenced(e, names, aliases) == Reads(e, names, aliases)
    decreases e, 1
  {
    match e
    case Ident(_) =>
    case Field(base, _) => ReferencedIsRead(base, names, aliases);
    case Node(_, kids) => ReferencedInAllIsRead(kids, names, aliases);
  }

  lemma {:induction false} ReferencedInAllIsRead(es: seq<Expr>, names: seq<string>, aliases: Aliases)
    requires (forall e :: e in es ==> Walkable(e)) && "ctx" !in aliases
    ensures ReferencedInAll(es, names, aliases) == ReadsInAll(es, names, aliases)
    decreases es, 0
  {
    if es != [] {
      ReferencedIsRead(es[0], names, aliases);
      ReferencedInAllIsRead(es[1..], names, aliases);
    }
  }

  /** Only sources are collected, and only those that e reads, whatever forms it has. */
  lemma {:induction false} CollectedIsRead(
      e: Expr, names: seq<string>, tainted: Aliases, sources: set<nat>, pick: set<nat> -> nat)
    requires Picks(pick) && "ctx" !in tainted && "ctx" !in names
    ensures Collected(e, names, tainted, sources, pick) <= Reads(e, names, tainted) * sources
    decreases e, 1
  {
    match e
    case Ident(_) =>
    case Field(base, _) =>
      CollectedIsRead(base, names, tainted, sources, pick);
      if CtxAccount(e, names).Some? {
        assert Collected(Ident("ctx"), names, tainted, sources, pick) == {};
        assert Collected(base, names, tainted, sources, pick) == {};
      }
    case Node(_, kids) => CollectedInAllIsRead(kids, names, tainted, sources, pick);
    case Await(base) => CollectedIsRead(base, names, tainted, sources, pick);
    case Unwalked(_, _) =>
  }

  lemma {:induction false} CollectedInAllIsRead(
      es: seq<Expr>, names: seq<string>, tainted: Aliases, sources: set<nat>, pick: set<nat> -> nat)
    requires Picks(pick) && "ctx" !in tainted && "ctx" !in names
    ensures CollectedInAll(es, names, tainted, sources, pick) <= ReadsInAll(es, names, tainted) * sources
    decreases es, 0
  {
    if es != [] {
      CollectedIsRead(es[0], names, tainted, sources, pick);
      CollectedInAllIsRead(es[1..], names, tainted, sources, pick);
    }
  }

  // ---- where tracking is incomplete ---------------------------------------------------------------------

  /** `ctx.accounts.<account>.<member>` of any source account is read, and not collected. */
  lemma CtxPathsEscape(names: seq<string>, account: string, member: string, sources: set<nat>, pick: set<nat> -> nat)
    requires AccountIndex(names, account).Some? && AccountIndex(names, account).value in sources
    requires "ctx" !in names
    ensures !CollectsWhatIsRead([], Field(Field(Field(Ident("ctx"), "accounts"), account), member), names, sources, pick)
  {
    var path := Field(Field(Ident("ctx"), "accounts"), account);
    var e := Field(path, member);
    assert ReadsAfter([], names) == map[] && Bound([], names, map[]) == map[];
    assert CtxAccount(path, names).Some? && CtxAccount(e, names).None?;
    assert AccountIndex(names, account).value in Reads(e, names, map[]) by {
      assert Reads(e, names, map[]) == Reads(path, names, map[]);
    }
    assert Collected(Ident("ctx"), names, map[], sources, pick) == {};
    assert Collected(Field(Ident("ctx"), "accounts"), names, map[], sources, pick) == {};
    assert Collected(path, names, map[], sources, pick) == {};
    assert Collected(e, names, map[], sources, pick) == {};
    assert AccountIndex(names, account).value in Reads(e, names, map[]) * sources;
  }

  /** A local initialised by awaiting any source account is made from it, and not bound to it. */
  lemma AwaitedLetsEscape(names: seq<string>, account: string, x: string, sources: set<nat>, pick: set<nat> -> nat)
    requires AccountIndex(names, account).Some? && AccountIndex(names, account).value in sources
    requires x !in names
    ensures !CollectsWhatIsRead([Let(x, Await(Ident(account)))], Ident(x), names, sources, pick)
  {
    var lets := [Let(x, Await(Ident(account)))];
    assert lets[..0] == [];
    assert Bound(lets[..0], names, map[]) == map[] && Bound(lets, names, map[]) == map[];
    assert ReadsAfter(lets, names)[x] == Reads(Ident(account), names, map[]);
    assert AccountIndex(names, account).value in Reads(Ident(x), names, ReadsAfter(lets, names)) * sources;
  }
}
