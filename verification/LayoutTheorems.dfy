/**
 The generated module as a whole: references that survive resolution are emitted, and the
 reference graph is so shallow that it cannot have a cycle.
 */
module LayoutTheorems {
  import opened Layout
  import opened RustNames
  import opened Wrappers

  // ---- resolution -----------------------------------------------------------------------------

  /** A clean result does not depend on the chain: any shorter chain over a subset of its names gives the same. */
  lemma {:induction false} ChainWeakening(ty: Value, defs: map<string, Def>, chain: seq<string>, shorter: seq<string>)
    requires Clean(ResolveType(ty, defs, chain))
    requires |shorter| <= |chain| && forall n :: n in shorter ==> n in chain
    ensures ResolveType(ty, defs, shorter) == ResolveType(ty, defs, chain)
    decreases 2 * Room(chain), ty
  {
    if ty.Object? && |ty.entries| == 1 {
      var (key, inner) := ty.entries[0];
      if key == "vec" || key == "option" {
        ChainWeakening(inner, defs, chain, shorter);
      } else if key == "array" {
        ChainWeakening(inner.items[0], defs, chain, shorter);
      } else {
        var name := inner.text;
        assert ResolveDefined(name, ty, defs, chain) == ResolveType(ty, defs, chain);
        assert name !in chain && name in defs;
        if defs[name].StructDef? {
          FieldsWeakening(defs[name].fields, defs, chain + [name], shorter + [name]);
        }
      }
    }
  }

  lemma {:induction false} FieldsWeakening(fields: seq<IdlField>, defs: map<string, Def>, chain: seq<string>, shorter: seq<string>)
    requires ExpandFields(fields, defs, chain) == Expanded(false)
    requires |shorter| <= |chain| && forall n :: n in shorter ==> n in chain
    ensures ExpandFields(fields, defs, shorter) == Expanded(false)
    decreases 2 * Room(chain) + 1, |fields|
  {
    if fields != [] {
      ChainWeakening(fields[0].ty, defs, chain, shorter);
      FieldsWeakening(fields[1..], defs, chain, shorter);
    }
  }

  lemma {:induction false} ExpandedCleanly(fields: seq<IdlField>, defs: map<string, Def>, chain: seq<string>)
    ensures ExpandFields(fields, defs, chain) == Expanded(false)
      <==> forall f :: f in fields ==> Clean(ResolveType(f.ty, defs, chain))
  {
    if fields != [] {
      ExpandedCleanly(fields[1..], defs, chain);
      assert fields == [fields[0]] + fields[1..];
    }
  }

  /** Unsupported dominates truncation: one unsupported field blocks the struct, whatever else is truncated. */
  lemma {:induction false} UnsupportedDominates(fields: seq<IdlField>, defs: map<string, Def>, chain: seq<string>)
    ensures ExpandFields(fields, defs, chain).Blocked?
      <==> exists f :: f in fields && ResolveType(f.ty, defs, chain).Unsupported?
    ensures EmitFields(fields, defs, chain).None?
      <==> exists f :: f in fields && ResolveType(f.ty, defs, chain).Unsupported?
  {
    if fields != [] {
      UnsupportedDominates(fields[1..], defs, chain);
      assert fields == [fields[0]] + fields[1..];
    }
  }

  /** A name the resolved type mentions is a definition off the chain that expands cleanly, and is what the filler calls. */
  lemma {:induction false} SurvivingName(ty: Value, defs: map<string, Def>, chain: seq<string>)
    requires ResolveType(ty, defs, chain).Supported?
    ensures var ft := ResolveType(ty, defs, chain).ft;
      && Calls(ft.filler) == Names(ft.rust)
      && forall n :: n in Names(ft.rust) ==>
           && |chain| < 3 && n !in chain && n in defs
           && (defs[n].StructDef? ==>
                 forall f :: f in defs[n].fields ==> Clean(ResolveType(f.ty, defs, chain + [n])))
  {
    if ty.Object? && |ty.entries| == 1 {
      var (key, inner) := ty.entries[0];
      if key == "vec" || key == "option" {
        SurvivingName(inner, defs, chain);
      } else if key == "array" {
        SurvivingName(inner.items[0], defs, chain);
      } else {
        var name := inner.text;
        if name in defs && defs[name].StructDef? {
          ExpandedCleanly(defs[name].fields, defs, chain + [name]);
        }
      }
    }
  }

  // ---- which Rust type an IDL type becomes ------------------------------------------------------

  /** The type inside all containers. */
  function Leaf(ty: Value): Value {
    match ty
    case Object(entries) =>
      if |entries| == 1 && (entries[0].0 == "vec" || entries[0].0 == "option") then Leaf(entries[0].1)
      else if |entries| == 1 && entries[0].0 == "array" && entries[0].1.Array? && |entries[0].1.items| >= 2
              && entries[0].1.items[1].Number?
      then Leaf(entries[0].1.items[0])
      else ty
    case _ => ty
  }

  /** The same containers around another leaf; anything behind the length of an array is dropped. */
  function Around(ty: Value, leaf: Value): Value {
    match ty
    case Object(entries) =>
      if |entries| == 1 && (entries[0].0 == "vec" || entries[0].0 == "option") then
        Object([(entries[0].0, Around(entries[0].1, leaf))])
      else if |entries| == 1 && entries[0].0 == "array" && entries[0].1.Array? && |entries[0].1.items| >= 2
              && entries[0].1.items[1].Number?
      then Object([("array", Array([Around(entries[0].1.items[0], leaf), entries[0].1.items[1]]))])
      else leaf
    case _ => leaf
  }

  /** The IDL type that a Rust type stands for. */
  function IdlOf(t: RustType): Value {
    match t
    case Plain(name) => Text(if name == "String" then "string" else if name == "Pubkey" then "publicKey" else name)
    case Named(name) => Object([("defined", Text(name))])
    case VecOf(inner) => Object([("vec", IdlOf(inner))])
    case OptionOf(inner) => Object([("option", IdlOf(inner))])
    case ArrayOf(inner, length) => Object([("array", Array([IdlOf(inner), Number(length)]))])
  }

  /** The expression produces a value of the type. */
  predicate Fills(f: Filler, t: RustType) {
    match t
    case Plain(name) =>
      if name == "String" then f == RandomString else if name == "Pubkey" then f == NewPubkey else f == Gen
    case Named(name) => f == Make(name)
    case VecOf(inner) => f.VecFill? && Fills(f.inner, inner)
    case OptionOf(inner) => f.OptionFill? && Fills(f.inner, inner)
    case ArrayOf(inner, _) => f.ArrayFill? && Fills(f.inner, inner)
  }

  /** What stands at the leaf of the generated type: u64 for what was truncated and for f64. */
  function GeneratedLeaf(ty: Value, recursive: bool): Value {
    if recursive || Leaf(ty) == Text("f64") then Text("u64") else Leaf(ty)
  }

  /**
   Every supported type reads back from the Rust type: the declared containers and array
   lengths around the declared leaf, except that f64 and truncated references become u64,
   with a comment; and the filler has the shape of the type.
   */
  lemma {:induction false} TypesReadBack(ty: Value, defs: map<string, Def>, chain: seq<string>)
    requires ResolveType(ty, defs, chain).Supported?
    ensures var ft := ResolveType(ty, defs, chain).ft;
      && IdlOf(ft.rust) == Around(ty, GeneratedLeaf(ty, ft.recursive))
      && Fills(ft.filler, ft.rust)
      && (ft.comment.Some? <==> ft.recursive || Leaf(ty) == Text("f64"))
      && (ft.recursive ==> Leaf(ty).Object?)
  {
    if ty.Object? && |ty.entries| == 1 {
      var (key, inner) := ty.entries[0];
      if key == "vec" || key == "option" {
        TypesReadBack(inner, defs, chain);
      } else if key == "array" {
        TypesReadBack(inner.items[0], defs, chain);
      } else {
        assert ty == Object([("defined", Text(inner.text))]);
      }
    }
  }

  /** The types that are supported: the listed primitives and the references that resolve, in any containers. */
  lemma {:induction false} SupportedIff(ty: Value, defs: map<string, Def>, chain: seq<string>)
    ensures ResolveType(ty, defs, chain).Supported? <==>
      match Leaf(ty)
      case Text(p) =>
        || p == "u8" || p == "u16" || p == "u32" || p == "u64" || p == "u128"
        || p == "i8" || p == "i16" || p == "i32" || p == "i64" || p == "i128"
        || p == "f64" || p == "bool" || p == "string" || p == "publicKey"
      case Object(entries) =>
        && |entries| == 1 && entries[0].0 == "defined" && entries[0].1.Text?
        && ResolveDefined(entries[0].1.text, Leaf(ty), defs, chain).Supported?
      case _ => false
  {
    if ty.Object? && |ty.entries| == 1 {
      var (key, inner) := ty.entries[0];
      if key == "vec" || key == "option" {
        SupportedIff(inner, defs, chain);
      } else if key == "array" && inner.Array? && |inner.items| >= 2 && inner.items[1].Number? {
        SupportedIff(inner.items[0], defs, chain);
      }
    }
  }

  /** Some field of the struct defined as n is unsupported below the chain. */
  ghost predicate SomeFieldUnsupported(n: string, defs: map<string, Def>, chain: seq<string>) {
    n in defs && defs[n].StructDef?
    && exists f :: f in defs[n].fields && ResolveType(f.ty, defs, chain + [n]).Unsupported?
  }

  ghost predicate AllFieldsClean(n: string, defs: map<string, Def>, chain: seq<string>) {
    n in defs && (defs[n].StructDef? ==> forall f :: f in defs[n].fields ==> Clean(ResolveType(f.ty, defs, chain + [n])))
  }

  /** A reference is cut on the chain and below three names; else it is what its definition makes it. */
  lemma ReferenceResolvesTo(n: string, ty: Value, defs: map<string, Def>, chain: seq<string>)
    ensures var r := ResolveDefined(n, ty, defs, chain);
      if n in chain || |chain| >= 3 then r.Supported? && r.ft.recursive
      else
        && (r.Unsupported? <==> n !in defs || SomeFieldUnsupported(n, defs, chain))
        && (r.Supported? && !r.ft.recursive <==> AllFieldsClean(n, defs, chain))
        && (r.Supported? && !r.ft.recursive ==> r.ft.rust == Named(n) && r.ft.filler == Make(n))
  {
    if n !in chain && |chain| < 3 && n in defs && defs[n].StructDef? {
      UnsupportedDominates(defs[n].fields, defs, chain + [n]);
      ExpandedCleanly(defs[n].fields, defs, chain + [n]);
    }
  }

  /** The k-th field is the first unsupported one, and o is what is unsupported in it. */
  predicate FirstBlocks(fields: seq<IdlField>, k: nat, o: Value, defs: map<string, Def>, chain: seq<string>) {
    && k < |fields| && ResolveType(fields[k].ty, defs, chain) == Unsupported(o)
    && forall j :: 0 <= j < k ==> ResolveType(fields[j].ty, defs, chain).Supported?
  }

  lemma {:induction false} BlockedByTheFirst(fields: seq<IdlField>, defs: map<string, Def>, chain: seq<string>) returns (k: nat)
    requires ExpandFields(fields, defs, chain).Blocked?
    ensures FirstBlocks(fields, k, ExpandFields(fields, defs, chain).offending, defs, chain)
  {
    if ResolveType(fields[0].ty, defs, chain).Unsupported? {
      k := 0;
    } else {
      var rest := BlockedByTheFirst(fields[1..], defs, chain);
      k := rest + 1;
    }
  }

  /** What is reported as unsupported: the leaf, or below a reference what its first unsupported field reports. */
  lemma {:induction false} OffendingIs(ty: Value, defs: map<string, Def>, chain: seq<string>)
    requires ResolveType(ty, defs, chain).Unsupported?
    ensures var o := ResolveType(ty, defs, chain).offending;
      || (o == Leaf(ty) && forall n :: n in defs && defs[n].StructDef? ==> o != Object([("defined", Text(n))]))
      || exists n, k :: Leaf(ty) == Object([("defined", Text(n))]) && n in defs && defs[n].StructDef?
                        && FirstBlocks(defs[n].fields, k, o, defs, chain + [n])
  {
    if ty.Object? && |ty.entries| == 1 {
      var (key, inner) := ty.entries[0];
      if key == "vec" || key == "option" {
        OffendingIs(inner, defs, chain);
      } else if key == "array" && inner.Array? && |inner.items| >= 2 && inner.items[1].Number? {
        OffendingIs(inner.items[0], defs, chain);
      } else if key == "defined" && inner.Text? && inner.text in defs && defs[inner.text].StructDef? {
        var k := BlockedByTheFirst(defs[inner.text].fields, defs, chain + [inner.text]);
        assert ty == Object([("defined", Text(inner.text))]);
      }
    }
  }

  // ---- the reference graph ---------------------------------------------------------------------

  /** The struct emitted for `a` mentions `b`. */
  ghost predicate Refers(defs: map<string, Def>, a: string, b: string) {
    && a in defs && defs[a].StructDef?
    && exists f :: f in defs[a].fields
         && ResolveType(f.ty, defs, [a]).Supported?
         && b in Names(ResolveType(f.ty, defs, [a]).ft.rust)
  }

  lemma MentioningField(defs: map<string, Def>, a: string, b: string) returns (f: IdlField)
    requires Refers(defs, a, b)
    ensures f in defs[a].fields && ResolveType(f.ty, defs, [a]).Supported?
    ensures b in Names(ResolveType(f.ty, defs, [a]).ft.rust)
  {
    f :| f in defs[a].fields && ResolveType(f.ty, defs, [a]).Supported?
      && b in Names(ResolveType(f.ty, defs, [a]).ft.rust);
  }

  /** What a mentions expands cleanly inside a, and so does what that mentions in turn. */
  lemma ReferenceSurvives(defs: map<string, Def>, a: string, b: string, c: string)
    requires Refers(defs, a, b) && Refers(defs, b, c)
    ensures c in defs && (defs[c].StructDef? ==> forall f :: f in defs[c].fields ==> Clean(ResolveType(f.ty, defs, [a, b, c])))
  {
    var fa := MentioningField(defs, a, b);
    var fb := MentioningField(defs, b, c);
    SurvivingName(fa.ty, defs, [a]);
    assert [a] + [b] == [a, b];
    ChainWeakening(fb.ty, defs, [a, b], [b]);
    SurvivingName(fb.ty, defs, [a, b]);
    assert [a, b] + [c] == [a, b, c];
  }

  /** Two edges end in a definition that mentions nothing. */
  lemma NoPathOfLengthThree(defs: map<string, Def>, a: string, b: string, c: string, d: string)
    ensures !(Refers(defs, a, b) && Refers(defs, b, c) && Refers(defs, c, d))
  {
    if Refers(defs, a, b) && Refers(defs, b, c) && Refers(defs, c, d) {
      ReferenceSurvives(defs, a, b, c);
      var fc := MentioningField(defs, c, d);
      ChainWeakening(fc.ty, defs, [a, b, c], [c]);
      SurvivingName(fc.ty, defs, [a, b, c]);
    }
  }

  // ---- the emitted module -----------------------------------------------------------------------

  function AllDecls(idl: Idl): seq<Decl> {
    idl.accounts + idl.types
  }

  /** Names are pairwise distinct and already valid Rust type names. */
  ghost predicate WellNamed(idl: Idl) {
    var all := AllDecls(idl);
    && (forall i, j :: 0 <= i < j < |all| ==> all[i].name != all[j].name)
    && (forall i :: 0 <= i < |all| ==> SanitizeTypeName(all[i].name) == all[i].name)
  }

  ghost predicate Defines(items: seq<Item>, n: string) {
    exists i :: i in items && (i.StructItem? || i.EnumItem?) && i.name == n
  }

  /** Some emitted struct called `a` has a field that mentions `b`. */
  ghost predicate Mentions(items: seq<Item>, a: string, b: string) {
    exists i :: i in items && i.StructItem? && i.name == a && exists f :: f in i.fields && b in Names(f.ft.rust)
  }

  /** Every mentioned item, and every filler called, exists. */
  ghost predicate Closed(items: seq<Item>) {
    forall a, b :: Mentions(items, a, b) ==> Defines(items, b)
  }

  /** The items one declaration emits. */
  function ItemsOf(idl: Idl, defs: map<string, Def>, k: nat): seq<Item>
    requires k < |AllDecls(idl)|
  {
    if k < |idl.accounts| then AccountItems(AllDecls(idl)[k], defs) else TypeItems(AllDecls(idl)[k], defs)
  }

  /** The declaration is the first with its Rust name: the others emit nothing. */
  predicate FirstTaker(idl: Idl, k: nat)
    requires k < |AllDecls(idl)|
  {
    SanitizeTypeName(AllDecls(idl)[k].name) !in Taken(AllDecls(idl)[..k])
  }

  /** The items are those of the first takers. */
  lemma {:induction false} ItemsAreExact(idl: Idl, defs: map<string, Def>, n: nat)
    requires n <= |AllDecls(idl)|
    ensures forall i ::
      i in ItemsUpTo(idl, defs, n) <==> exists k: nat :: k < n && FirstTaker(idl, k) && i in ItemsOf(idl, defs, k)
  {
    hide SanitizeTypeName, AccountItems, TypeItems, ItemsUpTo, ItemsOf, Taken;
    NoItemsYet(idl, defs);
    if n > 0 {
      ItemsAreExact(idl, defs, n - 1);
      EmittedByOne(idl, defs, n - 1);
    }
  }

  lemma EmittedByOne(idl: Idl, defs: map<string, Def>, k: nat)
    requires k < |AllDecls(idl)|
    ensures ItemsUpTo(idl, defs, k + 1)
      == ItemsUpTo(idl, defs, k) + (if FirstTaker(idl, k) then ItemsOf(idl, defs, k) else [])
  {
    hide SanitizeTypeName, AccountItems, TypeItems, ItemsUpTo, Taken;
    ItemsStep(idl, defs, k);
  }

  /** With well-formed names every declaration is the first taker of its name. */
  lemma DistinctNamesAllEmit(idl: Idl, defs: map<string, Def>, n: nat)
    requires WellNamed(idl) && n <= |AllDecls(idl)|
    ensures forall i :: i in ItemsUpTo(idl, defs, n) <==> exists k: nat :: k < n && i in ItemsOf(idl, defs, k)
  {
    hide SanitizeTypeName, ItemsUpTo, ItemsOf;
    ItemsAreExact(idl, defs, n);
    var all := AllDecls(idl);
    forall k: nat | k < n
      ensures FirstTaker(idl, k)
    {
      forall d | d in all[..k]
        ensures SanitizeTypeName(d.name) != SanitizeTypeName(all[k].name)
      {
        var j :| 0 <= j < k && all[j] == d;
      }
    }
  }

  /** A declaration that defines its name; the other kinds are passed over. */
  predicate IsDefining(d: Decl) {
    d.kind == "struct" || d.kind == "enum"
  }

  lemma {:induction false} DefsAreDeclared(decls: seq<Decl>)
    ensures forall n :: n in DefsOf(decls) ==> exists d :: d in decls && d.name == n && Denotes(d, DefsOf(decls)[n])
    ensures forall d :: d in decls && IsDefining(d) ==> d.name in DefsOf(decls)
  {
    if decls != [] {
      var n := |decls| - 1;
      DefsAreDeclared(decls[..n]);
      assert decls == decls[..n] + [decls[n]];
    }
  }

  predicate Denotes(d: Decl, def: Def) {
    (d.kind == "struct" && def == StructDef(d.fields)) || (d.kind == "enum" && def == EnumDef)
  }

  /** The first struct or enum of a name is what the name is defined as, whatever else it is declared as. */
  lemma {:induction false} FirstDefining(decls: seq<Decl>, k: nat)
    requires k < |decls| && IsDefining(decls[k])
    requires forall j :: 0 <= j < k && decls[j].name == decls[k].name ==> !IsDefining(decls[j])
    ensures decls[k].name in DefsOf(decls)
    ensures Denotes(decls[k], DefsOf(decls)[decls[k].name])
  {
    var n := |decls| - 1;
    if k < n {
      FirstDefining(decls[..n], k);
    } else {
      NotYetDefined(decls[..n], decls[n].name);
    }
  }

  lemma {:induction false} NotYetDefined(decls: seq<Decl>, name: string)
    requires forall d :: d in decls && d.name == name ==> !IsDefining(d)
    ensures name !in DefsOf(decls)
  {
    if decls != [] {
      NotYetDefined(decls[..|decls| - 1], name);
    }
  }

  // ---- what is defined and what is mentioned, for every IDL ----------------------------------------

  ghost predicate AllSupported(d: Decl, defs: map<string, Def>) {
    forall f :: f in d.fields ==> ResolveType(f.ty, defs, [d.name]).Supported?
  }

  /** The declaration becomes a Rust struct or enum. */
  ghost predicate Renders(idl: Idl, k: nat)
    requires k < |AllDecls(idl)|
  {
    var d := AllDecls(idl)[k];
    && FirstTaker(idl, k)
    && ((d.kind == "struct" && AllSupported(d, DefsOf(AllDecls(idl)))) || (d.kind == "enum" && k >= |idl.accounts|))
  }

  /** Some declaration becomes the Rust item x. */
  ghost predicate RenderedAs(idl: Idl, x: string) {
    exists k: nat :: k < |AllDecls(idl)| && Renders(idl, k) && SanitizeTypeName(AllDecls(idl)[k].name) == x
  }

  /** The declaration becomes a struct, and the reference to b survives in one of its fields. */
  ghost predicate Survives(idl: Idl, k: nat, b: string)
    requires k < |AllDecls(idl)|
  {
    var d := AllDecls(idl)[k];
    && Renders(idl, k) && d.kind == "struct"
    && exists f :: f in d.fields && b in Names(Resolution(f, DefsOf(AllDecls(idl)), d.name))
  }

  /** The Rust type of a field of the struct generated from the declaration called `name`. */
  ghost function Resolution(f: IdlField, defs: map<string, Def>, name: string): RustType {
    match ResolveType(f.ty, defs, [name])
    case Supported(ft) => ft.rust
    case Unsupported(_) => Plain("")
  }

  /** The one item of a first taker, if it is a struct or an enum. */
  lemma RenderedItem(idl: Idl, k: nat)
    requires k < |AllDecls(idl)| && FirstTaker(idl, k)
    ensures var items := ItemsOf(idl, DefsOf(AllDecls(idl)), k);
      && |items| <= 1
      && (Renders(idl, k) <==> items != [] && (items[0].StructItem? || items[0].EnumItem?))
      && (items != [] ==> items[0].name == SanitizeTypeName(AllDecls(idl)[k].name))
      && (items != [] && items[0].StructItem? ==> AllDecls(idl)[k].kind == "struct")
  {
    hide SanitizeTypeName, EmitFields, DefsOf, FirstTaker;
    var d, defs := AllDecls(idl)[k], DefsOf(AllDecls(idl));
    UnsupportedDominates(d.fields, defs, [d.name]);
  }

  lemma StructFields(idl: Idl, k: nat)
    requires k < |AllDecls(idl)| && Renders(idl, k) && AllDecls(idl)[k].kind == "struct"
    ensures var d, defs := AllDecls(idl)[k], DefsOf(AllDecls(idl));
      && EmitFields(d.fields, defs, [d.name]).Some?
      && ItemsOf(idl, defs, k) == [StructItem(SanitizeTypeName(d.name), EmitFields(d.fields, defs, [d.name]).value)]
  {
    hide SanitizeTypeName, EmitFields, DefsOf, FirstTaker, ResolveType;
    var d, defs := AllDecls(idl)[k], DefsOf(AllDecls(idl));
    UnsupportedDominates(d.fields, defs, [d.name]);
  }

  /** The module defines exactly the Rust names of the declarations that render. */
  lemma DefinesIff(idl: Idl, x: string)
    ensures Defines(ModuleItems(idl), x) <==> RenderedAs(idl, x)
  {
    hide SanitizeTypeName, EmitFields, DefsOf, ItemsUpTo, ItemsOf, FirstTaker;
    var all, defs := AllDecls(idl), DefsOf(AllDecls(idl));
    ItemsAreExact(idl, defs, |all|);
    if i :| i in ModuleItems(idl) && (i.StructItem? || i.EnumItem?) && i.name == x {
      var k: nat :| k < |all| && FirstTaker(idl, k) && i in ItemsOf(idl, defs, k);
      RenderedItem(idl, k);
      assert Renders(idl, k);
    }
    if k: nat :| k < |all| && Renders(idl, k) && SanitizeTypeName(all[k].name) == x {
      RenderedItem(idl, k);
      assert ItemsOf(idl, defs, k)[0] in ModuleItems(idl);
    }
  }

  lemma {:induction false} EmittedNames(fields: seq<IdlField>, defs: map<string, Def>, name: string, b: string)
    requires EmitFields(fields, defs, [name]).Some?
    ensures (exists e :: e in EmitFields(fields, defs, [name]).value && b in Names(e.ft.rust))
      <==> exists f :: f in fields && b in Names(Resolution(f, defs, name))
  {
    hide ResolveType, Names, SanitizeFieldName;
    if fields != [] {
      var rest := EmitFields(fields[1..], defs, [name]).value;
      EmittedNames(fields[1..], defs, name, b);
      var first := EmittedField(SanitizeFieldName(fields[0].name), ResolveType(fields[0].ty, defs, [name]).ft);
      assert EmitFields(fields, defs, [name]).value == [first] + rest;
      assert fields == [fields[0]] + fields[1..];
      assert Resolution(fields[0], defs, name) == first.ft.rust;
    }
  }

  /** What the struct of a declaration mentions are the references that survive in its fields. */
  lemma FieldsMentionIff(idl: Idl, k: nat, b: string)
    requires k < |AllDecls(idl)| && Renders(idl, k) && AllDecls(idl)[k].kind == "struct"
    ensures var d := AllDecls(idl)[k];
      && EmitFields(d.fields, DefsOf(AllDecls(idl)), [d.name]).Some?
      && (Survives(idl, k, b)
          <==> exists e :: e in EmitFields(d.fields, DefsOf(AllDecls(idl)), [d.name]).value && b in Names(e.ft.rust))
  {
    hide SanitizeTypeName, EmitFields, DefsOf, FirstTaker, Resolution, Names, Renders, ItemsOf;
    StructFields(idl, k);
    EmittedNames(AllDecls(idl)[k].fields, DefsOf(AllDecls(idl)), AllDecls(idl)[k].name, b);
  }

  /** The emitted struct a mentions b exactly when a reference to b survives in the declaration that becomes a. */
  lemma MentionsIff(idl: Idl, a: string, b: string)
    ensures Mentions(ModuleItems(idl), a, b)
      <==> exists k: nat :: k < |AllDecls(idl)| && SanitizeTypeName(AllDecls(idl)[k].name) == a && Survives(idl, k, b)
  {
    hide SanitizeTypeName, EmitFields, DefsOf, ItemsUpTo, ItemsOf, FirstTaker, Names, ResolveType, Renders;
    var all, defs := AllDecls(idl), DefsOf(AllDecls(idl));
    ItemsAreExact(idl, defs, |all|);
    if Mentions(ModuleItems(idl), a, b) {
      var i :| i in ModuleItems(idl) && i.StructItem? && i.name == a && exists f :: f in i.fields && b in Names(f.ft.rust);
      var k: nat :| k < |all| && FirstTaker(idl, k) && i in ItemsOf(idl, defs, k);
      RenderedItem(idl, k);
      StructFields(idl, k);
      FieldsMentionIff(idl, k, b);
      assert SanitizeTypeName(all[k].name) == a && Survives(idl, k, b);
    }
    if k: nat :| k < |all| && SanitizeTypeName(all[k].name) == a && Survives(idl, k, b) {
      StructFields(idl, k);
      FieldsMentionIff(idl, k, b);
      TakesFirst(idl, k);
      assert ItemsOf(idl, defs, k)[0] in ModuleItems(idl);
    }
  }

  lemma TakesFirst(idl: Idl, k: nat)
    requires k < |AllDecls(idl)| && Renders(idl, k)
    ensures FirstTaker(idl, k)
  {
  }

  /**
   For every IDL: the emitted module is closed if and only if each reference that survives in
   a declaration that renders is the Rust name of a declaration that renders.
   */
  lemma ModuleIsClosedIff(idl: Idl)
    ensures Closed(ModuleItems(idl))
      <==> forall k: nat, b :: k < |AllDecls(idl)| && Survives(idl, k, b) ==> RenderedAs(idl, b)
  {
    hide SanitizeTypeName, Survives, RenderedAs, Mentions, Defines, ModuleItems, AllDecls;
    var items := ModuleItems(idl);
    forall k: nat, b | k < |AllDecls(idl)| && Survives(idl, k, b)
      ensures Mentions(items, SanitizeTypeName(AllDecls(idl)[k].name), b)
    {
      MentionsIff(idl, SanitizeTypeName(AllDecls(idl)[k].name), b);
    }
    forall a, b | Mentions(items, a, b)
      ensures exists k: nat :: k < |AllDecls(idl)| && Survives(idl, k, b)
    {
      MentionsIff(idl, a, b);
    }
    forall b
      ensures Defines(items, b) <==> RenderedAs(idl, b)
    {
      DefinesIff(idl, b);
    }
  }

  // ---- the emitted graph --------------------------------------------------------------------------

  /** A surviving reference is an edge of the definition graph, from the raw name of its declaration. */
  lemma SurvivingReference(idl: Idl, k: nat, b: string)
    requires k < |AllDecls(idl)| && Survives(idl, k, b)
    ensures Refers(DefsOf(AllDecls(idl)), AllDecls(idl)[k].name, b)
  {
    hide SanitizeTypeName, ResolveType, DefsOf, Names;
    var all := AllDecls(idl);
    forall j | 0 <= j < k
      ensures all[j].name != all[k].name
    {
      assert all[j] in all[..k];
    }
    FirstDefining(all, k);
  }

  /** The Rust item called x comes from a struct declaration of another raw name. */
  ghost predicate Captured(idl: Idl, x: string) {
    exists k: nat :: k < |AllDecls(idl)| && Renders(idl, k) && AllDecls(idl)[k].kind == "struct"
                     && SanitizeTypeName(AllDecls(idl)[k].name) == x && AllDecls(idl)[k].name != x
  }

  /** A mention by an item that is not captured is an edge of the definition graph. */
  lemma MentionsAreReferences(idl: Idl, a: string, b: string)
    requires Mentions(ModuleItems(idl), a, b)
    ensures exists raw :: SanitizeTypeName(raw) == a && Refers(DefsOf(AllDecls(idl)), raw, b)
    ensures !Captured(idl, a) ==> Refers(DefsOf(AllDecls(idl)), a, b)
  {
    hide SanitizeTypeName, DefsOf, ModuleItems, Mentions, Refers, Renders;
    MentionsIff(idl, a, b);
    var k: nat :| k < |AllDecls(idl)| && SanitizeTypeName(AllDecls(idl)[k].name) == a && Survives(idl, k, b);
    SurvivingReference(idl, k, b);
  }

  ghost predicate IsPath(items: seq<Item>, path: seq<string>) {
    forall i :: 0 <= i < |path| - 1 ==> Mentions(items, path[i], path[i + 1])
  }

  /** Three references in a row pass through a captured name. */
  lemma ThreeMentionsAreCaptured(idl: Idl, a: string, b: string, c: string, d: string)
    requires var items := ModuleItems(idl); Mentions(items, a, b) && Mentions(items, b, c) && Mentions(items, c, d)
    ensures Captured(idl, b) || Captured(idl, c)
  {
    hide SanitizeTypeName, DefsOf, ModuleItems, Mentions, Refers, Captured;
    var defs := DefsOf(AllDecls(idl));
    MentionsAreReferences(idl, a, b);
    MentionsAreReferences(idl, b, c);
    MentionsAreReferences(idl, c, d);
    var raw :| SanitizeTypeName(raw) == a && Refers(defs, raw, b);
    NoPathOfLengthThree(defs, raw, b, c, d);
  }

  /**
   For every IDL: a path of the emitted reference graph that has three edges or more, or that
   returns, passes through a captured name.
   */
  lemma LongPathsAreCaptured(idl: Idl, path: seq<string>)
    requires IsPath(ModuleItems(idl), path) && |path| >= 2
    requires path[0] == path[|path| - 1] || |path| > 3
    ensures exists i :: 1 <= i < |path| && Captured(idl, path[i])
  {
    hide ModuleItems, Mentions, Captured;
    var items := ModuleItems(idl);
    assert Mentions(items, path[0], path[1]);
    if |path| == 2 {
      ThreeMentionsAreCaptured(idl, path[0], path[0], path[0], path[0]);
    } else if |path| == 3 {
      assert Mentions(items, path[1], path[2]);
      ThreeMentionsAreCaptured(idl, path[0], path[1], path[2], path[1]);
    } else {
      assert Mentions(items, path[1], path[2]) && Mentions(items, path[2], path[3]);
      ThreeMentionsAreCaptured(idl, path[0], path[1], path[2], path[3]);
    }
  }

  /** Every name is already a valid Rust type name; names may repeat. */
  ghost predicate Sanitized(idl: Idl) {
    forall d :: d in AllDecls(idl) ==> SanitizeTypeName(d.name) == d.name
  }

  /** Hence no cycle for names the sanitiser leaves alone: every generated type is finite and every filler terminates. */
  lemma EmittedGraphIsAcyclic(idl: Idl, path: seq<string>)
    requires Sanitized(idl) && IsPath(ModuleItems(idl), path) && |path| >= 2
    ensures path[0] != path[|path| - 1] && |path| <= 3
  {
    hide ModuleItems, Mentions, Renders, SanitizeTypeName;
    if path[0] == path[|path| - 1] || |path| > 3 {
      LongPathsAreCaptured(idl, path);
    }
  }

  /** An item mentions itself exactly when its declaration refers to the Rust name it takes from another raw name. */
  lemma MentionsItselfIff(idl: Idl, x: string)
    ensures Mentions(ModuleItems(idl), x, x)
      <==> exists k: nat :: k < |AllDecls(idl)| && SanitizeTypeName(AllDecls(idl)[k].name) == x
                            && AllDecls(idl)[k].name != x && Survives(idl, k, x)
  {
    hide SanitizeTypeName, ModuleItems, Mentions, Survives, DefsOf, Refers;
    MentionsIff(idl, x, x);
    if k: nat :| k < |AllDecls(idl)| && SanitizeTypeName(AllDecls(idl)[k].name) == x && Survives(idl, k, x) {
      SurvivingReference(idl, k, x);
      if AllDecls(idl)[k].name == x {
        NoPathOfLengthThree(DefsOf(AllDecls(idl)), x, x, x, x);
      }
    }
  }

  // ---- when the emitted graph returns, exactly -------------------------------------------------------------

  /** A reference to y survives in the declaration that becomes x. */
  ghost predicate SurvivesIn(idl: Idl, x: string, y: string) {
    exists k: nat :: k < |AllDecls(idl)| && SanitizeTypeName(AllDecls(idl)[k].name) == x && Survives(idl, k, y)
  }

  /** Between captured names: a surviving reference, or two through a name that is not captured. */
  ghost predicate Linked(idl: Idl, x: string, y: string) {
    && Captured(idl, x) && Captured(idl, y)
    && (SurvivesIn(idl, x, y) || exists z :: !Captured(idl, z) && SurvivesIn(idl, x, z) && SurvivesIn(idl, z, y))
  }

  ghost predicate IsChain(idl: Idl, names: seq<string>) {
    forall i :: 0 <= i < |names| - 1 ==> Linked(idl, names[i], names[i + 1])
  }

  ghost predicate Returns(path: seq<string>) {
    |path| >= 2 && path[0] == path[|path| - 1]
  }

  lemma MentionsAreSurvivals(idl: Idl)
    ensures forall x, y :: Mentions(ModuleItems(idl), x, y) <==> SurvivesIn(idl, x, y)
  {
    hide Mentions, ModuleItems, Survives, SanitizeTypeName;
    forall x, y
      ensures Mentions(ModuleItems(idl), x, y) <==> SurvivesIn(idl, x, y)
    {
      MentionsIff(idl, x, y);
    }
  }

  /** A path between captured names is a chain of links: no two names in a row are uncaptured. */
  lemma {:induction false} CutAtCaptured(idl: Idl, path: seq<string>) returns (names: seq<string>)
    requires IsPath(ModuleItems(idl), path) && |path| >= 2
    requires Captured(idl, path[0]) && Captured(idl, path[|path| - 1])
    ensures IsChain(idl, names) && |names| >= 2 && names[0] == path[0] && names[|names| - 1] == path[|path| - 1]
    decreases |path|
  {
    hide Mentions, ModuleItems, Captured, SurvivesIn;
    var items := ModuleItems(idl);
    MentionsAreSurvivals(idl);
    assert Mentions(items, path[0], path[1]);
    var step := if Captured(idl, path[1]) then 1 else 2;
    if step == 2 {
      assert |path| > 2 && Mentions(items, path[1], path[2]);
      if !Captured(idl, path[2]) {
        assert |path| > 3 && Mentions(items, path[2], path[3]);
        ThreeMentionsAreCaptured(idl, path[0], path[1], path[2], path[3]);
        assert false;
      }
    }
    assert Linked(idl, path[0], path[step]);
    if |path| == step + 1 {
      names := [path[0], path[step]];
    } else {
      var rest := CutAtCaptured(idl, path[step..]);
      names := [path[0]] + rest;
    }
  }

  /** A chain of links is the skeleton of a path. */
  lemma {:induction false} FillTheLinks(idl: Idl, names: seq<string>) returns (path: seq<string>)
    requires IsChain(idl, names) && |names| >= 2
    ensures IsPath(ModuleItems(idl), path) && |path| >= 2
    ensures path[0] == names[0] && path[|path| - 1] == names[|names| - 1]
    decreases |names|
  {
    hide Mentions, ModuleItems, Captured, SurvivesIn;
    MentionsAreSurvivals(idl);
    assert Linked(idl, names[0], names[1]);
    var first := [names[0]];
    if !SurvivesIn(idl, names[0], names[1]) {
      var z :| !Captured(idl, z) && SurvivesIn(idl, names[0], z) && SurvivesIn(idl, z, names[1]);
      first := [names[0], z];
    }
    if |names| == 2 {
      path := first + [names[1]];
    } else {
      var rest := FillTheLinks(idl, names[1..]);
      path := first + rest;
    }
  }

  /** A closed path may start at any of its names. */
  lemma Rotated(items: seq<Item>, path: seq<string>, i: nat) returns (turned: seq<string>)
    requires IsPath(items, path) && Returns(path) && 1 <= i < |path|
    ensures IsPath(items, turned) && Returns(turned) && turned[0] == path[i]
  {
    hide Mentions;
    turned := path[i..] + path[1..i + 1];
    forall j | 0 <= j < |turned| - 1
      ensures Mentions(items, turned[j], turned[j + 1])
    {
      var n := |path| - i;
      if j < n - 1 {
        assert turned[j] == path[i + j] && turned[j + 1] == path[i + j + 1];
      } else if j == n - 1 {
        assert turned[j] == path[|path| - 1] && turned[j + 1] == path[1];
        assert Mentions(items, path[0], path[1]);
      } else {
        assert turned[j] == path[j - n + 1] && turned[j + 1] == path[j - n + 2];
      }
    }
  }

  /**
   For every IDL: the emitted reference graph has a cycle, that is an infinite type and a filler
   that does not terminate, if and only if a chain of links between captured names returns.
   */
  lemma GraphReturnsIff(idl: Idl)
    ensures (exists path :: IsPath(ModuleItems(idl), path) && Returns(path))
      <==> exists names :: IsChain(idl, names) && Returns(names)
  {
    hide ModuleItems, Captured, IsChain, IsPath;
    if path :| IsPath(ModuleItems(idl), path) && Returns(path) {
      LongPathsAreCaptured(idl, path);
      var i :| 1 <= i < |path| && Captured(idl, path[i]);
      var turned := Rotated(ModuleItems(idl), path, i);
      var names := CutAtCaptured(idl, turned);
      assert IsChain(idl, names) && Returns(names);
    }
    if names :| IsChain(idl, names) && Returns(names) {
      var path := FillTheLinks(idl, names);
      assert IsPath(ModuleItems(idl), path) && Returns(path);
    }
  }

  /** An account whose kind is "enum": known to the resolver, but emitted as a placeholder only. */
  ghost predicate IsEnumAccount(idl: Idl, n: string) {
    exists d :: d in idl.accounts && d.name == n && d.kind == "enum"
  }

  /** What is referred to renders: its fields are all supported when it is emitted itself. */
  lemma ReferredRenders(defs: map<string, Def>, a: string, b: string)
    requires Refers(defs, a, b)
    ensures b in defs && (defs[b].StructDef? ==> EmitFields(defs[b].fields, defs, [b]).Some?)
  {
    hide EmitFields, ResolveType;
    var fa := MentioningField(defs, a, b);
    SurvivingName(fa.ty, defs, [a]);
    assert [a] + [b] == [a, b];
    if defs[b].StructDef? {
      forall f | f in defs[b].fields
        ensures ResolveType(f.ty, defs, [b]).Supported?
      {
        ChainWeakening(f.ty, defs, [a, b], [b]);
      }
      UnsupportedDominates(defs[b].fields, defs, [b]);
    }
  }

  /** A definition that is referred to is emitted, unless it is an enum account. */
  lemma ReferredIsDefined(idl: Idl, a: string, b: string)
    requires WellNamed(idl) && Refers(DefsOf(AllDecls(idl)), a, b)
    ensures Defines(ModuleItems(idl), b) <==> !IsEnumAccount(idl, b)
  {
    hide SanitizeTypeName, EmitFields, ResolveType, DefsOf, ItemsUpTo, Refers;
    var all := AllDecls(idl);
    var defs := DefsOf(all);
    ReferredRenders(defs, a, b);
    DefsAreDeclared(all);
    var d :| d in all && d.name == b && Denotes(d, defs[b]);
    var k: nat :| k < |all| && all[k] == d;
    DistinctNamesAllEmit(idl, defs, |all|);
    var mine := ItemsOf(idl, defs, k);
    assert |mine| == 1 && mine[0].name == b && mine[0] in ModuleItems(idl);
    assert (mine[0].StructItem? || mine[0].EnumItem?) <==> !(k < |idl.accounts| && d.kind == "enum");
    OnlyOneItemIsNamed(idl, b, k);
    assert IsEnumAccount(idl, b) <==> k < |idl.accounts| && d.kind == "enum" by {
      if IsEnumAccount(idl, b) {
        var e :| e in idl.accounts && e.name == b && e.kind == "enum";
        var j :| 0 <= j < |idl.accounts| && idl.accounts[j] == e;
        assert all[j] == e;
        assert j == k;
      }
    }
  }

  lemma OnlyOneItemIsNamed(idl: Idl, n: string, k: nat)
    requires WellNamed(idl) && k < |AllDecls(idl)| && AllDecls(idl)[k].name == n
    ensures forall i :: i in ModuleItems(idl) && i.name == n ==> i in ItemsOf(idl, DefsOf(AllDecls(idl)), k)
  {
    hide SanitizeTypeName, EmitFields, DefsOf, ItemsUpTo;
    var defs := DefsOf(AllDecls(idl));
    DistinctNamesAllEmit(idl, defs, |AllDecls(idl)|);
    forall i | i in ModuleItems(idl) && i.name == n
      ensures i in ItemsOf(idl, defs, k)
    {
      var j: nat :| j < |AllDecls(idl)| && i in ItemsOf(idl, defs, j);
      assert i.name == SanitizeTypeName(AllDecls(idl)[j].name);
      assert j == k;
    }
  }

  lemma WellNamedIsUncaptured(idl: Idl, x: string)
    requires WellNamed(idl)
    ensures !Captured(idl, x)
  {
    hide SanitizeTypeName, Renders;
  }

  /**
   For a well-named IDL the emitted module is closed exactly when no emitted struct mentions
   an enum account; in particular when every account is a struct.
   */
  lemma ModuleIsClosed(idl: Idl)
    requires WellNamed(idl)
    ensures Closed(ModuleItems(idl))
      <==> forall a, b :: Mentions(ModuleItems(idl), a, b) ==> !IsEnumAccount(idl, b)
    ensures (forall d :: d in idl.accounts ==> d.kind == "struct") ==> Closed(ModuleItems(idl))
  {
    forall a, b | Mentions(ModuleItems(idl), a, b)
      ensures Defines(ModuleItems(idl), b) <==> !IsEnumAccount(idl, b)
    {
      WellNamedIsUncaptured(idl, a);
      MentionsAreReferences(idl, a, b);
      ReferredIsDefined(idl, a, b);
    }
  }

  lemma {:induction false} EmittedFillersMatch(fields: seq<IdlField>, defs: map<string, Def>, chain: seq<string>)
    requires EmitFields(fields, defs, chain).Some?
    ensures forall e :: e in EmitFields(fields, defs, chain).value ==> Calls(e.ft.filler) == Names(e.ft.rust)
  {
    if fields != [] {
      SurvivingName(fields[0].ty, defs, chain);
      EmittedFillersMatch(fields[1..], defs, chain);
    }
  }

  /** For every IDL: the filler of an emitted field calls the fillers of exactly the items its type mentions. */
  lemma {:induction false} FillersCallWhatTypesMention(idl: Idl, defs: map<string, Def>, n: nat)
    requires n <= |AllDecls(idl)|
    ensures forall i, f :: i in ItemsUpTo(idl, defs, n) && i.StructItem? && f in i.fields ==> Calls(f.ft.filler) == Names(f.ft.rust)
  {
    hide SanitizeTypeName, EmitFields, Taken;
    if n > 0 {
      var d := AllDecls(idl)[n - 1];
      FillersCallWhatTypesMention(idl, defs, n - 1);
      if EmitFields(d.fields, defs, [d.name]).Some? {
        EmittedFillersMatch(d.fields, defs, [d.name]);
      }
    }
  }

  // ---- why each condition is needed ------------------------------------------------------------

  function StructWith(name: string, target: string): Decl {
    Decl(name, "struct", [IdlField("f", Object([("defined", Text(target))]))], [])
  }

  lemma StructWithItem(name: string, target: string, defs: map<string, Def>)
    requires target != name && target in defs && (defs[target] == EnumDef || defs[target] == StructDef([]))
    ensures TypeItems(StructWith(name, target), defs)
      == [StructItem(SanitizeTypeName(name), [EmittedField("f", FieldType(Named(target), Make(target), None, false))])]
  {
    hide SanitizeTypeName;
    var d := StructWith(name, target);
    var ty := d.fields[0].ty;
    assert ResolveType(ty, defs, [name]) == ResolveDefined(target, ty, defs, [name]);
    assert ExpandFields([], defs, [name] + [target]) == Expanded(false);
    var ft := FieldType(Named(target), Make(target), None, false);
    assert ResolveDefined(target, ty, defs, [name]) == Supported(ft);
    FieldNameF();
    assert d.fields[1..] == [] && EmitFields([], defs, [name]) == Some([]);
    hide SanitizeFieldName;
    assert EmitFields(d.fields, defs, [name]) == Some([EmittedField("f", ft)] + []);
    assert [EmittedField("f", ft)] + [] == [EmittedField("f", ft)];
  }

  lemma FieldNameF()
    ensures SanitizeFieldName("f") == "f"
  {
    assert SnakeFrom("f", 1) == [] && SnakeFrom("f", 0) == "f";
    assert forall k :: k in RUST_KEYWORDS ==> |k| >= 2;
  }

  lemma OneLetterNames()
    ensures SanitizeTypeName("A") == "A" && SanitizeTypeName("B") == "B" && SanitizeTypeName("b") == "B"
  {
    assert forall k :: k in RUST_KEYWORDS ==> |k| >= 2;
    assert "A"[1..] == [] && "B"[1..] == [] && "b"[1..] == [];
    assert OnlyAlphanumeric([]) == [];
  }

  lemma DefsOfOneMore(decls: seq<Decl>, d: Decl)
    ensures DefsOf(decls + [d]) ==
      if d.name in DefsOf(decls) then DefsOf(decls)
      else if d.kind == "struct" then DefsOf(decls)[d.name := StructDef(d.fields)]
      else if d.kind == "enum" then DefsOf(decls)[d.name := EnumDef]
      else DefsOf(decls)
  {
    assert (decls + [d])[..|decls|] == decls;
  }

  /** References use the raw IDL name, items the sanitised one: a name the sanitiser changes is left dangling. */
  lemma RawNamesDangle()
    ensures var idl := Idl([], [Decl("b", "struct", [], []), StructWith("A", "b")]);
      Mentions(ModuleItems(idl), "A", "b") && !Defines(ModuleItems(idl), "b")
  {
    hide SanitizeTypeName, ResolveType;
    var b, a := Decl("b", "struct", [], []), StructWith("A", "b");
    var idl, defs := Idl([], [b, a]), DefsOf([b, a]);
    OneLetterNames();
    TwoTypes(idl, b, a);
    StructWithItem("A", "b", defs);
    assert TypeItems(b, defs) == [StructItem("B", [])];
    var item := TypeItems(a, defs)[0];
    assert item in ModuleItems(idl) && item.fields[0] in item.fields;
  }

  /** A name declared twice, first with a kind that emits nothing: resolved by the second, emitted by neither. */
  lemma ShadowedNamesDangle()
    ensures var idl := Idl([], [Decl("B", "alias", [], []), Decl("B", "struct", [], []), StructWith("A", "B")]);
      Mentions(ModuleItems(idl), "A", "B") && !Defines(ModuleItems(idl), "B")
  {
    hide SanitizeTypeName, ResolveType, DefsOf, ItemsUpTo;
    var b0, b1, a := Decl("B", "alias", [], []), Decl("B", "struct", [], []), StructWith("A", "B");
    var idl, defs := Idl([], [b0, b1, a]), DefsOf([b0, b1, a]);
    OneLetterNames();
    ShadowedDefinition(b0, b1, a);
    SecondIsSkipped(idl, b0, b1, a);
    StructWithItem("A", "B", defs);
    var item := TypeItems(a, defs)[0];
    assert item in ModuleItems(idl) && item.fields[0] in item.fields;
  }

  lemma SecondIsSkipped(idl: Idl, x: Decl, y: Decl, z: Decl)
    requires idl == Idl([], [x, y, z]) && x.name == y.name && SanitizeTypeName(z.name) != SanitizeTypeName(x.name)
    ensures ModuleItems(idl) == TypeItems(x, DefsOf([x, y, z])) + TypeItems(z, DefsOf([x, y, z]))
  {
    hide SanitizeTypeName, TypeItems, AccountItems, DefsOf, Taken, ItemsUpTo;
    var all := [x, y, z];
    assert idl.accounts + idl.types == all && all[..3] == all;
    EmptyPrefix(all);
    NoItemsYet(idl, DefsOf(all));
    ItemsStep(idl, DefsOf(all), 0);
    ItemsStep(idl, DefsOf(all), 1);
    ItemsStep(idl, DefsOf(all), 2);
  }

  lemma ShadowedDefinition(x: Decl, y: Decl, z: Decl)
    requires x.name == y.name && x.kind == "alias" && y.kind == "struct" && z.name != y.name
    ensures y.name in DefsOf([x, y, z]) && DefsOf([x, y, z])[y.name] == StructDef(y.fields)
  {
    hide DefsOf;
    NothingDefined();
    assert [] + [x] == [x] && [x] + [y] == [x, y] && [x, y] + [z] == [x, y, z];
    DefsOfOneMore([], x);
    DefsOfOneMore([x], y);
    DefsOfOneMore([x, y], z);
  }

  lemma NothingDefined()
    ensures DefsOf([]) == map[]
  {
  }

  lemma TwoTypes(idl: Idl, x: Decl, y: Decl)
    requires idl == Idl([], [x, y]) && SanitizeTypeName(x.name) != SanitizeTypeName(y.name)
    ensures ModuleItems(idl) == TypeItems(x, DefsOf([x, y])) + TypeItems(y, DefsOf([x, y]))
    ensures x.name != y.name && x.kind == "struct" ==> x.name in DefsOf([x, y]) && DefsOf([x, y])[x.name] == StructDef(x.fields)
  {
    hide SanitizeTypeName, TypeItems, AccountItems, DefsOf, Taken, ItemsUpTo;
    EmptyPrefix([x, y]);
    assert idl.accounts + idl.types == [x, y] && [x, y][..1] == [x] && [x, y][..2] == [x, y];
    assert [] + [x] == [x] && [x] + [y] == [x, y];
    NothingDefined();
    DefsOfOneMore([], x);
    DefsOfOneMore([x], y);
    NoItemsYet(idl, DefsOf([x, y]));
    ItemsStep(idl, DefsOf([x, y]), 0);
    ItemsStep(idl, DefsOf([x, y]), 1);
  }

  /** Types `b { f: defined B }` and `B {}`: the first becomes `struct B { f: B }`, an infinite type. */
  lemma CapturedNamesLoop()
    ensures var idl := Idl([], [StructWith("b", "B"), Decl("B", "struct", [], [])]);
      Mentions(ModuleItems(idl), "B", "B") && Captured(idl, "B")
  {
    hide SanitizeTypeName, Survives, ModuleItems, Mentions, Renders;
    var x, y := StructWith("b", "B"), Decl("B", "struct", [], []);
    var idl := Idl([], [x, y]);
    OneLetterNames();
    SelfMention(idl, x, y);
    MentionsItselfIff(idl, "B");
    var k: nat :| k < |AllDecls(idl)| && SanitizeTypeName(AllDecls(idl)[k].name) == "B"
                  && AllDecls(idl)[k].name != "B" && Survives(idl, k, "B");
    SurvivorIsStruct(idl, k, "B");
  }

  lemma SelfMention(idl: Idl, x: Decl, y: Decl)
    requires x == StructWith("b", "B") && y == Decl("B", "struct", [], []) && idl == Idl([], [x, y])
    ensures Mentions(ModuleItems(idl), "B", "B")
  {
    hide SanitizeTypeName, ResolveType, DefsOf, ItemsUpTo, Taken, TypeItems, AccountItems;
    var defs := DefsOf([x, y]);
    OneLetterNames();
    SecondDefinition(x, y);
    StructWithItem("b", "B", defs);
    EmptyPrefix([x, y]);
    assert AllDecls(idl) == [x, y] && idl.accounts + idl.types == [x, y];
    NoItemsYet(idl, defs);
    ItemsStep(idl, defs, 0);
    ItemsStep(idl, defs, 1);
    assert ItemsUpTo(idl, defs, 1) == [] + TypeItems(x, defs) && ItemsUpTo(idl, defs, 2) == ItemsUpTo(idl, defs, 1);
    var item := TypeItems(x, defs)[0];
    assert item in ModuleItems(idl) && item.fields[0] in item.fields;
  }

  lemma SurvivorIsStruct(idl: Idl, k: nat, b: string)
    requires k < |AllDecls(idl)| && Survives(idl, k, b)
    ensures Renders(idl, k) && AllDecls(idl)[k].kind == "struct"
  {
  }

  lemma SecondDefinition(x: Decl, y: Decl)
    requires x.name != y.name && x.kind == "struct" && y.kind == "struct"
    ensures y.name in DefsOf([x, y]) && DefsOf([x, y])[y.name] == StructDef(y.fields)
  {
    hide DefsOf;
    NothingDefined();
    assert [] + [x] == [x] && [x] + [y] == [x, y];
    DefsOfOneMore([], x);
    DefsOfOneMore([x], y);
  }

  // ---- the names of the generated functions ----------------------------------------------------------

  /** The item comes with a `make_` function. */
  predicate HasFiller(i: Item) {
    i.StructItem? || i.EnumItem?
  }

  /** Every item of an account comes with a `build_` function. */
  predicate HasBuilder(i: Item) {
    i.StructItem? || i.PlaceholderBuild?
  }

  /** No two of these items have the same name in snake case. */
  ghost predicate SnakesDiffer(items: seq<Item>, has: Item -> bool) {
    forall i, j :: 0 <= i < j < |items| && has(items[i]) && has(items[j]) ==>
      ToSnakeCase(items[i].name) != ToSnakeCase(items[j].name)
  }

  /** The declaration emits such an item. */
  predicate Emits(idl: Idl, k: nat, has: Item -> bool)
    requires k < |AllDecls(idl)|
  {
    FirstTaker(idl, k) && var mine := ItemsOf(idl, DefsOf(AllDecls(idl)), k); mine != [] && has(mine[0])
  }

  function SnakeName(idl: Idl, k: nat): string
    requires k < |AllDecls(idl)|
  {
    ToSnakeCase(SanitizeTypeName(AllDecls(idl)[k].name))
  }

  /** The Rust names of the declarations that emit such items stay apart in snake case. */
  ghost predicate ApartInSnakeCase(idl: Idl, n: nat, has: Item -> bool)
    requires n <= |AllDecls(idl)|
  {
    forall k: nat, l: nat :: k < l < n && Emits(idl, k, has) && Emits(idl, l, has) ==> SnakeName(idl, k) != SnakeName(idl, l)
  }

  lemma SnakesDifferWithOneMore(items: seq<Item>, more: seq<Item>, has: Item -> bool)
    requires |more| <= 1
    ensures SnakesDiffer(items + more, has)
      <==> (&& SnakesDiffer(items, has)
            && (more != [] && has(more[0]) ==>
                  forall i :: i in items && has(i) ==> ToSnakeCase(i.name) != ToSnakeCase(more[0].name)))
  {
    hide ToSnakeCase;
    if more != [] {
      var all := items + more;
      assert all[|items|] == more[0];
      forall i | i in items && has(i) && has(more[0]) && SnakesDiffer(all, has)
        ensures ToSnakeCase(i.name) != ToSnakeCase(more[0].name)
      {
        var k :| 0 <= k < |items| && items[k] == i;
        assert all[k] == i;
      }
      if SnakesDiffer(all, has) {
        forall i, j | 0 <= i < j < |items| && has(items[i]) && has(items[j])
          ensures ToSnakeCase(items[i].name) != ToSnakeCase(items[j].name)
        {
          assert all[i] == items[i] && all[j] == items[j];
        }
      }
    } else {
      assert items + more == items;
    }
  }

  lemma ApartByStep(idl: Idl, n: nat, has: Item -> bool)
    requires n < |AllDecls(idl)|
    ensures ApartInSnakeCase(idl, n + 1, has)
      <==> (&& ApartInSnakeCase(idl, n, has)
            && (Emits(idl, n, has) ==>
                  forall k: nat :: k < n && Emits(idl, k, has) ==> SnakeName(idl, k) != SnakeName(idl, n)))
  {
    hide SnakeName, Emits;
  }

  lemma OneEmittedItem(idl: Idl, k: nat, has: Item -> bool)
    requires k < |AllDecls(idl)|
    ensures var more := if FirstTaker(idl, k) then ItemsOf(idl, DefsOf(AllDecls(idl)), k) else [];
      && |more| <= 1
      && (Emits(idl, k, has) <==> more != [] && has(more[0]))
      && (more != [] ==> ToSnakeCase(more[0].name) == SnakeName(idl, k))
  {
    hide SanitizeTypeName, ToSnakeCase, DefsOf, ItemsOf, FirstTaker;
    if FirstTaker(idl, k) {
      RenderedItem(idl, k);
    }
  }

  /** Such items among the first ones are those of the declarations that emit them. */
  lemma EmittedBefore(idl: Idl, n: nat, has: Item -> bool, x: string)
    requires n <= |AllDecls(idl)|
    ensures (exists i :: i in ItemsUpTo(idl, DefsOf(AllDecls(idl)), n) && has(i) && ToSnakeCase(i.name) == x)
      <==> exists k: nat :: k < n && Emits(idl, k, has) && SnakeName(idl, k) == x
  {
    hide SanitizeTypeName, ToSnakeCase, DefsOf, ItemsUpTo, ItemsOf, FirstTaker, SnakeName;
    var defs := DefsOf(AllDecls(idl));
    ItemsAreExact(idl, defs, n);
    if i :| i in ItemsUpTo(idl, defs, n) && has(i) && ToSnakeCase(i.name) == x {
      var k: nat :| k < n && FirstTaker(idl, k) && i in ItemsOf(idl, defs, k);
      OneEmittedItem(idl, k, has);
      assert Emits(idl, k, has) && SnakeName(idl, k) == x;
    }
    if k: nat :| k < n && Emits(idl, k, has) && SnakeName(idl, k) == x {
      OneEmittedItem(idl, k, has);
      var i := ItemsOf(idl, defs, k)[0];
      assert i in ItemsOf(idl, defs, k);
      assert i in ItemsUpTo(idl, defs, n) && has(i) && ToSnakeCase(i.name) == x;
    }
  }

  /** For every IDL: generated functions of one kind have distinct names iff the Rust names behind them stay apart in snake case. */
  lemma {:induction false} SnakesDifferIff(idl: Idl, n: nat, has: Item -> bool)
    requires n <= |AllDecls(idl)|
    ensures SnakesDiffer(ItemsUpTo(idl, DefsOf(AllDecls(idl)), n), has) <==> ApartInSnakeCase(idl, n, has)
  {
    hide SanitizeTypeName, ToSnakeCase, DefsOf, ItemsUpTo, ItemsOf, FirstTaker, Emits, SnakesDiffer, SnakeName;
    var defs := DefsOf(AllDecls(idl));
    NoItemsYet(idl, defs);
    if n == 0 {
      NoSnakesClash(has);
    } else {
      var before, more := ItemsUpTo(idl, defs, n - 1), if FirstTaker(idl, n - 1) then ItemsOf(idl, defs, n - 1) else [];
      SnakesDifferIff(idl, n - 1, has);
      ApartByStep(idl, n - 1, has);
      hide ApartInSnakeCase, AllDecls;
      EmittedByOne(idl, defs, n - 1);
      OneEmittedItem(idl, n - 1, has);
      SnakesDifferWithOneMore(before, more, has);
      EmittedBefore(idl, n - 1, has, SnakeName(idl, n - 1));
    }
  }

  lemma NoSnakesClash(has: Item -> bool)
    ensures SnakesDiffer([], has)
  {
  }

  /** Fillers belong to the declarations that render. */
  lemma FillersDifferIff(idl: Idl)
    ensures SnakesDiffer(ModuleItems(idl), HasFiller)
      <==> forall k: nat, l: nat :: k < l < |AllDecls(idl)| && Renders(idl, k) && Renders(idl, l) ==>
             SnakeName(idl, k) != SnakeName(idl, l)
  {
    hide SanitizeTypeName, ToSnakeCase, DefsOf, ItemsUpTo, ItemsOf, FirstTaker, Renders, SnakesDiffer, SnakeName;
    SnakesDifferIff(idl, |AllDecls(idl)|, HasFiller);
    forall k: nat | k < |AllDecls(idl)|
      ensures Emits(idl, k, HasFiller) <==> Renders(idl, k)
    {
      if FirstTaker(idl, k) {
        RenderedItem(idl, k);
      } else if Renders(idl, k) {
        TakesFirst(idl, k);
      }
    }
  }

  /** Builders belong to the accounts that are the first with their Rust name, rendered or not. */
  lemma BuildersDifferIff(idl: Idl)
    ensures SnakesDiffer(ItemsUpTo(idl, DefsOf(AllDecls(idl)), |idl.accounts|), HasBuilder)
      <==> forall k: nat, l: nat :: k < l < |idl.accounts| && FirstTaker(idl, k) && FirstTaker(idl, l) ==>
             SnakeName(idl, k) != SnakeName(idl, l)
  {
    hide SanitizeTypeName, ToSnakeCase, DefsOf, ItemsUpTo, FirstTaker, SnakesDiffer, SnakeName, EmitFields;
    SnakesDifferIff(idl, |idl.accounts|, HasBuilder);
    forall k: nat | k < |idl.accounts|
      ensures Emits(idl, k, HasBuilder) <==> FirstTaker(idl, k)
    {
    }
  }

  /** Valid, distinct type names whose fillers clash: `AB` and `Ab` both get `make_ab`. */
  lemma FillersCanClash()
    ensures ToSnakeCase("AB") == "ab" && ToSnakeCase("Ab") == "ab"
  {
    assert SnakeFrom("AB", 2) == [] && SnakeFrom("Ab", 2) == [];
    assert SnakeFrom("AB", 1) == "b" && SnakeFrom("Ab", 1) == "b";
    assert SnakeFrom("AB", 0) == "ab" && SnakeFrom("Ab", 0) == "ab";
  }

  // ---- the names of fields ----------------------------------------------------------------------------

  /** The fields of an emitted struct carry the sanitised names and the types of the declared fields, in order. */
  lemma {:induction false} EmittedFieldsAreDeclared(fields: seq<IdlField>, defs: map<string, Def>, chain: seq<string>)
    requires EmitFields(fields, defs, chain).Some?
    ensures var out := EmitFields(fields, defs, chain).value;
      |out| == |fields| && forall i :: 0 <= i < |fields| ==>
        && out[i].name == SanitizeFieldName(fields[i].name)
        && ResolveType(fields[i].ty, defs, chain) == Supported(out[i].ft)
  {
    hide SanitizeFieldName, ResolveType;
    if fields != [] {
      EmittedFieldsAreDeclared(fields[1..], defs, chain);
    }
  }

  /** Distinct declared fields may still clash: `A` and `a` both become `a`. */
  lemma FieldsCanClash()
    ensures SanitizeFieldName("A") == "a" && SanitizeFieldName("a") == "a"
  {
    assert SnakeFrom("A", 1) == [] && SnakeFrom("a", 1) == [];
    assert SnakeFrom("A", 0) == "a" && SnakeFrom("a", 0) == "a";
    assert forall k :: k in RUST_KEYWORDS ==> |k| >= 2;
  }

  /** For every IDL: the fields of a rendered struct have distinct names iff the declared names stay apart when sanitised. */
  lemma FieldsDifferIff(idl: Idl, k: nat)
    requires k < |AllDecls(idl)| && Renders(idl, k) && AllDecls(idl)[k].kind == "struct"
    ensures var d := AllDecls(idl)[k];
      var item := ItemsOf(idl, DefsOf(AllDecls(idl)), k)[0];
      && item.StructItem? && |item.fields| == |d.fields|
      && ((forall i, j :: 0 <= i < j < |item.fields| ==> item.fields[i].name != item.fields[j].name)
          <==> forall i, j :: 0 <= i < j < |d.fields| ==>
                 SanitizeFieldName(d.fields[i].name) != SanitizeFieldName(d.fields[j].name))
  {
    hide SanitizeTypeName, SanitizeFieldName, EmitFields, DefsOf, Renders, ItemsOf;
    StructFields(idl, k);
    EmittedFieldsAreDeclared(AllDecls(idl)[k].fields, DefsOf(AllDecls(idl)), [AllDecls(idl)[k].name]);
  }

  // ---- the module, declaration by declaration ----------------------------------------------------------

  /**
   What a first taker becomes: a struct whose fields read back to the declared fields, an enum
   with the declared variants, a placeholder for any other account, a comment for any other struct.
   */
  lemma DeclarationBecomes(idl: Idl, k: nat)
    requires k < |AllDecls(idl)|
    ensures var d, mine := AllDecls(idl)[k], ItemsOf(idl, DefsOf(AllDecls(idl)), k);
      var name, supported := SanitizeTypeName(d.name), AllSupported(d, DefsOf(AllDecls(idl)));
      if d.kind == "struct" && supported then
        && |mine| == 1 && mine[0].StructItem? && mine[0].name == name && |mine[0].fields| == |d.fields|
        && forall i :: 0 <= i < |d.fields| ==> FieldReadsBack(mine[0].fields[i], d.fields[i])
      else if k < |idl.accounts| then mine == [PlaceholderBuild(name)]
      else if d.kind == "struct" then mine == [SkippedComment(name)]
      else if d.kind == "enum" then mine == [EnumItem(name, d.variants)]
      else mine == []
  {
    hide SanitizeTypeName, SanitizeFieldName, EmitFields, DefsOf, FirstTaker, ResolveType, IdlOf, Around, Fills;
    var d, defs := AllDecls(idl)[k], DefsOf(AllDecls(idl));
    UnsupportedDominates(d.fields, defs, [d.name]);
    if d.kind == "struct" && AllSupported(d, defs) {
      EmittedFieldsAreDeclared(d.fields, defs, [d.name]);
      forall i | 0 <= i < |d.fields|
        ensures FieldReadsBack(EmitFields(d.fields, defs, [d.name]).value[i], d.fields[i])
      {
        TypesReadBack(d.fields[i].ty, defs, [d.name]);
      }
    }
  }

  /** The emitted field has the sanitised name, a type that reads back to the declared one, and a filler of that type. */
  predicate FieldReadsBack(e: EmittedField, f: IdlField) {
    && e.name == SanitizeFieldName(f.name)
    && IdlOf(e.ft.rust) == Around(f.ty, GeneratedLeaf(f.ty, e.ft.recursive))
    && Fills(e.ft.filler, e.ft.rust)
    && (e.ft.recursive ==> Leaf(f.ty).Object?)
  }
}
