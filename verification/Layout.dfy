/**
 IDL-driven account layouts: which Rust type each IDL type becomes, and which items the
 generated `accounts` module contains. Generated text is kept as trees (RustType, Filler,
 Item); the names they mention are what can fail to compile.
 */
module Layout {
  import Decimal
  import opened RustNames
  import opened Wrappers

  // ---- IDL -------------------------------------------------------------------------------

  /** A JSON value; Number is one that `as_u64` accepts, Other is null, a boolean or any other number. */
  datatype Value =
    | Text(text: string)
    | Number(n: nat)
    | Array(items: seq<Value>)
    | Object(entries: seq<(string, Value)>)
    | Other

  datatype IdlField = IdlField(name: string, ty: Value)

  datatype Decl = Decl(name: string, kind: string, fields: seq<IdlField>, variants: seq<string>)

  datatype Idl = Idl(accounts: seq<Decl>, types: seq<Decl>)

  datatype Def = StructDef(fields: seq<IdlField>) | EnumDef

  // ---- resolution --------------------------------------------------------------------------

  datatype RustType =
    | Plain(name: string)
    | Named(name: string)
    | VecOf(inner: RustType)
    | OptionOf(inner: RustType)
    | ArrayOf(inner: RustType, length: nat)

  /** The expression that produces an arbitrary value; Make(n) calls the filler of the item n. */
  datatype Filler = Gen | RandomString | NewPubkey | Make(name: string)
    | VecFill(inner: Filler) | OptionFill(inner: Filler) | ArrayFill(inner: Filler)

  datatype FieldType = FieldType(rust: RustType, filler: Filler, comment: Option<string>, recursive: bool)

  datatype Resolved = Supported(ft: FieldType) | Unsupported(offending: Value)

  const INTEGERS := {"u8", "u16", "u32", "u64", "u128", "i8", "i16", "i32", "i64", "i128"}

  const TRUNCATED := Supported(FieldType(Plain("u64"), Gen, Some("recursive defined type truncated for fuzzing"), true))

  function Simple(rust: RustType, filler: Filler, comment: Option<string>): Resolved {
    Supported(FieldType(rust, filler, comment, false))
  }

  /** How many more definitions may be expanded. */
  function Room(chain: seq<string>): nat {
    if |chain| >= 3 then 0 else 3 - |chain|
  }

  function ResolveType(ty: Value, defs: map<string, Def>, chain: seq<string>): Resolved
    decreases 2 * Room(chain), ty, 1
  {
    match ty
    case Text(prim) =>
      if prim in INTEGERS then Simple(Plain(prim), Gen, None)
      else if prim == "f64" then Simple(Plain("u64"), Gen, Some("f64 approximated as u64 for fuzzing"))
      else if prim == "bool" then Simple(Plain("bool"), Gen, None)
      else if prim == "string" then Simple(Plain("String"), RandomString, None)
      else if prim == "publicKey" then Simple(Plain("Pubkey"), NewPubkey, None)
      else Unsupported(ty)
    case Object(entries) =>
      if |entries| != 1 then Unsupported(ty)
      else
        var (key, inner) := entries[0];
        if key == "vec" then WrapIn(ResolveType(inner, defs, chain), t => VecOf(t), f => VecFill(f))
        else if key == "option" then WrapIn(ResolveType(inner, defs, chain), t => OptionOf(t), f => OptionFill(f))
        else if key == "array" then
          if inner.Array? && |inner.items| >= 2 && inner.items[1].Number? then
            WrapIn(ResolveType(inner.items[0], defs, chain), t => ArrayOf(t, inner.items[1].n), f => ArrayFill(f))
          else Unsupported(ty)
        else if key == "defined" && inner.Text? then ResolveDefined(inner.text, ty, defs, chain)
        else Unsupported(ty)
    case _ => Unsupported(ty)
  }

  function ResolveDefined(name: string, ty: Value, defs: map<string, Def>, chain: seq<string>): Resolved
    decreases 2 * Room(chain), ty, 0
  {
    if name in chain || |chain| >= 3 then TRUNCATED
    else if name !in defs then Unsupported(ty)
    else
      match defs[name]
      case EnumDef => Simple(Named(name), Make(name), None)
      case StructDef(fields) =>
        match ExpandFields(fields, defs, chain + [name])
        case Blocked(offending) => Unsupported(offending)
        case Expanded(recursive) => if recursive then TRUNCATED else Simple(Named(name), Make(name), None)
  }

  datatype Expansion = Blocked(offending: Value) | Expanded(recursive: bool)

  /** The fields of a referenced struct: the first unsupported one, or whether any was truncated. */
  function ExpandFields(fields: seq<IdlField>, defs: map<string, Def>, chain: seq<string>): Expansion
    decreases 2 * Room(chain) + 1, |fields|
  {
    if fields == [] then Expanded(false)
    else
      match ResolveType(fields[0].ty, defs, chain)
      case Unsupported(offending) => Blocked(offending)
      case Supported(ft) =>
        match ExpandFields(fields[1..], defs, chain)
        case Blocked(offending) => Blocked(offending)
        case Expanded(recursive) => Expanded(ft.recursive || recursive)
  }

  /** The source's loop over the fields, stopping at the first unsupported one. */
  method ExpandFieldsLoop(fields: seq<IdlField>, defs: map<string, Def>, chain: seq<string>) returns (r: Expansion)
    ensures r == ExpandFields(fields, defs, chain)
  {
    var recursive := false;
    for i := 0 to |fields|
      invariant ExpandFields(fields, defs, chain) ==
        match ExpandFields(fields[i..], defs, chain)
        case Blocked(o) => Blocked(o)
        case Expanded(rest) => Expanded(recursive || rest)
    {
      match ResolveType(fields[i].ty, defs, chain)
      case Unsupported(offending) => return Blocked(offending);
      case Supported(ft) => recursive := recursive || ft.recursive;
    }
    r := Expanded(recursive);
  }

  function WrapIn(r: Resolved, rust: RustType -> RustType, filler: Filler -> Filler): Resolved {
    match r
    case Supported(ft) => Supported(FieldType(rust(ft.rust), filler(ft.filler), ft.comment, ft.recursive))
    case Unsupported(_) => r
  }

  /** Supported with nothing truncated inside. */
  predicate Clean(r: Resolved) {
    r.Supported? && !r.ft.recursive
  }

  /** The item names a generated type mentions. */
  function Names(t: RustType): set<string> {
    match t
    case Plain(_) => {}
    case Named(n) => {n}
    case VecOf(i) => Names(i)
    case OptionOf(i) => Names(i)
    case ArrayOf(i, _) => Names(i)
  }

  function Calls(f: Filler): set<string> {
    match f
    case Make(n) => {n}
    case VecFill(i) => Calls(i)
    case OptionFill(i) => Calls(i)
    case ArrayFill(i) => Calls(i)
    case _ => {}
  }

  // ---- the emitted module ---------------------------------------------------------------------

  datatype EmittedField = EmittedField(name: string, ft: FieldType)

  datatype Item =
    | StructItem(name: string, fields: seq<EmittedField>)
    | EnumItem(name: string, variants: seq<string>)
    | PlaceholderBuild(name: string)
    | SkippedComment(name: string)

  /** First declaration wins; kinds other than struct and enum define nothing. */
  function DefsOf(decls: seq<Decl>): map<string, Def> {
    if decls == [] then map[]
    else
      var defs, d := DefsOf(decls[..|decls| - 1]), decls[|decls| - 1];
      if d.name in defs then defs
      else if d.kind == "struct" then defs[d.name := StructDef(d.fields)]
      else if d.kind == "enum" then defs[d.name := EnumDef]
      else defs
  }

  function EmitFields(fields: seq<IdlField>, defs: map<string, Def>, chain: seq<string>): Option<seq<EmittedField>> {
    if fields == [] then Some([])
    else
      match ResolveType(fields[0].ty, defs, chain)
      case Unsupported(_) => None
      case Supported(ft) =>
        match EmitFields(fields[1..], defs, chain)
        case None => None
        case Some(rest) => Some([EmittedField(SanitizeFieldName(fields[0].name), ft)] + rest)
  }

  function AccountItems(d: Decl, defs: map<string, Def>): seq<Item> {
    var name := SanitizeTypeName(d.name);
    if d.kind != "struct" then [PlaceholderBuild(name)]
    else match EmitFields(d.fields, defs, [d.name]) case Some(fs) => [StructItem(name, fs)] case None => [PlaceholderBuild(name)]
  }

  function TypeItems(d: Decl, defs: map<string, Def>): seq<Item> {
    var name := SanitizeTypeName(d.name);
    if d.kind == "struct" then
      match EmitFields(d.fields, defs, [d.name]) case Some(fs) => [StructItem(name, fs)] case None => [SkippedComment(name)]
    else if d.kind == "enum" then [EnumItem(name, d.variants)]
    else []
  }

  /** The Rust names already taken once `decls` have been visited. */
  function Taken(decls: seq<Decl>): set<string> {
    set d | d in decls :: SanitizeTypeName(d.name)
  }

  /** Items of the first n of accounts + types; a declaration whose Rust name is taken emits nothing. */
  function ItemsUpTo(idl: Idl, defs: map<string, Def>, n: nat): seq<Item>
    requires n <= |idl.accounts| + |idl.types|
  {
    if n == 0 then []
    else
      var all := idl.accounts + idl.types;
      var d := all[n - 1];
      ItemsUpTo(idl, defs, n - 1)
      + (if SanitizeTypeName(d.name) in Taken(all[..n - 1]) then []
         else if n <= |idl.accounts| then AccountItems(d, defs)
         else TypeItems(d, defs))
  }

  lemma EmptyPrefix(decls: seq<Decl>)
    ensures Taken(decls[..0]) == {} && DefsOf(decls[..0]) == map[]
  {
  }

  lemma TakenGrows(decls: seq<Decl>, i: nat)
    requires i < |decls|
    ensures Taken(decls[..i + 1]) == Taken(decls[..i]) + {SanitizeTypeName(decls[i].name)}
  {
    hide SanitizeTypeName;
    assert decls[..i + 1] == decls[..i] + [decls[i]];
  }

  function ModuleItems(idl: Idl): seq<Item> {
    ItemsUpTo(idl, DefsOf(idl.accounts + idl.types), |idl.accounts| + |idl.types|)
  }

  method InsertDef(defs: map<string, Def>, d: Decl) returns (r: map<string, Def>)
    ensures forall before: seq<Decl> :: DefsOf(before) == defs ==> DefsOf(before + [d]) == r
  {
    r := defs;
    if d.name !in r {
      if d.kind == "struct" {
        r := r[d.name := StructDef(d.fields)];
      } else if d.kind == "enum" {
        r := r[d.name := EnumDef];
      }
    }
    forall before: seq<Decl> | DefsOf(before) == defs
      ensures DefsOf(before + [d]) == r
    {
      assert (before + [d])[..|before|] == before;
    }
  }

  lemma NoItemsYet(idl: Idl, defs: map<string, Def>)
    ensures ItemsUpTo(idl, defs, 0) == []
  {
  }

  lemma ItemsStep(idl: Idl, defs: map<string, Def>, k: nat)
    requires k < |idl.accounts| + |idl.types|
    ensures var d := if k < |idl.accounts| then idl.accounts[k] else idl.types[k - |idl.accounts|];
      var before := Taken((idl.accounts + idl.types)[..k]);
      && Taken((idl.accounts + idl.types)[..k + 1]) == before + {SanitizeTypeName(d.name)}
      && ItemsUpTo(idl, defs, k + 1) == ItemsUpTo(idl, defs, k)
           + (if SanitizeTypeName(d.name) in before then []
              else if k < |idl.accounts| then AccountItems(d, defs) else TypeItems(d, defs))
  {
    hide SanitizeTypeName, AccountItems, TypeItems, Taken;
    TakenGrows(idl.accounts + idl.types, k);
  }

  method BuildDefs(decls: seq<Decl>) returns (defs: map<string, Def>)
    ensures defs == DefsOf(decls)
  {
    hide DefsOf;
    EmptyPrefix(decls);
    defs := map[];
    for i := 0 to |decls|
      invariant defs == DefsOf(decls[..i])
    {
      assert decls[..i + 1] == decls[..i] + [decls[i]];
      defs := InsertDef(defs, decls[i]);
    }
    assert decls[..|decls|] == decls;
  }

  method RenderModuleBody(idl: Idl) returns (body: seq<Item>)
    ensures body == ModuleItems(idl)
  {
    hide SanitizeTypeName, AccountItems, TypeItems, DefsOf, Taken, ItemsUpTo;
    var all := idl.accounts + idl.types;
    var defs := BuildDefs(all);
    EmptyPrefix(all);
    body := [];
    var emitted: set<string> := {};
    NoItemsYet(idl, defs);
    for i := 0 to |idl.accounts|
      invariant body == ItemsUpTo(idl, defs, i) && emitted == Taken(all[..i])
    {
      ItemsStep(idl, defs, i);
      var name := SanitizeTypeName(idl.accounts[i].name);
      if name !in emitted {
        body := body + AccountItems(idl.accounts[i], defs);
      }
      emitted := emitted + {name};
    }
    for i := 0 to |idl.types|
      invariant body == ItemsUpTo(idl, defs, |idl.accounts| + i) && emitted == Taken(all[..|idl.accounts| + i])
    {
      ItemsStep(idl, defs, |idl.accounts| + i);
      var name := SanitizeTypeName(idl.types[i].name);
      if name !in emitted {
        body := body + TypeItems(idl.types[i], defs);
      }
      emitted := emitted + {name};
    }
  }

  // ---- names ------------------------------------------------------------------------------------

  predicate IsLower(c: char) { 'a' <= c <= 'z' }
  predicate IsUpper(c: char) { 'A' <= c <= 'Z' }
  predicate IsAlphanumeric(c: char) { IsLower(c) || IsUpper(c) || Decimal.IsDigit(c) }

  function OnlyAlphanumeric(s: string): string {
    if s == [] then []
    else (if IsAlphanumeric(s[0]) then [s[0]] else []) + OnlyAlphanumeric(s[1..])
  }

  function Capitalised(kept: string): (r: string)
    ensures r != []
  {
    if kept == [] then "Type"
    else if IsLower(kept[0]) then [(kept[0] as int - 32) as char] + kept[1..]
    else if Decimal.IsDigit(kept[0]) then "T" + kept
    else kept
  }

  /** IDL type names to PascalCase Rust identifiers; a keyword is marked. */
  function SanitizeTypeName(name: string): string {
    var ident := Capitalised(OnlyAlphanumeric(name));
    if ident in RUST_KEYWORDS then ident + "_" else ident
  }

  function SnakeFrom(name: string, i: nat): string
    requires i <= |name|
    decreases |name| - i
  {
    if i == |name| then []
    else
      var ch := name[i];
      var breaks := i > 0 && (IsLower(name[i - 1]) || Decimal.IsDigit(name[i - 1]));
      (if IsUpper(ch) then (if breaks then "_" else "") + [(ch as int + 32) as char]
       else if IsAlphanumeric(ch) then [ch]
       else "_")
      + SnakeFrom(name, i + 1)
  }

  /** IDL field names to snake_case Rust identifiers. */
  function SanitizeFieldName(name: string): string {
    var snake := ToSnakeCase(name);
    var ident := if Decimal.IsDigit(snake[0]) then "_" + snake else snake;
    if ident in RUST_KEYWORDS then ident + "_" else ident
  }

  function TrimStart(s: string): string {
    if s != [] && s[0] == '_' then TrimStart(s[1..]) else s
  }

  function TrimEnd(s: string): string {
    if s != [] && s[|s| - 1] == '_' then TrimEnd(s[..|s| - 1]) else s
  }

  /** The name of a generated function after `make_` or `build_`, and the base of a field name. */
  function ToSnakeCase(name: string): (r: string)
    ensures r != []
  {
    var trimmed := TrimEnd(TrimStart(SnakeFrom(name, 0)));
    if trimmed == [] then "field" else trimmed
  }
}
