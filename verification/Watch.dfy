/**
 Finding identity: locations normalised so that line drift does not make a finding new, and
 the baseline filter built on it.
 */
module Watch {
  import opened Wrappers
  import opened Decimal

  // ---- string helpers (replace, trim, rfind) -----------------------------------------------------

  /** `replace('\\', "/")`. */
  function Slashed(s: string): (r: string)
    ensures |r| == |s| && forall i :: 0 <= i < |s| ==> r[i] == if s[i] == '\\' then '/' else s[i]
  {
    seq(|s|, i requires 0 <= i < |s| => if s[i] == '\\' then '/' else s[i])
  }

  function TrimEndSlashes(s: string): string {
    if s != [] && s[|s| - 1] == '/' then TrimEndSlashes(s[..|s| - 1]) else s
  }

  function TrimStartSlashes(s: string): string {
    if s != [] && s[0] == '/' then TrimStartSlashes(s[1..]) else s
  }

  predicate OccursAt(pattern: string, s: string, i: nat) {
    i + |pattern| <= |s| && s[i..i + |pattern|] == pattern
  }

  /** `rfind`, among positions up to k. */
  function LastAt(pattern: string, s: string, k: nat): (r: Option<nat>)
    ensures r.Some? ==> r.value <= k && OccursAt(pattern, s, r.value) && forall j :: r.value < j <= k ==> !OccursAt(pattern, s, j)
    ensures r.None? ==> forall j :: 0 <= j <= k ==> !OccursAt(pattern, s, j)
  {
    if OccursAt(pattern, s, k) then Some(k) else if k == 0 then None else LastAt(pattern, s, k - 1)
  }

  function RFind(pattern: string, s: string): Option<nat> {
    LastAt(pattern, s, |s|)
  }

  ghost predicate Contains(s: string, pattern: string) {
    exists i: nat :: OccursAt(pattern, s, i)
  }

  lemma RFindIs(pattern: string, s: string, i: nat)
    requires OccursAt(pattern, s, i) && forall j: nat :: j > i ==> !OccursAt(pattern, s, j)
    ensures RFind(pattern, s) == Some(i)
  {
  }

  // ---- normalisation ------------------------------------------------------------------------------------

  /** Drop one trailing `:digits`. */
  function Peel(s: string): string {
    match RFind(":", s)
    case None => s
    case Some(pos) =>
      var digits := s[pos + 1..];
      if digits != [] && AllDigits(digits) then s[..pos] else s
  }

  /** `strip_trailing_line`: up to two trailing `:digits` segments. */
  method StripTrailingLine(s: string) returns (base: string)
    ensures base == Peel(Peel(s))
  {
    base := s;
    for i := 0 to 2
      invariant Peel(Peel(s)) == if i == 0 then Peel(Peel(base)) else if i == 1 then Peel(base) else base
    {
      var found := RFind(":", base);
      match found
      case None => break;
      case Some(pos) =>
        var digits := base[pos + 1..];
        if digits != [] && AllDigits(digits) {
          base := base[..pos];
        } else {
          break;
        }
    }
  }

  /** `strip_line_numbers`: keep a trailing ` (...)`. */
  function StripLineNumbers(location: string): string {
    match RFind(" (", location)
    case None => Peel(Peel(location))
    case Some(idx) => Peel(Peel(location[..idx])) + location[idx..]
  }

  function SourcePrefix(srcPath: string): string {
    TrimEndSlashes(Slashed(srcPath))
  }

  /** Path relative to the analysed source, when it starts with it. */
  function Relative(path: string, prefix: string): string {
    if prefix != [] && prefix <= path then TrimStartSlashes(path[|prefix|..]) else path
  }

  function NormalizeLocation(location: Option<string>, srcPath: string): string {
    match location
    case None => ""
    case Some(raw) => StripLineNumbers(Relative(Slashed(raw), SourcePrefix(srcPath)))
  }

  // ---- line drift ------------------------------------------------------------------------------------------

  datatype Position = Line(line: nat) | LineColumn(line: nat, column: nat)

  function Printed(p: Position): string {
    match p
    case Line(l) => ":" + Digits(l)
    case LineColumn(l, c) => ":" + Digits(l) + (":" + Digits(c))
  }

  /** `path:line (context)` or `path:line:column (context)`. */
  function Location(path: string, p: Position, context: string): string {
    path + Printed(p) + (" (" + context + ")")
  }

  /** One trailing `:digits` is peeled, */
  lemma PeelDigits(s: string, digits: string)
    requires digits != [] && AllDigits(digits)
    ensures Peel(s + (":" + digits)) == s
  {
    var t := s + (":" + digits);
    assert t[|s|..|s| + 1] == ":";
    forall j: nat | j > |s|
      ensures !OccursAt(":", t, j)
    {
      if j < |t| {
        assert t[j] == digits[j - |s| - 1];
        assert t[j..j + 1][0] == t[j];
      }
    }
    RFindIs(":", t, |s|);
    assert t[|s| + 1..] == digits && t[..|s|] == s;
  }

  /** and nothing else is. */
  lemma PeelsOnlyDigits(s: string)
    ensures Peel(s) == s || exists digits :: digits != [] && AllDigits(digits) && s == Peel(s) + (":" + digits)
  {
    if Peel(s) != s {
      var pos := RFind(":", s).value;
      assert s[pos..pos + 1] == ":";
      assert s == s[..pos] + (":" + s[pos + 1..]);
    }
  }

  lemma PeelNumeral(s: string, n: nat)
    ensures Peel(s + (":" + Digits(n))) == s
  {
    PeelDigits(s, Digits(n));
  }

  lemma {:induction false} TrimStartStops(s: string, t: string)
    requires t != [] && t[0] != '/'
    ensures TrimStartSlashes(s + t) == TrimStartSlashes(s) + t
  {
    if s == [] {
      assert s + t == t;
    } else if s[0] == '/' {
      assert (s + t)[1..] == s[1..] + t;
      TrimStartStops(s[1..], t);
    }
  }

  lemma SlashedJoins(s: string, t: string)
    ensures Slashed(s + t) == Slashed(s) + Slashed(t)
  {
  }

  lemma SlashedNumeral(p: Position)
    ensures Slashed(Printed(p)) == Printed(p)
  {
    var s := Printed(p);
    assert forall i :: 0 <= i < |s| ==> IsDigit(s[i]) || s[i] == ':';
  }

  /** Whether the path starts with the source prefix is decided by the path alone. */
  lemma RelativeSkipsTail(path: string, tail: string, prefix: string)
    requires |prefix| <= |path| && tail != [] && tail[0] != '/'
    ensures Relative(path + tail, prefix) == Relative(path, prefix) + tail
  {
    assert (path + tail)[..|prefix|] == path[..|prefix|];
    if prefix <= path {
      assert (path + tail)[|prefix|..] == path[|prefix|..] + tail;
      TrimStartStops(path[|prefix|..], tail);
    }
  }

  lemma SlashedOpening(context: string)
    ensures Slashed(" (" + context + ")") == " (" + Slashed(context) + ")"
    ensures Contains(Slashed(context), " (") <==> Contains(context, " (")
  {
    var s := Slashed(context);
    forall i: nat
      ensures OccursAt(" (", s, i) == OccursAt(" (", context, i)
    {
      if i + 2 <= |s| {
        assert s[i..i + 2] == [s[i], s[i + 1]] && context[i..i + 2] == [context[i], context[i + 1]];
      }
    }
  }

  /** With no ` (` in the context, the last one is where the context opens. */
  lemma OpeningIsLast(head: string, context: string)
    requires !Contains(context, " (")
    ensures RFind(" (", head + (" (" + context + ")")) == Some(|head|)
  {
    var t := head + (" (" + context + ")");
    assert t[|head|..|head| + 2] == " (";
    forall j: nat | j > |head|
      ensures !OccursAt(" (", t, j)
    {
      var k := j - |head|;
      if 2 <= k <= |context| {
        assert t[j..j + 2] == context[k - 2..k];
        assert !OccursAt(" (", context, k - 2);
      } else if j + 2 <= |t| {
        assert t[j..j + 2] == [t[j], t[j + 1]];
      }
    }
    RFindIs(" (", t, |head|);
  }

  /**
   Line drift: the normalised location is the relative path and the context. A position
   without a column lets the second peel reach a path that itself ends in `:digits`.
   */
  lemma NormalizedLocation(path: string, p: Position, context: string, srcPath: string)
    requires |SourcePrefix(srcPath)| <= |path| && !Contains(context, " (")
    ensures var rel := Relative(Slashed(path), SourcePrefix(srcPath));
      NormalizeLocation(Some(Location(path, p, context)), srcPath)
        == (if p.Line? then Peel(rel) else rel) + (" (" + Slashed(context) + ")")
  {
    var prefix := SourcePrefix(srcPath);
    var rel := Relative(Slashed(path), prefix);
    RelativeLocation(path, p, context, prefix);
    SlashedOpening(context);
    var shown := " (" + Slashed(context) + ")";
    var normal := rel + Printed(p) + shown;
    OpeningIsLast(rel + Printed(p), Slashed(context));
    assert normal[..|rel + Printed(p)|] == rel + Printed(p) && normal[|rel + Printed(p)|..] == shown;
    if p.Line? {
      PeelNumeral(rel, p.line);
    } else {
      assert rel + Printed(p) == rel + (":" + Digits(p.line)) + (":" + Digits(p.column));
      PeelNumeral(rel + (":" + Digits(p.line)), p.column);
      PeelNumeral(rel, p.line);
    }
  }

  /** Peeling stops at the first character that is neither a digit nor a colon. */
  lemma PeelStaysInside(a: string, y: string)
    requires y != [] && y[0] == ' '
    ensures Peel(a + y) == a + Peel(y) && Peel(y) != [] && Peel(y)[0] == ' '
  {
    var t := a + y;
    if RFind(":", y).Some? {
      var pos := RFind(":", y).value;
      RFindShifts(a, y, ":");
      assert pos > 0 by {
        assert y[pos] == y[pos..pos + 1][0] == ':';
      }
      assert t[|a| + pos + 1..] == y[pos + 1..] && t[..|a| + pos] == a + y[..pos];
    } else if RFind(":", t).Some? {
      var pos := RFind(":", t).value;
      if pos >= |a| {
        assert t[pos..pos + 1] == y[pos - |a|..pos - |a| + 1];
        assert OccursAt(":", y, pos - |a|);
      }
      assert t[pos + 1..][|a| - pos - 1] == ' ';
    }
  }

  /** Stripping the line numbers of `a (ctx1 (ctx2)` only touches what follows a. */
  lemma NestedStrip(a: string, context: string)
    requires Contains(context, " (")
    ensures StripLineNumbers(a + (" (" + context + ")")) == a + KeptTail(" (" + context + ")")
  {
    hide Peel;
    var shown := " (" + context + ")";
    InnerOpening(context);
    var k := RFind(" (", shown).value;
    RFindShifts(a, shown, " (");
    var normal := a + shown;
    assert normal[..|a| + k] == a + shown[..k] && normal[|a| + k..] == shown[k..];
    assert shown[..k][0] == ' ';
    PeelStaysInside(a, shown[..k]);
    PeelStaysInside(a, Peel(shown[..k]));
    assert a + Peel(Peel(shown[..k])) + shown[k..] == a + (Peel(Peel(shown[..k])) + shown[k..]);
  }

  /** What is found last in a suffix is found last in the whole. */
  lemma RFindShifts(a: string, s: string, pattern: string)
    requires RFind(pattern, s).Some? && pattern != []
    ensures RFind(pattern, a + s) == Some(|a| + RFind(pattern, s).value)
  {
    var t, k := a + s, RFind(pattern, s).value;
    assert t[|a| + k..|a| + k + |pattern|] == s[k..k + |pattern|];
    forall j: nat | j > |a| + k
      ensures !OccursAt(pattern, t, j)
    {
      if j + |pattern| <= |t| {
        assert t[j..j + |pattern|] == s[j - |a|..j - |a| + |pattern|];
        assert !OccursAt(pattern, s, j - |a|);
      }
    }
    RFindIs(pattern, t, |a| + k);
  }

  /** A context with a ` (` of its own hides the line from the stripper: it stays in the location. */
  lemma NestedContextKeepsTheLine(path: string, p: Position, context: string, srcPath: string) returns (rest: string)
    requires |SourcePrefix(srcPath)| <= |path| && Contains(context, " (")
    ensures NormalizeLocation(Some(Location(path, p, context)), srcPath)
      == Relative(Slashed(path), SourcePrefix(srcPath)) + Printed(p) + rest
    ensures rest == KeptTail(" (" + Slashed(context) + ")")
  {
    hide KeptTail, StripLineNumbers, Relative, SourcePrefix, Printed, Slashed;
    var prefix := SourcePrefix(srcPath);
    var rel := Relative(Slashed(path), prefix);
    RelativeLocation(path, p, context, prefix);
    SlashedOpening(context);
    NestedStrip(rel + Printed(p), Slashed(context));
    rest := KeptTail(" (" + Slashed(context) + ")");
  }

  lemma RelativeLocation(path: string, p: Position, context: string, prefix: string)
    requires |prefix| <= |path|
    ensures Relative(Slashed(Location(path, p, context)), prefix)
      == Relative(Slashed(path), prefix) + Printed(p) + (" (" + Slashed(context) + ")")
  {
    hide Relative, Digits;
    SlashedJoins(path + Printed(p), " (" + context + ")");
    SlashedJoins(path, Printed(p));
    SlashedNumeral(p);
    SlashedOpening(context);
    var shown := " (" + Slashed(context) + ")";
    assert Slashed(Location(path, p, context)) == Slashed(path) + (Printed(p) + shown);
    RelativeSkipsTail(Slashed(path), Printed(p) + shown, prefix);
    var rel := Relative(Slashed(path), prefix);
    assert rel + (Printed(p) + shown) == rel + Printed(p) + shown;
  }

  function KeptTail(shown: string): string {
    match RFind(" (", shown)
    case None => shown
    case Some(k) => Peel(Peel(shown[..k])) + shown[k..]
  }

  lemma InnerOpening(context: string)
    requires Contains(context, " (")
    ensures RFind(" (", " (" + context + ")").Some? && RFind(" (", " (" + context + ")").value > 0
  {
    var i: nat :| OccursAt(" (", context, i);
    var t := " (" + context + ")";
    assert t[i + 2..i + 4] == context[i..i + 2];
    assert OccursAt(" (", t, i + 2);
  }

  /** Drift invariance, exactly: the line is forgotten if and only if the context has no ` (` of its own. */
  lemma LineIsForgottenIff(path: string, m: nat, n: nat, context: string, srcPath: string)
    requires |SourcePrefix(srcPath)| <= |path| && m != n
    ensures NormalizeLocation(Some(Location(path, Line(m), context)), srcPath)
         == NormalizeLocation(Some(Location(path, Line(n), context)), srcPath)
      <==> !Contains(context, " (")
  {
    hide NormalizeLocation, Relative, SourcePrefix, Slashed, KeptTail, Contains, Peel;
    if Contains(context, " (") {
      var rel := Relative(Slashed(path), SourcePrefix(srcPath));
      var rest := NestedContextKeepsTheLine(path, Line(m), context, srcPath);
      var same := NestedContextKeepsTheLine(path, Line(n), context, srcPath);
      NumeralsDiffer(rel, m, n, rest);
    } else {
      NormalizedLocation(path, Line(m), context, srcPath);
      NormalizedLocation(path, Line(n), context, srcPath);
    }
  }

  lemma NumeralsDiffer(a: string, m: nat, n: nat, b: string)
    requires m != n
    ensures a + Printed(Line(m)) + b != a + Printed(Line(n)) + b
  {
    var x, y := a + Printed(Line(m)) + b, a + Printed(Line(n)) + b;
    if x == y {
      assert |Digits(m)| == |Digits(n)|;
      assert x[|a| + 1..|a| + 1 + |Digits(m)|] == Digits(m) && y[|a| + 1..|a| + 1 + |Digits(n)|] == Digits(n);
      DigitsAreInjective(m, n);
    }
  }

  // ---- locations without a context, and the source prefix -----------------------------------------------------

  lemma PrintedHasNoOpening(p: Position, i: nat)
    requires i < |Printed(p)|
    ensures Printed(p)[i] != ' ' && Printed(p)[i] != '('
  {
    assert IsDigit(Printed(p)[i]) || Printed(p)[i] == ':';
  }

  /** An opening of `rel:line` lies within rel. */
  lemma OpeningsOfBareLocations(rel: string, p: Position, i: nat)
    ensures OccursAt(" (", rel + Printed(p), i) <==> OccursAt(" (", rel, i)
  {
    hide Printed;
    var t := rel + Printed(p);
    if i + 2 <= |t| {
      assert t[i..i + 2] == [t[i], t[i + 1]];
      if i + 2 > |rel| {
        assert t[i + 1] == Printed(p)[i + 1 - |rel|];
        PrintedHasNoOpening(p, i + 1 - |rel|);
      } else {
        assert t[i..i + 2] == rel[i..i + 2];
      }
    }
  }

  lemma RelativeBareLocation(path: string, p: Position, prefix: string)
    requires |prefix| <= |path|
    ensures Relative(Slashed(path + Printed(p)), prefix) == Relative(Slashed(path), prefix) + Printed(p)
  {
    hide Relative, Digits;
    SlashedJoins(path, Printed(p));
    SlashedNumeral(p);
    RelativeSkipsTail(Slashed(path), Printed(p), prefix);
  }

  /** `path:line` and `path:line:column` without a context lose their position, unless the path itself has a ` (`. */
  lemma NormalizedBareLocation(path: string, p: Position, srcPath: string)
    requires |SourcePrefix(srcPath)| <= |path|
    ensures var rel := Relative(Slashed(path), SourcePrefix(srcPath));
      !Contains(rel, " (") ==>
        NormalizeLocation(Some(path + Printed(p)), srcPath) == if p.Line? then Peel(rel) else rel
  {
    var rel := Relative(Slashed(path), SourcePrefix(srcPath));
    RelativeBareLocation(path, p, SourcePrefix(srcPath));
    var loc := rel + Printed(p);
    if !Contains(rel, " (") {
      forall j: nat
        ensures !OccursAt(" (", loc, j)
      {
        OpeningsOfBareLocations(rel, p, j);
      }
      assert RFind(" (", loc) == None;
      if p.Line? {
        PeelNumeral(rel, p.line);
      } else {
        assert loc == rel + (":" + Digits(p.line)) + (":" + Digits(p.column));
        PeelNumeral(rel + (":" + Digits(p.line)), p.column);
        PeelNumeral(rel, p.line);
      }
    }
  }

  /** A ` (` in the path hides the position: it stays in the location. */
  lemma OpeningKeepsThePosition(path: string, p: Position, srcPath: string) returns (kept: string)
    requires |SourcePrefix(srcPath)| <= |path| && Contains(Relative(Slashed(path), SourcePrefix(srcPath)), " (")
    ensures NormalizeLocation(Some(path + Printed(p)), srcPath) == kept + Printed(p)
    ensures kept == StripLineNumbers(Relative(Slashed(path), SourcePrefix(srcPath)))
  {
    hide Printed, Peel;
    var rel := Relative(Slashed(path), SourcePrefix(srcPath));
    RelativeBareLocation(path, p, SourcePrefix(srcPath));
    var loc := rel + Printed(p);
    var i: nat :| OccursAt(" (", rel, i);
    assert RFind(" (", rel).Some?;
    var k := RFind(" (", rel).value;
    forall j: nat
      ensures OccursAt(" (", loc, j) <==> OccursAt(" (", rel, j)
    {
      OpeningsOfBareLocations(rel, p, j);
    }
    RFindIs(" (", loc, k);
    kept := Peel(Peel(rel[..k])) + rel[k..];
    assert loc[..k] == rel[..k] && loc[k..] == rel[k..] + Printed(p);
    assert Peel(Peel(rel[..k])) + (rel[k..] + Printed(p)) == kept + Printed(p);
  }

  /** Without a context the line is forgotten if and only if the path has no ` (` of its own. */
  lemma BareLineIsForgottenIff(path: string, m: nat, n: nat, srcPath: string)
    requires |SourcePrefix(srcPath)| <= |path| && m != n
    ensures NormalizeLocation(Some(path + Printed(Line(m))), srcPath)
         == NormalizeLocation(Some(path + Printed(Line(n))), srcPath)
      <==> !Contains(Relative(Slashed(path), SourcePrefix(srcPath)), " (")
  {
    hide NormalizeLocation, Relative, SourcePrefix, Slashed, Contains, Peel, Printed, StripLineNumbers;
    if Contains(Relative(Slashed(path), SourcePrefix(srcPath)), " (") {
      var a := OpeningKeepsThePosition(path, Line(m), srcPath);
      var b := OpeningKeepsThePosition(path, Line(n), srcPath);
      NumeralsDiffer(a, m, n, "");
      assert a + Printed(Line(m)) + "" == a + Printed(Line(m)) && a + Printed(Line(n)) + "" == a + Printed(Line(n));
    } else {
      NormalizedBareLocation(path, Line(m), srcPath);
      NormalizedBareLocation(path, Line(n), srcPath);
    }
  }

  predicate IsSeparator(c: char) {
    c == '/' || c == '\\'
  }

  /** Separators behind the source path do not matter. */
  lemma SourcePrefixIgnoresTrailingSeparators(src: string, separator: char)
    requires IsSeparator(separator)
    ensures SourcePrefix(src + [separator]) == SourcePrefix(src)
    ensures src == [] || !IsSeparator(src[|src| - 1]) ==> SourcePrefix(src) == Slashed(src)
  {
    var t := Slashed(src + [separator]);
    assert t[|t| - 1] == '/' && t[..|t| - 1] == Slashed(src);
  }

  /** A finding below the source is located by its path from there, with either separator; any other keeps its path. */
  lemma BelowTheSource(src: string, separator: char, rel: string, p: Position, context: string)
    requires src != [] && !IsSeparator(src[|src| - 1]) && IsSeparator(separator)
    requires rel != [] && !IsSeparator(rel[0]) && !Contains(context, " (")
    ensures NormalizeLocation(Some(Location(src + [separator] + rel, p, context)), src)
      == (if p.Line? then Peel(Slashed(rel)) else Slashed(rel)) + (" (" + Slashed(context) + ")")
  {
    hide Peel, Printed;
    var path := src + [separator] + rel;
    SourcePrefixIgnoresTrailingSeparators(src, separator);
    var prefix := SourcePrefix(src);
    assert prefix == Slashed(src);
    var full := Slashed(path);
    assert full[..|prefix|] == prefix && full[|prefix|..] == "/" + Slashed(rel);
    assert ("/" + Slashed(rel))[1..] == Slashed(rel) && Slashed(rel)[0] != '/';
    assert TrimStartSlashes(Slashed(rel)) == Slashed(rel);
    assert TrimStartSlashes("/" + Slashed(rel)) == Slashed(rel);
    assert Relative(full, prefix) == Slashed(rel);
    NormalizedLocation(path, p, context, src);
  }

  lemma OutsideTheSource(path: string, srcPath: string)
    requires SourcePrefix(srcPath) == [] || !(SourcePrefix(srcPath) <= Slashed(path))
    ensures Relative(Slashed(path), SourcePrefix(srcPath)) == Slashed(path)
    ensures NormalizeLocation(None, srcPath) == []
  {
  }

  /** Two printed contexts behind two paths are equal only if paths and contexts are. */
  lemma PathAndContextAreKept(a: string, c: string, b: string, d: string)
    requires !Contains(c, " (") && !Contains(d, " (")
    requires a + (" (" + c + ")") == b + (" (" + d + ")")
    ensures a == b && c == d
  {
    var t := a + (" (" + c + ")");
    OpeningIsLast(a, c);
    OpeningIsLast(b, d);
    assert |a| == |b|;
    assert t[..|a|] == a && t[..|b|] == b;
    assert t[|a| + 2..|t| - 1] == c && t[|b| + 2..|t| - 1] == d;
  }

  // ---- signatures and the baseline ---------------------------------------------------------------------------

  datatype Finding = Finding(title: string, severity: string, location: Option<string>, description: string)

  datatype Signature = Signature(ruleId: string, title: string, location: string, severity: string)

  /** `classify` stands for the rule classifier. */
  function SignatureOf(f: Finding, srcPath: string, classify: Finding -> string): Signature {
    Signature(classify(f), f.title, NormalizeLocation(f.location, srcPath), f.severity)
  }

  datatype Baseline = Baseline(signatures: seq<Signature>)

  function FromFindings(fs: seq<Finding>, srcPath: string, classify: Finding -> string): Baseline {
    Baseline(seq(|fs|, i requires 0 <= i < |fs| => SignatureOf(fs[i], srcPath, classify)))
  }

  function SignatureSet(b: Baseline): set<Signature> {
    set s | s in b.signatures
  }

  /** Findings whose signature is not known, in order. */
  function NewOnly(fs: seq<Finding>, known: set<Signature>, srcPath: string, classify: Finding -> string): seq<Finding> {
    if fs == [] then []
    else
      (if SignatureOf(fs[0], srcPath, classify) in known then [] else [fs[0]])
      + NewOnly(fs[1..], known, srcPath, classify)
  }

  lemma NewOnlyStep(fs: seq<Finding>, i: nat, known: set<Signature>, srcPath: string, classify: Finding -> string)
    requires i < |fs|
    ensures NewOnly(fs[i..], known, srcPath, classify) ==
      (if SignatureOf(fs[i], srcPath, classify) in known then [] else [fs[i]])
      + NewOnly(fs[i + 1..], known, srcPath, classify)
  {
    hide SignatureOf;
    assert fs[i..][1..] == fs[i + 1..];
  }

  lemma NewOnlyOfNothing(known: set<Signature>, srcPath: string, classify: Finding -> string)
    ensures NewOnly([], known, srcPath, classify) == []
  {
  }

  class FindingList {
    var findings: seq<Finding>

    constructor (findings: seq<Finding>)
      ensures this.findings == findings
    {
      this.findings := findings;
    }

    method RetainNew(baseline: Baseline, srcPath: string, classify: Finding -> string) returns (removed: nat)
      modifies this
      ensures findings == NewOnly(old(findings), SignatureSet(baseline), srcPath, classify)
      ensures removed + |findings| == |old(findings)|
    {
      hide SignatureOf, NewOnly, SignatureSet;
      var known := SignatureSet(baseline);
      var before := findings;
      var kept: seq<Finding> := [];
      assert before[0..] == before;
      for i := 0 to |before|
        invariant |kept| <= i
        invariant kept + NewOnly(before[i..], known, srcPath, classify) == NewOnly(before, known, srcPath, classify)
      {
        NewOnlyStep(before, i, known, srcPath, classify);
        if SignatureOf(before[i], srcPath, classify) !in known {
          kept := kept + [before[i]];
        }
      }
      NewOnlyOfNothing(known, srcPath, classify);
      assert before[|before|..] == [];
      findings := kept;
      removed := |before| - |kept|;
    }
  }

  /** A location of the usual shape, below the source directory, whose path does not end in `:digits`. */
  datatype Site = Site(path: string, position: Position, context: string)

  ghost predicate Usual(s: Site, srcPath: string) {
    && |SourcePrefix(srcPath)| <= |s.path| && !Contains(s.context, " (")
    && var rel := Relative(Slashed(s.path), SourcePrefix(srcPath)); Peel(rel) == rel
  }

  function At(f: Finding, s: Site): Finding {
    f.(location := Some(Location(s.path, s.position, s.context)))
  }

  /** Same file (relative to the source) and same context, wherever in the file. */
  predicate SamePlace(s: Site, t: Site, srcPath: string) {
    && Relative(Slashed(s.path), SourcePrefix(srcPath)) == Relative(Slashed(t.path), SourcePrefix(srcPath))
    && Slashed(s.context) == Slashed(t.context)
  }

  /** Two findings have the same identity exactly when they agree up to line and column. */
  lemma SameSignatureIffSameUpToDrift(f: Finding, s: Site, g: Finding, t: Site, srcPath: string, classify: Finding -> string)
    requires Usual(s, srcPath) && Usual(t, srcPath)
    ensures SignatureOf(At(f, s), srcPath, classify) == SignatureOf(At(g, t), srcPath, classify)
      <==> (&& classify(At(f, s)) == classify(At(g, t)) && f.title == g.title && f.severity == g.severity
            && SamePlace(s, t, srcPath))
  {
    NormalizedLocation(s.path, s.position, s.context, srcPath);
    NormalizedLocation(t.path, t.position, t.context, srcPath);
    SlashedOpening(s.context);
    SlashedOpening(t.context);
    var a := Relative(Slashed(s.path), SourcePrefix(srcPath));
    var b := Relative(Slashed(t.path), SourcePrefix(srcPath));
    if a + (" (" + Slashed(s.context) + ")") == b + (" (" + Slashed(t.context) + ")") {
      PathAndContextAreKept(a, Slashed(s.context), b, Slashed(t.context));
    }
  }

  /** Against a baseline of F, exactly the findings unlike every finding of F survive, with their multiplicity. */
  lemma {:induction false} BaselineKeepsTheNewOnes(
      fs: seq<Finding>, accepted: seq<Finding>, srcPath: string, classify: Finding -> string, x: Finding)
    ensures var kept := NewOnly(fs, SignatureSet(FromFindings(accepted, srcPath, classify)), srcPath, classify);
      multiset(kept)[x] ==
        if exists g :: g in accepted && SignatureOf(g, srcPath, classify) == SignatureOf(x, srcPath, classify)
        then 0 else multiset(fs)[x]
  {
    var signatures := FromFindings(accepted, srcPath, classify).signatures;
    var known := SignatureSet(FromFindings(accepted, srcPath, classify));
    assert SignatureOf(x, srcPath, classify) in known
      <==> exists g :: g in accepted && SignatureOf(g, srcPath, classify) == SignatureOf(x, srcPath, classify) by {
      if SignatureOf(x, srcPath, classify) in known {
        var i :| 0 <= i < |signatures| && signatures[i] == SignatureOf(x, srcPath, classify);
        assert accepted[i] in accepted;
      }
      if g :| g in accepted && SignatureOf(g, srcPath, classify) == SignatureOf(x, srcPath, classify) {
        var i :| 0 <= i < |accepted| && accepted[i] == g;
        assert signatures[i] in signatures;
      }
    }
    KeptCounts(fs, known, srcPath, classify, x);
  }

  lemma {:induction false} KeptCounts(fs: seq<Finding>, known: set<Signature>, srcPath: string, classify: Finding -> string, x: Finding)
    ensures multiset(NewOnly(fs, known, srcPath, classify))[x]
      == if SignatureOf(x, srcPath, classify) in known then 0 else multiset(fs)[x]
  {
    if fs != [] {
      assert fs == [fs[0]] + fs[1..];
      KeptCounts(fs[1..], known, srcPath, classify, x);
    }
  }

  /** The positions from i on of the findings that are not known. */
  function UnknownFrom(fs: seq<Finding>, i: nat, known: set<Signature>, srcPath: string, classify: Finding -> string): seq<nat>
    requires i <= |fs|
    decreases |fs| - i
  {
    if i == |fs| then []
    else
      (if SignatureOf(fs[i], srcPath, classify) in known then [] else [i]) + UnknownFrom(fs, i + 1, known, srcPath, classify)
  }

  /** They are exactly those positions. */
  lemma {:induction false} UnknownExactly(
      fs: seq<Finding>, i: nat, known: set<Signature>, srcPath: string, classify: Finding -> string, j: nat)
    requires i <= |fs|
    ensures j in UnknownFrom(fs, i, known, srcPath, classify)
      <==> i <= j < |fs| && SignatureOf(fs[j], srcPath, classify) !in known
    decreases |fs| - i
  {
    hide SignatureOf;
    if i < |fs| {
      UnknownExactly(fs, i + 1, known, srcPath, classify, j);
      var rest := UnknownFrom(fs, i + 1, known, srcPath, classify);
      var kept := SignatureOf(fs[i], srcPath, classify) !in known;
      assert UnknownFrom(fs, i, known, srcPath, classify) == (if kept then [i] else []) + rest;
      assert j in UnknownFrom(fs, i, known, srcPath, classify) <==> (kept && j == i) || j in rest;
    }
  }

  /** They ascend. */
  lemma {:induction false} UnknownAscend(
      fs: seq<Finding>, i: nat, known: set<Signature>, srcPath: string, classify: Finding -> string, k: nat, l: nat)
    requires i <= |fs| && k < l < |UnknownFrom(fs, i, known, srcPath, classify)|
    ensures i <= UnknownFrom(fs, i, known, srcPath, classify)[k] < UnknownFrom(fs, i, known, srcPath, classify)[l]
    decreases |fs| - i
  {
    hide SignatureOf;
    var rest := UnknownFrom(fs, i + 1, known, srcPath, classify);
    if SignatureOf(fs[i], srcPath, classify) in known {
      UnknownAscend(fs, i + 1, known, srcPath, classify, k, l);
    } else if k == 0 {
      UnknownExactly(fs, i + 1, known, srcPath, classify, rest[l - 1]);
    } else {
      UnknownAscend(fs, i + 1, known, srcPath, classify, k - 1, l - 1);
    }
  }

  /** What is kept are the findings at these positions, in the order of the list. */
  lemma {:induction false} KeptInOrder(fs: seq<Finding>, i: nat, known: set<Signature>, srcPath: string, classify: Finding -> string)
    requires i <= |fs|
    ensures var at, kept := UnknownFrom(fs, i, known, srcPath, classify), NewOnly(fs[i..], known, srcPath, classify);
      |kept| == |at| && forall k :: 0 <= k < |at| ==> at[k] < |fs| && kept[k] == fs[at[k]]
    decreases |fs| - i
  {
    hide SignatureOf, NewOnly;
    if i == |fs| {
      NewOnlyOfNothing(known, srcPath, classify);
      assert fs[i..] == [];
    } else {
      NewOnlyStep(fs, i, known, srcPath, classify);
      KeptInOrder(fs, i + 1, known, srcPath, classify);
    }
  }
}
