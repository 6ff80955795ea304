/**
 The identifiers of the generated module: what becomes of an IDL name that is sanitised to a
 Rust type name, to a field name or to the snake case of a function name.
 */
module LayoutNames {
  import Decimal
  import opened Layout
  import opened RustNames

  predicate AllAlphanumeric(s: string) {
    forall i :: 0 <= i < |s| ==> IsAlphanumeric(s[i])
  }

  lemma {:induction false} OnlyAlphanumericIs(s: string)
    ensures AllAlphanumeric(OnlyAlphanumeric(s)) && |OnlyAlphanumeric(s)| <= |s|
    ensures OnlyAlphanumeric(s) == s <==> AllAlphanumeric(s)
  {
    if s != [] {
      OnlyAlphanumericIs(s[1..]);
      assert s == [s[0]] + s[1..];
    }
  }

  lemma NoKeywordIsMarked(s: string)
    requires s in RUST_KEYWORDS
    ensures s + "_" !in RUST_KEYWORDS
  {
    var t := s + "_";
    assert t[|t| - 1] == '_';
    NoKeywordEndsSo(t);
  }

  lemma NoKeywordEndsSo(t: string)
    requires |t| > 0 && t[|t| - 1] == '_'
    ensures t !in RUST_KEYWORDS
  {
  }

  lemma OnlySelfIsCapitalised(s: string)
    requires s in RUST_KEYWORDS && IsUpper(s[0])
    ensures s == "Self"
  {
  }

  lemma {:induction false} OnlyAlphanumericJoins(a: string, b: string)
    ensures OnlyAlphanumeric(a + b) == OnlyAlphanumeric(a) + OnlyAlphanumeric(b)
  {
    if a == [] {
      assert a + b == b;
    } else {
      assert (a + b)[1..] == a[1..] + b;
      OnlyAlphanumericJoins(a[1..], b);
    }
  }

  lemma SelfIsMarked()
    ensures SanitizeTypeName("Self_") == "Self_"
  {
    var name := "Self";
    OnlyAlphanumericIs(name);
    OnlyAlphanumericJoins(name, "_");
    OneOther('_');
    assert name + "_" == "Self_" && OnlyAlphanumeric("Self_") == "Self";
  }

  lemma CapitalisedIs(kept: string)
    requires AllAlphanumeric(kept)
    ensures AllAlphanumeric(Capitalised(kept)) && IsUpper(Capitalised(kept)[0])
    ensures Capitalised(kept) == kept <==> kept != [] && IsUpper(kept[0])
  {
    if kept != [] && IsLower(kept[0]) {
      assert Capitalised(kept)[0] != kept[0];
    }
  }

  /**
   A type name is sanitised to a capitalised identifier that is no keyword, and left alone
   exactly when it is one of alphanumeric characters, or the marked keyword `Self_`.
   */
  lemma SanitizedTypeNames(name: string)
    ensures var r := SanitizeTypeName(name); r != [] && IsUpper(r[0]) && r !in RUST_KEYWORDS
    ensures SanitizeTypeName(name) == name
      <==> (name != [] && AllAlphanumeric(name) && IsUpper(name[0]) && name !in RUST_KEYWORDS) || name == "Self_"
  {
    hide OnlyAlphanumeric, Capitalised;
    OnlyAlphanumericIs(name);
    SelfIsMarked();
    var kept := OnlyAlphanumeric(name);
    var ident := Capitalised(kept);
    CapitalisedIs(kept);
    if ident in RUST_KEYWORDS {
      NoKeywordIsMarked(ident);
      OnlySelfIsCapitalised(ident);
      assert ident + "_" == "Self_";
      assert (ident + "_")[|ident|] == '_' && !IsAlphanumeric('_');
    } else {
      if AllAlphanumeric(name) {
        assert kept == name;
      } else {
        assert ident != name;
      }
    }
  }

  /** Other characters are dropped, a leading digit gets a T, and nothing at all becomes "Type". */
  lemma CapitalisedSamples()
    ensures Capitalised(OnlyAlphanumeric("a-Z")) == "AZ"
    ensures Capitalised(OnlyAlphanumeric("9z")) == "T9z"
    ensures Capitalised(OnlyAlphanumeric("-")) == "Type"
  {
    hide OnlyAlphanumeric;
    OneOther('-');
    OnlyAlphanumericIs("a");
    OnlyAlphanumericIs("Z");
    OnlyAlphanumericIs("9z");
    OnlyAlphanumericJoins("a", "-");
    OnlyAlphanumericJoins("a-", "Z");
    assert "a" + "-" == "a-" && "a-" + "Z" == "a-Z";
  }

  lemma OneOther(c: char)
    requires !IsAlphanumeric(c)
    ensures OnlyAlphanumeric([c]) == []
  {
    assert [c][1..] == [];
  }

  function Lowered(s: string): string {
    if s == [] then [] else [if IsUpper(s[0]) then (s[0] as int + 32) as char else s[0]] + Lowered(s[1..])
  }

  lemma {:induction false} LoweredJoins(a: string, b: string)
    ensures Lowered(a + b) == Lowered(a) + Lowered(b)
  {
    if a == [] {
      assert a + b == b;
    } else {
      assert (a + b)[1..] == a[1..] + b;
      LoweredJoins(a[1..], b);
    }
  }

  lemma OneCharacter(c: char)
    ensures OnlyAlphanumeric([c]) == (if IsAlphanumeric(c) then [c] else [])
    ensures Lowered([c]) == [if IsUpper(c) then (c as int + 32) as char else c]
  {
    assert [c][1..] == [];
  }

  /** What one character becomes. */
  function SnakePiece(name: string, i: nat): string
    requires i < |name|
  {
    var ch := name[i];
    var breaks := i > 0 && (IsLower(name[i - 1]) || Decimal.IsDigit(name[i - 1]));
    if IsUpper(ch) then (if breaks then "_" else "") + [(ch as int + 32) as char]
    else if IsAlphanumeric(ch) then [ch]
    else "_"
  }

  lemma SnakePieceLetters(name: string, i: nat)
    requires i < |name|
    ensures OnlyAlphanumeric(SnakePiece(name, i)) == Lowered(OnlyAlphanumeric([name[i]]))
  {
    hide OnlyAlphanumeric, Lowered;
    var ch := name[i];
    OneCharacter(ch);
    OneCharacter('_');
    assert Lowered([]) == [] by {
      NothingLowered();
    }
    if IsUpper(ch) {
      var low := (ch as int + 32) as char;
      OneCharacter(low);
      OnlyAlphanumericJoins("_", [low]);
      assert "" + [low] == [low];
    }
  }

  lemma NothingLowered()
    ensures Lowered([]) == [] && OnlyAlphanumeric([]) == []
  {
  }

  lemma {:induction false} SnakeLetters(name: string, i: nat)
    requires i <= |name|
    ensures OnlyAlphanumeric(SnakeFrom(name, i)) == Lowered(OnlyAlphanumeric(name[i..]))
    decreases |name| - i
  {
    hide OnlyAlphanumeric, Lowered, SnakePiece;
    NothingLowered();
    if i == |name| {
      assert name[i..] == [];
    } else {
      SnakeLetters(name, i + 1);
      SnakeStep(name, i);
      SnakePieceLetters(name, i);
      OnlyAlphanumericJoins(SnakePiece(name, i), SnakeFrom(name, i + 1));
      assert name[i..] == [name[i]] + name[i + 1..];
      OnlyAlphanumericJoins([name[i]], name[i + 1..]);
      LoweredJoins(OnlyAlphanumeric([name[i]]), OnlyAlphanumeric(name[i + 1..]));
    }
  }

  lemma SnakeStep(name: string, i: nat)
    requires i < |name|
    ensures SnakeFrom(name, i) == SnakePiece(name, i) + SnakeFrom(name, i + 1)
  {
  }

  lemma {:induction false} TrimmingKeepsLetters(s: string)
    ensures OnlyAlphanumeric(TrimStart(s)) == OnlyAlphanumeric(s) && OnlyAlphanumeric(TrimEnd(s)) == OnlyAlphanumeric(s)
    decreases |s|
  {
    OneCharacter('_');
    if s != [] && s[0] == '_' {
      TrimmingKeepsLetters(s[1..]);
    }
    if s != [] && s[|s| - 1] == '_' {
      TrimmingKeepsLetters(s[..|s| - 1]);
      assert s == s[..|s| - 1] + "_";
      OnlyAlphanumericJoins(s[..|s| - 1], "_");
    }
  }

  /** The characters of a snake-case name. */
  predicate AllSnake(s: string) {
    forall i :: 0 <= i < |s| ==> IsLower(s[i]) || Decimal.IsDigit(s[i]) || s[i] == '_'
  }

  lemma {:induction false} SnakeAlphabet(name: string, i: nat)
    requires i <= |name|
    ensures AllSnake(SnakeFrom(name, i))
    decreases |name| - i
  {
    if i < |name| {
      SnakeAlphabet(name, i + 1);
      SnakeStep(name, i);
    }
  }

  lemma {:induction false} Trimmed(s: string)
    requires AllSnake(s)
    ensures AllSnake(TrimStart(s)) && AllSnake(TrimEnd(s))
    ensures TrimStart(s) == [] || TrimStart(s)[0] != '_'
    ensures TrimEnd(s) == [] || (s != [] && TrimEnd(s)[0] == s[0] && TrimEnd(s)[|TrimEnd(s)| - 1] != '_')
    decreases |s|
  {
    if s != [] && s[0] == '_' {
      Trimmed(s[1..]);
    }
    if s != [] && s[|s| - 1] == '_' {
      Trimmed(s[..|s| - 1]);
    }
  }

  /**
   Snake case keeps the letters and digits of a name, in order and in lower case, with
   underscores between them only; a name without any letter or digit becomes "field".
   */
  lemma SnakeCaseKeepsTheLetters(name: string)
    ensures OnlyAlphanumeric(name) != [] ==> OnlyAlphanumeric(ToSnakeCase(name)) == Lowered(OnlyAlphanumeric(name))
    ensures OnlyAlphanumeric(name) == [] ==> ToSnakeCase(name) == "field"
    ensures var r := ToSnakeCase(name); AllSnake(r) && r[0] != '_' && r[|r| - 1] != '_'
  {
    hide OnlyAlphanumeric, Lowered, SnakeFrom, TrimStart, TrimEnd;
    var snake := SnakeFrom(name, 0);
    SnakeLetters(name, 0);
    assert name[0..] == name;
    NothingLowered();
    TrimmingKeepsLetters(snake);
    TrimmingKeepsLetters(TrimStart(snake));
    SnakeAlphabet(name, 0);
    Trimmed(snake);
    Trimmed(TrimStart(snake));
    var trimmed := TrimEnd(TrimStart(snake));
    if OnlyAlphanumeric(name) != [] {
      LoweredKeepsLength(OnlyAlphanumeric(name));
    }
    KeepsTheFirst(trimmed);
  }

  lemma KeepsTheFirst(s: string)
    ensures s != [] && IsAlphanumeric(s[0]) ==> OnlyAlphanumeric(s) != []
  {
  }

  lemma {:induction false} LoweredKeepsLength(s: string)
    ensures |Lowered(s)| == |s|
  {
    if s != [] {
      LoweredKeepsLength(s[1..]);
    }
  }

  /** A capital behind a small letter or a digit starts a word; other characters separate words. */
  lemma SnakeCaseWords()
    ensures ToSnakeCase("aB") == "a_b" && ToSnakeCase("1B") == "1_b" && ToSnakeCase("AB") == "ab"
    ensures ToSnakeCase("a-b") == "a_b" && ToSnakeCase("-") == "field"
  {
    assert SnakeFrom("aB", 2) == [] && SnakeFrom("aB", 1) == "_b" && SnakeFrom("aB", 0) == "a_b";
    assert SnakeFrom("1B", 2) == [] && SnakeFrom("1B", 1) == "_b" && SnakeFrom("1B", 0) == "1_b";
    assert SnakeFrom("AB", 2) == [] && SnakeFrom("AB", 1) == "b" && SnakeFrom("AB", 0) == "ab";
    assert SnakeFrom("a-b", 3) == [] && SnakeFrom("a-b", 2) == "b" && SnakeFrom("a-b", 1) == "_b";
    assert SnakeFrom("a-b", 0) == "a_b";
    assert SnakeFrom("-", 1) == [] && SnakeFrom("-", 0) == "_" && TrimStart("_") == TrimStart("_"[1..]) == [];
  }

  /** A field name is its snake case, marked when that is a keyword or starts with a digit. */
  lemma SanitizedFieldNames(name: string)
    ensures var r, snake := SanitizeFieldName(name), ToSnakeCase(name);
      && r != [] && !Decimal.IsDigit(r[0]) && r !in RUST_KEYWORDS
      && (r == snake <==> !Decimal.IsDigit(snake[0]) && snake !in RUST_KEYWORDS)
      && (r == snake || r == snake + "_" || r == "_" + snake || r == "_" + snake + "_")
  {
    hide ToSnakeCase;
    var snake := ToSnakeCase(name);
    var ident := if Decimal.IsDigit(snake[0]) then "_" + snake else snake;
    assert |ident + "_"| == |ident| + 1;
    if ident in RUST_KEYWORDS {
      NoKeywordIsMarked(ident);
    }
  }
}
