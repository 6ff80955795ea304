/** Fresh identifiers for the generated seed and PDA helpers. */
module FreshNames {
  import opened Decimal
  import opened RustNames

  datatype Account = Account(name: string, seedCount: nat)

  datatype Instruction = Instruction(name: string, accounts: seq<Account>)

  predicate IsAlphanumeric(c: char) {
    'a' <= c <= 'z' || 'A' <= c <= 'Z' || IsDigit(c)
  }

  function SanitizeIdent(name: string): string {
    var out := seq(|name|, i requires 0 <= i < |name| => if IsAlphanumeric(name[i]) then name[i] else '_');
    var ident := if out == [] then "_" else if IsDigit(out[0]) then "_" + out else out;
    if ident in RUST_KEYWORDS then ident + "_" else ident
  }

  /** `base_n`. */
  function Candidate(base: string, n: nat): string {
    base + "_" + Digits(n)
  }

  lemma CandidatesDiffer(base: string, m: nat, n: nat)
    requires Candidate(base, m) == Candidate(base, n)
    ensures m == n
  {
    assert Candidate(base, m)[|base| + 1..] == Digits(m) && Candidate(base, n)[|base| + 1..] == Digits(n);
    DigitsAreInjective(m, n);
  }

  /** The name handed out: base itself, or base_k for the least k >= 2 that is free. */
  ghost predicate IsFresh(ident: string, base: string, used: set<string>) {
    && ident !in used
    && (ident == base
        || (base in used && exists k: nat :: k >= 2 && ident == Candidate(base, k)
                              && forall j :: 2 <= j < k ==> Candidate(base, j) in used))
  }

  class NameTable {
    var used: set<string>

    constructor ()
      ensures used == {}
    {
      used := {};
    }

    /** Terminates for every finite table: each failed candidate is a used name not tried before. */
    method UniqueIdent(base: string) returns (ident: string)
      modifies this
      ensures IsFresh(ident, base, old(used)) && used == old(used) + {ident}
    {
      if base !in used {
        used := used + {base};
        return base;
      }
      var n := 2;
      ghost var tried: set<string> := {};
      while true
        invariant n >= 2 && used == old(used) && tried <= used
        invariant forall j :: 2 <= j < n ==> Candidate(base, j) in used
        invariant forall s :: s in tried <==> exists j :: 2 <= j < n && s == Candidate(base, j)
        decreases used - tried
      {
        var candidate := Candidate(base, n);
        if candidate !in used {
          used := used + {candidate};
          return candidate;
        }
        forall j | 2 <= j < n
          ensures Candidate(base, j) != candidate
        {
          if Candidate(base, j) == candidate {
            CandidatesDiffer(base, j, n);
          }
        }
        assert candidate in used - tried;
        tried := tried + {candidate};
        n := n + 1;
      }
    }
  }

  // ---- identifiers from names -------------------------------------------------------------------------

  predicate IsIdentifierCharacter(c: char) {
    'a' <= c <= 'z' || 'A' <= c <= 'Z' || '0' <= c <= '9' || c == '_'
  }

  lemma NoKeywordIsMarked(s: string)
    requires s != [] && s[|s| - 1] == '_'
    ensures s !in RUST_KEYWORDS
  {
  }

  lemma NoKeywordStartsSo(s: string)
    requires s != [] && s[0] == '_'
    ensures s !in RUST_KEYWORDS
  {
  }

  /** A name becomes an identifier that is no keyword, and stays as it is exactly when it is one. */
  lemma SanitizedIdents(name: string)
    ensures var r := SanitizeIdent(name);
      r != [] && !IsDigit(r[0]) && r !in RUST_KEYWORDS && forall i :: 0 <= i < |r| ==> IsIdentifierCharacter(r[i])
    ensures SanitizeIdent(name) == name
      <==> (&& name != [] && !('0' <= name[0] <= '9') && name !in RUST_KEYWORDS
            && forall i :: 0 <= i < |name| ==> IsIdentifierCharacter(name[i]))
  {
    var out := seq(|name|, i requires 0 <= i < |name| => if IsAlphanumeric(name[i]) then name[i] else '_');
    var ident := if out == [] then "_" else if IsDigit(out[0]) then "_" + out else out;
    assert |ident + "_"| == |ident| + 1 && (ident + "_")[|ident|] == '_';
    NoKeywordIsMarked(ident + "_");
    if out == [] || IsDigit(out[0]) {
      NoKeywordStartsSo(ident);
    }
    assert out == name <==> forall i :: 0 <= i < |name| ==> IsIdentifierCharacter(name[i]);
    if SanitizeIdent(name) == name {
      assert |name| <= |out|;
    }
  }

  /** Every other character becomes an underscore in its place, behind one more if the name starts with a digit. */
  lemma SanitizedInPlace(name: string)
    requires name != []
    ensures var r, shift := SanitizeIdent(name), if '0' <= name[0] <= '9' then 1 else 0;
      && |name| + shift <= |r| <= |name| + shift + 1
      && forall i :: 0 <= i < |name| ==> r[i + shift] == if IsIdentifierCharacter(name[i]) then name[i] else '_'
  {
    hide RUST_KEYWORDS;
    var out := seq(|name|, i requires 0 <= i < |name| => if IsAlphanumeric(name[i]) then name[i] else '_');
    assert forall i :: 0 <= i < |name| ==> out[i] == if IsIdentifierCharacter(name[i]) then name[i] else '_';
    assert forall i :: 0 <= i < |out| ==> ("_" + out)[i + 1] == out[i];
  }

  // ---- the generated helpers ---------------------------------------------------------------------------

  function SeedsBase(ix: Instruction, acct: Account): string {
    "seeds_" + SanitizeIdent(ix.name) + "_" + SanitizeIdent(acct.name)
  }

  /** `replacen("seeds_", "pda_", 1)` on a name that starts with it. */
  function PdaName(seeds: string): string
    requires "seeds_" <= seeds
  {
    "pda_" + seeds[6..]
  }

  /** The helper pairs wanted: one per account with a non-empty PDA seed list, in IDL order. */
  function Bases(ixs: seq<Instruction>): seq<string> {
    if ixs == [] then [] else Bases(ixs[..|ixs| - 1]) + BasesOf(ixs[|ixs| - 1], ixs[|ixs| - 1].accounts)
  }

  function BasesOf(ix: Instruction, accounts: seq<Account>): seq<string> {
    if accounts == [] then []
    else
      var last := accounts[|accounts| - 1];
      BasesOf(ix, accounts[..|accounts| - 1]) + (if last.seedCount == 0 then [] else [SeedsBase(ix, last)])
  }

  /** An account of the instruction with seeds, and the name wanted for its helper. */
  predicate Wants(ix: Instruction, acct: Account, base: string) {
    acct.seedCount > 0 && base == "seeds_" + SanitizeIdent(ix.name) + "_" + SanitizeIdent(acct.name)
  }

  lemma {:induction false} BasesOfAreExact(ix: Instruction, accounts: seq<Account>, b: string)
    ensures b in BasesOf(ix, accounts) <==> exists a :: a in accounts && Wants(ix, a, b)
  {
    hide Wants, SeedsBase;
    if accounts != [] {
      var n := |accounts| - 1;
      BasesOfAreExact(ix, accounts[..n], b);
      assert accounts == accounts[..n] + [accounts[n]];
      WantedBase(ix, accounts[n], b);
      assert b in BasesOf(ix, accounts) <==> b in BasesOf(ix, accounts[..n]) || Wants(ix, accounts[n], b);
      assert accounts[n] in accounts;
    }
  }

  /** One for each account with seeds. */
  lemma {:induction false} BasesOfAreCounted(ix: Instruction, accounts: seq<Account>)
    ensures |BasesOf(ix, accounts)| == |set k: nat | k < |accounts| && accounts[k].seedCount > 0|
  {
    hide SeedsBase;
    var here := set k: nat | k < |accounts| && accounts[k].seedCount > 0;
    if accounts == [] {
      assert here == {};
    } else {
      var n := |accounts| - 1;
      BasesOfAreCounted(ix, accounts[..n]);
      var before := set k: nat | k < n && accounts[..n][k].seedCount > 0;
      assert here == before + (if accounts[n].seedCount > 0 then {n} else {});
    }
  }

  lemma WantedBase(ix: Instruction, acct: Account, b: string)
    ensures Wants(ix, acct, b) <==> acct.seedCount > 0 && b == SeedsBase(ix, acct)
  {
    hide SanitizeIdent;
  }

  /** Helpers are wanted for exactly the accounts with seeds of all instructions. */
  lemma {:induction false} BasesAreExact(ixs: seq<Instruction>, b: string)
    ensures b in Bases(ixs) <==> exists ix, a :: ix in ixs && a in ix.accounts && Wants(ix, a, b)
  {
    hide Wants;
    if ixs != [] {
      var n := |ixs| - 1;
      BasesAreExact(ixs[..n], b);
      BasesOfAreExact(ixs[n], ixs[n].accounts, b);
      assert ixs == ixs[..n] + [ixs[n]];
    }
  }

  ghost predicate Distinct(names: seq<string>) {
    forall i, j :: 0 <= i < j < |names| ==> names[i] != names[j]
  }

  /** Each name extends its base, all differ, and they are what the table holds. */
  ghost predicate NamesFor(names: seq<string>, bases: seq<string>, used: set<string>) {
    && |names| == |bases| && Distinct(names)
    && (forall i :: 0 <= i < |names| ==> bases[i] <= names[i] && names[i] in used)
    && forall b :: b in bases ==> "seeds_" <= b
  }

  lemma OneMoreName(names: seq<string>, bases: seq<string>, used: set<string>, name: string, base: string)
    requires NamesFor(names, bases, used) && IsFresh(name, base, used) && "seeds_" <= base
    ensures NamesFor(names + [name], bases + [base], used + {name})
  {
    if name != base {
      var k: nat :| k >= 2 && name == Candidate(base, k);
      assert name[..|base|] == base;
    }
  }

  lemma SeedsBasePrefix(ix: Instruction, acct: Account)
    ensures "seeds_" <= SeedsBase(ix, acct)
  {
    hide SanitizeIdent;
  }

  /** Both helper names of one account, or nothing when it has no seeds. */
  method NameHelpers(ix: Instruction, acct: Account, table: NameTable, seeds: seq<string>, pdas: seq<string>, ghost bases: seq<string>)
      returns (moreSeeds: seq<string>, morePdas: seq<string>)
    requires NamesFor(seeds, bases, table.used) && PdasOf(pdas, seeds)
    modifies table
    ensures NamesFor(moreSeeds, bases + BasesOf(ix, [acct]), table.used) && PdasOf(morePdas, moreSeeds)
  {
    assert [acct][..0] == [] && BasesOf(ix, []) == [];
    if acct.seedCount == 0 {
      assert bases + BasesOf(ix, [acct]) == bases;
      return seeds, pdas;
    }
    hide SeedsBase, IsFresh, NamesFor, Candidate;
    var base := SeedsBase(ix, acct);
    SeedsBasePrefix(ix, acct);
    ghost var usedBefore := table.used;
    var ident := table.UniqueIdent(base);
    OneMoreName(seeds, bases, usedBefore, ident, base);
    assert bases + BasesOf(ix, [acct]) == bases + [base];
    FreshExtendsBase(ident, base, usedBefore);
    moreSeeds, morePdas := seeds + [ident], pdas + [PdaName(ident)];
  }

  lemma FreshExtendsBase(name: string, base: string, used: set<string>)
    requires IsFresh(name, base, used) && "seeds_" <= base
    ensures "seeds_" <= name
  {
    if name != base {
      var k: nat :| k >= 2 && name == Candidate(base, k);
      assert name[..|base|] == base;
    }
  }

  lemma BasesGrow(ix: Instruction, accounts: seq<Account>, j: nat)
    requires j < |accounts|
    ensures BasesOf(ix, accounts[..j + 1]) == BasesOf(ix, accounts[..j]) + BasesOf(ix, [accounts[j]])
  {
    assert accounts[..j + 1][..j] == accounts[..j];
    assert [accounts[j]][..0] == [];
  }

  /** `render_seeds_fns`, reduced to the identifiers it gives out. */
  method RenderSeedsNames(ixs: seq<Instruction>) returns (seeds: seq<string>, pdas: seq<string>)
    ensures |seeds| == |pdas| == |Bases(ixs)| && Distinct(seeds + pdas)
    ensures forall i :: 0 <= i < |seeds| ==>
      Bases(ixs)[i] <= seeds[i] && "seeds_" <= seeds[i] && pdas[i] == "pda_" + seeds[i][6..]
  {
    hide NamesFor, BasesOf, PdasOf, Distinct;
    seeds, pdas := [], [];
    var table := new NameTable();
    NoNamesYet();
    for i := 0 to |ixs|
      invariant fresh(table)
      invariant NamesFor(seeds, Bases(ixs[..i]), table.used) && PdasOf(pdas, seeds)
    {
      assert ixs[..i + 1][..i] == ixs[..i];
      var ix := ixs[i];
      assert Bases(ixs[..i]) + BasesOf(ix, ix.accounts[..0]) == Bases(ixs[..i]) by {
        NoAccounts(ix);
        assert ix.accounts[..0] == [];
      }
      for j := 0 to |ix.accounts|
        invariant fresh(table)
        invariant NamesFor(seeds, Bases(ixs[..i]) + BasesOf(ix, ix.accounts[..j]), table.used) && PdasOf(pdas, seeds)
      {
        ghost var bases := Bases(ixs[..i]) + BasesOf(ix, ix.accounts[..j]);
        seeds, pdas := NameHelpers(ix, ix.accounts[j], table, seeds, pdas, bases);
        BasesGrow(ix, ix.accounts, j);
        assert bases + BasesOf(ix, [ix.accounts[j]]) == Bases(ixs[..i]) + BasesOf(ix, ix.accounts[..j + 1]);
      }
      assert ix.accounts[..|ix.accounts|] == ix.accounts;
    }
    assert ixs[..|ixs|] == ixs;
    AllNamesDiffer(seeds, pdas, Bases(ixs), table.used);
  }

  lemma NoNamesYet()
    ensures NamesFor([], [], {}) && PdasOf([], []) && Bases([]) == []
  {
  }

  lemma NoAccounts(ix: Instruction)
    ensures BasesOf(ix, []) == []
  {
  }

  ghost predicate PdasOf(pdas: seq<string>, seeds: seq<string>) {
    |pdas| == |seeds| && forall i :: 0 <= i < |seeds| ==> "seeds_" <= seeds[i] && pdas[i] == PdaName(seeds[i])
  }

  /** Renaming the prefix keeps distinct names distinct, and away from the originals. */
  lemma AllNamesDiffer(seeds: seq<string>, pdas: seq<string>, bases: seq<string>, used: set<string>)
    requires NamesFor(seeds, bases, used) && PdasOf(pdas, seeds)
    ensures Distinct(seeds + pdas) && |seeds| == |pdas| == |bases|
    ensures forall i :: 0 <= i < |seeds| ==> bases[i] <= seeds[i] && "seeds_" <= seeds[i] && pdas[i] == PdaName(seeds[i])
  {
    var all := seeds + pdas;
    forall i, j | 0 <= i < j < |all|
      ensures all[i] != all[j]
    {
      if i < |seeds| <= j {
        assert all[i][0] == 's' && all[j][0] == 'p';
      } else if i >= |seeds| {
        var a, b := i - |seeds|, j - |seeds|;
        assert seeds[a] == "seeds_" + seeds[a][6..] && seeds[b] == "seeds_" + seeds[b][6..];
        assert pdas[a][4..] == seeds[a][6..] && pdas[b][4..] == seeds[b][6..];
        assert all[i] == pdas[a] && all[j] == pdas[b];
      } else {
        assert all[i] == seeds[i] && all[j] == seeds[j];
      }
    }
  }
}
