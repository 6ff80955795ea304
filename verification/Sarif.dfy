/**
 SARIF locations: finding the line in a `path:line (context)` string by scanning backwards,
 and percent-encoding the path. A byte is written as the character with its code.
 */
module Sarif {
  import opened Wrappers
  import opened Decimal

  type Byte = c: char | c as int < 256 witness 'a'

  // ---- percent-encoding -----------------------------------------------------------------------

  const SAFE_PUNCTUATION := {'/', '.', '-', '_', '~', '!', '$', '&', '\'', '(', ')', '*', '+', ',', ';', '=', '@'}

  predicate IsSafe(b: Byte) {
    'a' <= b <= 'z' || 'A' <= b <= 'Z' || IsDigit(b) || b in SAFE_PUNCTUATION
  }

  function HexDigit(d: nat): Byte
    requires d < 16
  {
    if d < 10 then ('0' as int + d) as char else ('A' as int + d - 10) as char
  }

  function EncodeByte(b: Byte): seq<Byte> {
    if IsSafe(b) then [b] else ['%', HexDigit(b as int / 16), HexDigit(b as int % 16)]
  }

  function Encode(s: seq<Byte>): seq<Byte> {
    if s == [] then [] else EncodeByte(s[0]) + Encode(s[1..])
  }

  lemma EncodeStep(s: seq<Byte>, i: nat)
    requires i < |s|
    ensures Encode(s[i..]) == EncodeByte(s[i]) + Encode(s[i + 1..])
  {
    hide EncodeByte;
    assert s[i..][1..] == s[i + 1..];
  }

  method EncodeUri(s: seq<Byte>) returns (out: seq<Byte>)
    ensures out == Encode(s)
  {
    hide EncodeByte, Encode;
    out := [];
    assert s[0..] == s;
    for i := 0 to |s|
      invariant out + Encode(s[i..]) == Encode(s)
    {
      EncodeStep(s, i);
      ghost var before := out;
      out := out + EncodeByte(s[i]);
      assert out + Encode(s[i + 1..]) == before + (EncodeByte(s[i]) + Encode(s[i + 1..]));
    }
    EncodeNothing();
    assert s[|s|..] == [];
  }

  lemma EncodeNothing()
    ensures Encode([]) == []
  {
  }

  function HexValue(c: Byte): Option<nat> {
    if IsDigit(c) then Some(c as int - '0' as int)
    else if 'A' <= c <= 'F' then Some(c as int - 'A' as int + 10)
    else if 'a' <= c <= 'f' then Some(c as int - 'a' as int + 10)
    else None
  }

  /** Percent-decoding of RFC 3986, section 2.1: `%` and two hexadecimal digits stand for one octet. */
  function PercentDecode(t: seq<Byte>): Option<seq<Byte>> {
    if t == [] then Some([])
    else if t[0] != '%' then
      match PercentDecode(t[1..]) case None => None case Some(rest) => Some([t[0]] + rest)
    else if |t| < 3 then None
    else
      var hi, lo := HexValue(t[1]), HexValue(t[2]);
      if hi.None? || lo.None? then None
      else match PercentDecode(t[3..]) case None => None case Some(rest) => Some([(16 * hi.value + lo.value) as char] + rest)
  }

  lemma {:induction false} EncodeRoundTrips(s: seq<Byte>)
    ensures PercentDecode(Encode(s)) == Some(s)
  {
    if s != [] {
      var b, rest := s[0], Encode(s[1..]);
      EncodeRoundTrips(s[1..]);
      assert s == [b] + s[1..];
      if IsSafe(b) {
        assert b != '%' && Encode(s)[1..] == rest;
      } else {
        var hi, lo := b as int / 16, b as int % 16;
        assert HexValue(HexDigit(hi)) == Some(hi) && HexValue(HexDigit(lo)) == Some(lo);
        assert Encode(s)[3..] == rest;
      }
    }
  }

  lemma EncodeIsInjective(s: seq<Byte>, t: seq<Byte>)
    requires Encode(s) == Encode(t)
    ensures s == t
  {
    EncodeRoundTrips(s);
    EncodeRoundTrips(t);
  }

  /** Unreserved characters of RFC 3986, section 2.3, and sub-delims of section 2.2. */
  predicate IsUnreserved(b: Byte) {
    'a' <= b <= 'z' || 'A' <= b <= 'Z' || '0' <= b <= '9' || b == '-' || b == '.' || b == '_' || b == '~'
  }

  predicate IsSubDelim(b: Byte) {
    b == '!' || b == '$' || b == '&' || b == '\'' || b == '(' || b == ')' || b == '*' || b == '+' || b == ',' || b == ';' || b == '='
  }

  predicate IsUpperHex(b: Byte) {
    '0' <= b <= '9' || 'A' <= b <= 'F'
  }

  /** A byte stands for itself iff it is a path character of section 3.3 other than the colon, or a slash; else three characters, upper case. */
  lemma EncodedByte(b: Byte)
    ensures Encode([b]) == [b] <==> IsUnreserved(b) || IsSubDelim(b) || b == '@' || b == '/'
    ensures Encode([b]) != [b] ==>
      |Encode([b])| == 3 && Encode([b])[0] == '%' && IsUpperHex(Encode([b])[1]) && IsUpperHex(Encode([b])[2])
  {
    assert [b][1..] == [];
    assert Encode([b]) == EncodeByte(b);
    assert |EncodeByte(b)| == 3 ==> EncodeByte(b) != [b];
  }

  /** Strings are encoded byte by byte. */
  lemma {:induction false} EncodedInTurn(s: seq<Byte>, t: seq<Byte>)
    ensures Encode(s + t) == Encode(s) + Encode(t)
  {
    if s == [] {
      assert s + t == t;
    } else {
      assert (s + t)[1..] == s[1..] + t;
      EncodedInTurn(s[1..], t);
    }
  }

  /** Nothing but safe characters and `%`: in particular no raw colon, which SARIF readers reject. */
  lemma {:induction false} EncodedIsSafe(s: seq<Byte>)
    ensures forall c :: c in Encode(s) ==> (IsSafe(c) || c == '%') && c != ':'
  {
    if s != [] {
      EncodedIsSafe(s[1..]);
      assert forall d: nat :: d < 16 ==> IsSafe(HexDigit(d));
    }
  }

  // ---- finding the line ------------------------------------------------------------------------------

  function DigitsEnd(s: seq<Byte>, k: nat): (r: nat)
    requires k <= |s|
    ensures k <= r <= |s| && AllDigits(s[k..r]) && (r < |s| ==> !IsDigit(s[r]))
    decreases |s| - k
  {
    if k < |s| && IsDigit(s[k]) then
      var r := DigitsEnd(s, k + 1);
      assert s[k..r] == [s[k]] + s[k + 1..r];
      r
    else k
  }

  /** A colon, digits, and then the end, a blank or an opening parenthesis. */
  predicate IsMarker(s: seq<Byte>, i: nat)
    requires i < |s|
  {
    && s[i] == ':'
    && var e := DigitsEnd(s, i + 1);
       e > i + 1 && (e == |s| || s[e] == ' ' || s[e] == '(')
  }

  /** The last marker strictly before k. */
  function LastMarker(s: seq<Byte>, k: nat): (r: Option<nat>)
    requires k <= |s|
    ensures r.Some? ==> r.value < k && IsMarker(s, r.value) && forall j :: r.value < j < k ==> !IsMarker(s, j)
    ensures r.None? ==> forall j :: 0 <= j < k ==> !IsMarker(s, j)
  {
    if k == 0 then None else if IsMarker(s, k - 1) then Some(k - 1) else LastMarker(s, k - 1)
  }

  const U32_LIMIT := 0x1_0000_0000

  /** `parse::<u32>().ok()` on a run of digits. */
  function ParseLine(digits: string): Option<nat>
    requires AllDigits(digits)
  {
    if Value(digits) < U32_LIMIT then Some(Value(digits)) else None
  }

  function UriAndLine(loc: seq<Byte>): (seq<Byte>, Option<nat>) {
    match LastMarker(loc, |loc|)
    case None => (Encode(loc), None)
    case Some(i) => (Encode(loc[..i]), ParseLine(loc[i + 1..DigitsEnd(loc, i + 1)]))
  }

  method ScanDigits(s: seq<Byte>, k: nat) returns (end: nat)
    requires k <= |s|
    ensures end == DigitsEnd(s, k)
  {
    end := k;
    while end < |s| && IsDigit(s[end])
      invariant k <= end <= |s|
      invariant DigitsEnd(s, k) == DigitsEnd(s, end)
    {
      end := end + 1;
    }
  }

  method LocationToUriAndLine(loc: seq<Byte>) returns (uri: seq<Byte>, line: Option<nat>)
    ensures (uri, line) == UriAndLine(loc)
  {
    hide Encode, DigitsEnd, ParseLine;
    var i := |loc|;
    while i > 0
      invariant 0 <= i <= |loc|
      invariant LastMarker(loc, |loc|) == LastMarker(loc, i)
    {
      i := i - 1;
      if loc[i] != ':' {
        continue;
      }
      var end := ScanDigits(loc, i + 1);
      var hasDigits := end > i + 1;
      var followedByBoundary := end == |loc| || loc[end] == ' ' || loc[end] == '(';
      if hasDigits && followedByBoundary {
        uri := EncodeUri(loc[..i]);
        return uri, ParseLine(loc[i + 1..end]);
      }
    }
    uri := EncodeUri(loc);
    return uri, None;
  }

  // ---- print and parse -----------------------------------------------------------------------------------

  function NumeralBytes(n: nat): seq<Byte> {
    seq(|Digits(n)|, i requires 0 <= i < |Digits(n)| => Digits(n)[i])
  }

  lemma NumeralIsDigits(n: nat)
    ensures NumeralBytes(n) == Digits(n)
  {
  }

  /** `file:line`, and whatever follows. */
  function PrintLine(file: seq<Byte>, line: nat, tail: seq<Byte>): seq<Byte> {
    file + [':'] + NumeralBytes(line) + tail
  }

  /** What follows a line: nothing, a blank, or an opening parenthesis. */
  predicate IsTail(tail: seq<Byte>) {
    tail == [] || tail[0] == ' ' || tail[0] == '('
  }

  /** ` (context)`. */
  function Tail(context: seq<Byte>): seq<Byte> {
    [' ', '('] + context + [')']
  }

  ghost predicate HasMarker(s: seq<Byte>) {
    exists i :: 0 <= i < |s| && IsMarker(s, i)
  }

  lemma {:induction false} DigitsEndShifts(pre: seq<Byte>, s: seq<Byte>, k: nat)
    requires k <= |s|
    ensures DigitsEnd(pre + s, |pre| + k) == |pre| + DigitsEnd(s, k)
    decreases |s| - k
  {
    if k < |s| {
      assert (pre + s)[|pre| + k] == s[k];
      if IsDigit(s[k]) {
        DigitsEndShifts(pre, s, k + 1);
      }
    }
  }

  lemma MarkerShifts(pre: seq<Byte>, s: seq<Byte>, i: nat)
    requires i < |s|
    ensures IsMarker(pre + s, |pre| + i) == IsMarker(s, i)
  {
    DigitsEndShifts(pre, s, i + 1);
    var e := DigitsEnd(s, i + 1);
    assert e < |s| ==> (pre + s)[|pre| + e] == s[e];
  }

  lemma {:induction false} DigitsEndOverRun(s: seq<Byte>, k: nat, e: nat)
    requires k <= e <= |s| && AllDigits(s[k..e]) && (e < |s| ==> !IsDigit(s[e]))
    ensures DigitsEnd(s, k) == e
    decreases e - k
  {
    if k < e {
      assert IsDigit(s[k..e][0]);
      assert s[k + 1..e] == s[k..e][1..];
      DigitsEndOverRun(s, k + 1, e);
    }
  }

  /** What parsing `file:line` should give. */
  function FileAndLine(file: seq<Byte>, line: nat): (seq<Byte>, Option<nat>) {
    (Encode(file), if line < 0x1_0000_0000 then Some(line) else None)
  }

  /**
   Print/parse round trip, for every path, line and tail: parsing gives the line (when it
   fits in 32 bits) and the encoded path back exactly when the tail carries no line marker
   of its own.
   */
  lemma PrintedLineRoundTrips(file: seq<Byte>, line: nat, tail: seq<Byte>)
    requires IsTail(tail)
    ensures UriAndLine(PrintLine(file, line, tail)) == FileAndLine(file, line) <==> !HasMarker(tail)
  {
    hide IsMarker, Encode, LastMarker, Value, ParseLine, IsTail;
    var loc := PrintLine(file, line, tail);
    var n := |file| + 1 + |NumeralBytes(line)|;
    PrintedMarker(file, line, tail);
    var i := LastMarker(loc, |loc|).value;
    if HasMarker(tail) {
      var j :| 0 <= j < |tail| && IsMarker(tail, j);
      assert IsMarker(loc, n + j);
      if Encode(loc[..i]) == Encode(file) {
        EncodeIsInjective(loc[..i], file);
      }
    } else {
      assert i == |file|;
      assert loc[..i] == file;
      ParsedLine(line);
    }
  }

  /** In particular `file:line (context)`, */
  lemma LocationRoundTrips(file: seq<Byte>, line: nat, context: seq<Byte>)
    ensures UriAndLine(file + [':'] + NumeralBytes(line) + [' ', '('] + context + [')']) == FileAndLine(file, line)
      <==> !HasMarker(Tail(context))
  {
    hide UriAndLine, HasMarker, FileAndLine;
    assert file + [':'] + NumeralBytes(line) + [' ', '('] + context + [')'] == PrintLine(file, line, Tail(context));
    PrintedLineRoundTrips(file, line, Tail(context));
  }

  /** `file:line(context)`, */
  lemma AttachedContextRoundTrips(file: seq<Byte>, line: nat, context: seq<Byte>)
    ensures UriAndLine(file + [':'] + NumeralBytes(line) + ['('] + context + [')']) == FileAndLine(file, line)
      <==> !HasMarker(['('] + context + [')'])
  {
    hide UriAndLine, HasMarker, FileAndLine;
    assert file + [':'] + NumeralBytes(line) + ['('] + context + [')'] == PrintLine(file, line, ['('] + context + [')']);
    PrintedLineRoundTrips(file, line, ['('] + context + [')']);
  }

  /** and `file:line` alone, for every file, also one with markers of its own. */
  lemma BareLocationRoundTrips(file: seq<Byte>, line: nat)
    ensures UriAndLine(file + [':'] + NumeralBytes(line)) == FileAndLine(file, line)
  {
    hide UriAndLine, FileAndLine;
    assert file + [':'] + NumeralBytes(line) == PrintLine(file, line, []);
    PrintedLineRoundTrips(file, line, []);
  }

  /** A column is taken for the line. */
  lemma ColumnsAreTakenForLines(file: seq<Byte>, line: nat, column: nat)
    ensures UriAndLine(file + [':'] + NumeralBytes(line) + [':'] + NumeralBytes(column))
      == FileAndLine(file + [':'] + NumeralBytes(line), column)
  {
    BareLocationRoundTrips(file + [':'] + NumeralBytes(line), column);
  }

  /** The location is `file:digits` with nothing, a blank or an opening parenthesis behind it. */
  predicate ReadsAs(loc: seq<Byte>, file: seq<Byte>, digits: seq<Byte>, tail: seq<Byte>) {
    loc == file + [':'] + digits + tail && digits != [] && AllDigits(digits) && IsTail(tail)
  }

  /** A location is encoded whole, without a line, if and only if it cannot be read as a file and a line. */
  lemma EncodedWholeIff(loc: seq<Byte>)
    ensures UriAndLine(loc) == (Encode(loc), None) <==> forall file, digits, tail :: !ReadsAs(loc, file, digits, tail)
  {
    hide Encode, LastMarker, ParseLine, IsMarker, DigitsEnd, IsTail;
    var i := LastMarker(loc, |loc|);
    if i.Some? {
      MarkerReads(loc, i.value);
      if Encode(loc[..i.value]) == Encode(loc) {
        EncodeIsInjective(loc[..i.value], loc);
      }
    }
    forall file, digits, tail | ReadsAs(loc, file, digits, tail)
      ensures i.Some?
    {
      DigitsAreOneMarker(file, digits, tail);
    }
  }

  lemma MarkerReads(loc: seq<Byte>, i: nat)
    requires i < |loc| && IsMarker(loc, i)
    ensures exists digits, tail :: ReadsAs(loc, loc[..i], digits, tail)
  {
    var e := DigitsEnd(loc, i + 1);
    assert loc == loc[..i] + [':'] + loc[i + 1..e] + loc[e..];
    assert ReadsAs(loc, loc[..i], loc[i + 1..e], loc[e..]);
  }

  /** A location in which no colon is directly followed by a digit has no line, and is encoded whole. */
  lemma LocationsWithoutALine(loc: seq<Byte>)
    requires forall i :: 0 <= i < |loc| - 1 && loc[i] == ':' ==> !('0' <= loc[i + 1] <= '9')
    ensures UriAndLine(loc) == (Encode(loc), None)
  {
    hide IsMarker, Encode, LastMarker, DigitsEnd, ParseLine;
    forall i | 0 <= i < |loc|
      ensures !IsMarker(loc, i)
    {
      if IsMarker(loc, i) {
        MarkerHasADigit(loc, i);
      }
    }
  }

  lemma MarkerHasADigit(s: seq<Byte>, i: nat)
    requires i < |s| && IsMarker(s, i)
    ensures i + 1 < |s| && s[i] == ':' && '0' <= s[i + 1] <= '9'
  {
    var e := DigitsEnd(s, i + 1);
    assert s[i + 1..e][0] == s[i + 1];
  }

  lemma ParsedLine(line: nat)
    ensures ParseLine(NumeralBytes(line)) == if line < U32_LIMIT then Some(line) else None
  {
    NumeralIsDigits(line);
    ValueOfDigits(line);
  }

  /** The printed line is a marker, no marker lies between it and the tail, and the tail keeps its own. */
  lemma PrintedMarker(file: seq<Byte>, line: nat, tail: seq<Byte>)
    requires IsTail(tail)
    ensures var loc := PrintLine(file, line, tail);
      var n := |file| + 1 + |NumeralBytes(line)|;
      && |loc| == n + |tail| && loc[..|file|] == file
      && IsMarker(loc, |file|) && DigitsEnd(loc, |file| + 1) == n && loc[|file| + 1..n] == NumeralBytes(line)
      && (forall j :: |file| < j < n ==> !IsMarker(loc, j))
      && (forall j :: n <= j < |loc| ==> IsMarker(loc, j) == IsMarker(tail, j - n))
  {
    hide IsMarker, DigitsEnd, NumeralBytes;
    var digits := NumeralBytes(line);
    var pre := file + [':'] + digits;
    NumeralIsDigits(line);
    DigitsAreOneMarker(file, digits, tail);
    assert PrintLine(file, line, tail) == pre + tail;
    assert (pre + tail)[..|file|] == file;
    forall j | |pre| <= j < |pre + tail|
      ensures IsMarker(pre + tail, j) == IsMarker(tail, j - |pre|)
    {
      MarkerShifts(pre, tail, j - |pre|);
    }
  }

  lemma DigitsAreOneMarker(file: seq<Byte>, digits: seq<Byte>, tail: seq<Byte>)
    requires digits != [] && AllDigits(digits) && IsTail(tail)
    ensures var loc := file + [':'] + digits + tail;
      var n := |file| + 1 + |digits|;
      && IsMarker(loc, |file|) && DigitsEnd(loc, |file| + 1) == n && loc[|file| + 1..n] == digits
      && forall j :: |file| < j < n ==> !IsMarker(loc, j)
  {
    hide DigitsEnd;
    var loc := file + [':'] + digits + tail;
    var n := |file| + 1 + |digits|;
    assert loc[|file| + 1..n] == digits;
    assert tail != [] ==> loc[n] == tail[0];
    DigitsEndOverRun(loc, |file| + 1, n);
    forall j | |file| < j < n
      ensures !IsMarker(loc, j)
    {
      assert loc[j] == digits[j - |file| - 1];
      assert IsDigit(digits[j - |file| - 1]);
    }
  }

  /** In particular whenever no colon of the context is directly followed by a digit. */
  lemma PlainContextsHaveNoMarker(context: seq<Byte>)
    requires forall i :: 0 <= i < |context| - 1 && context[i] == ':' ==> !IsDigit(context[i + 1])
    ensures !HasMarker(Tail(context))
  {
    var tail := Tail(context);
    forall i | 0 <= i < |tail|
      ensures !IsMarker(tail, i)
    {
      if tail[i] == ':' {
        assert tail[i] == context[i - 2];
        assert tail[i + 1] == if i - 1 < |context| then context[i - 1] else ')';
      }
    }
  }
}
