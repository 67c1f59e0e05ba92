/** String operations of the Rust standard library used by several parts. */
module Strings {
  import opened Wrappers

  // ------------------------------------------------------------------ split

  /** `str::split` on a set of characters. */
  function SplitOn(seps: set<char>, s: string): (parts: seq<string>)
    ensures parts != []
  {
    if s == [] then [[]]
    else
      var rest := SplitOn(seps, s[1..]);
      if s[0] in seps then [[]] + rest else [[s[0]] + rest[0]] + rest[1..]
  }

  predicate Free(seps: set<char>, s: string) {
    forall i :: 0 <= i < |s| ==> s[i] !in seps
  }

  lemma {:induction false} SplitFirst(seps: set<char>, s: string, k: nat)
    requires k <= |s| && (k < |s| ==> s[k] in seps) && Free(seps, s[..k])
    ensures SplitOn(seps, s) == [s[..k]] + (if k == |s| then [] else SplitOn(seps, s[k + 1..]))
  {
    if k == 0 {
      assert s[..0] == [];
    } else {
      assert s[0] == s[..k][0];
      assert s[1..][..k - 1] == s[..k][1..];
      SplitFirst(seps, s[1..], k - 1);
      assert s[..k] == [s[0]] + s[1..][..k - 1];
      if k < |s| { assert s[1..][k..] == s[k + 1..]; }
    }
  }

  lemma {:induction false} PartsAreFree(seps: set<char>, s: string)
    ensures forall p :: p in SplitOn(seps, s) ==> Free(seps, p)
  {
    if s == [] {
    } else {
      PartsAreFree(seps, s[1..]);
      assert SplitOn(seps, s[1..])[0] in SplitOn(seps, s[1..]);
    }
  }

  /** Strings with one separator between neighbours. */
  function JoinWith(sep: char, parts: seq<string>): string {
    if parts == [] then []
    else if |parts| == 1 then parts[0]
    else parts[0] + [sep] + JoinWith(sep, parts[1..])
  }

  lemma {:induction false} SplitJoined(sep: char, parts: seq<string>)
    requires parts != [] && forall p :: p in parts ==> Free({sep}, p)
    ensures SplitOn({sep}, JoinWith(sep, parts)) == parts
  {
    var p, s := parts[0], JoinWith(sep, parts);
    if |parts| == 1 {
      assert s[..|p|] == p;
      SplitFirst({sep}, s, |p|);
      assert parts == [p];
    } else {
      SplitJoined(sep, parts[1..]);
      assert s[..|p|] == p && s[|p| + 1..] == JoinWith(sep, parts[1..]);
      SplitFirst({sep}, s, |p|);
      assert parts == [p] + parts[1..];
    }
  }

  // ------------------------------------------------------------------- trim

  /** The Unicode White_Space property. */
  predicate Whitespace(c: char) {
    var u := c as int;
    || 0x9 <= u <= 0xD || u == 0x20 || u == 0x85 || u == 0xA0 || u == 0x1680
    || 0x2000 <= u <= 0x200A || u == 0x2028 || u == 0x2029 || u == 0x202F || u == 0x205F || u == 0x3000
  }

  const WHITE := "\U{9}\U{A}\U{B}\U{C}\U{D} \U{85}\U{A0}\U{1680}\U{2000}\U{2001}\U{2002}\U{2003}\U{2004}\U{2005}"
    + "\U{2006}\U{2007}\U{2008}\U{2009}\U{200A}\U{2028}\U{2029}\U{202F}\U{205F}\U{3000}"

  /** The twenty-five characters of it. */
  lemma WhitespaceIs(c: char)
    ensures Whitespace(c) <==> c in WHITE
  {}

  function TrimStart(s: string): string {
    if s != [] && Whitespace(s[0]) then TrimStart(s[1..]) else s
  }

  function TrimEnd(s: string): string {
    if s != [] && Whitespace(s[|s| - 1]) then TrimEnd(s[..|s| - 1]) else s
  }

  /** `str::trim`. */
  function Trim(s: string): string {
    TrimEnd(TrimStart(s))
  }

  predicate AllWhite(s: string) {
    forall i :: 0 <= i < |s| ==> Whitespace(s[i])
  }

  lemma {:induction false} TrimStartIs(pad: string, s: string)
    requires AllWhite(pad) && (s != [] ==> !Whitespace(s[0]))
    ensures TrimStart(pad + s) == s
  {
    if pad == [] {
      assert pad + s == s;
    } else {
      assert (pad + s)[1..] == pad[1..] + s;
      TrimStartIs(pad[1..], s);
    }
  }

  lemma {:induction false} TrimEndIs(s: string, pad: string)
    requires AllWhite(pad) && (s != [] ==> !Whitespace(s[|s| - 1]))
    ensures TrimEnd(s + pad) == s
  {
    if pad == [] {
      assert s + pad == s;
    } else {
      var shorter := pad[..|pad| - 1];
      assert (s + pad)[..|s + pad| - 1] == s + shorter;
      TrimEndIs(s, shorter);
    }
  }

  /** Trimming leaves what stands between the white space, and nothing of a string
      that is all white. */
  lemma TrimIsMiddle(left: string, s: string, right: string)
    requires AllWhite(left) && AllWhite(right)
    requires s != [] ==> !Whitespace(s[0]) && !Whitespace(s[|s| - 1])
    ensures Trim(left + s + right) == s
  {
    if s == [] {
      assert left + s + right == (left + right) + [];
      TrimStartIs(left + right, []);
    } else {
      assert left + s + right == left + (s + right);
      TrimStartIs(left, s + right);
      TrimEndIs(s, right);
    }
  }

  lemma {:induction false} TrimEndKeeps(s: string)
    ensures s != [] && !Whitespace(s[0]) ==> TrimEnd(s) != []
  {
    if s != [] && Whitespace(s[|s| - 1]) && |s| > 1 {
      TrimEndKeeps(s[..|s| - 1]);
    }
  }

  lemma {:induction false} TrimStartOf(s: string)
    ensures AllWhite(s) <==> TrimStart(s) == []
    ensures TrimStart(s) != [] ==> !Whitespace(TrimStart(s)[0])
  {
    if s != [] && Whitespace(s[0]) {
      TrimStartOf(s[1..]);
      assert s == [s[0]] + s[1..];
      if AllWhite(s[1..]) {
        forall i | 0 <= i < |s| ensures Whitespace(s[i]) { if i > 0 { assert s[i] == s[1..][i - 1]; } }
      }
    }
  }

  lemma BlankIff(s: string)
    ensures Trim(s) == [] <==> AllWhite(s)
  {
    TrimStartOf(s);
    TrimEndKeeps(TrimStart(s));
  }

  // ---------------------------------------------------------- letters, figures

  const UPPER := "ABCDEFGHIJKLMNOPQRSTUVWXYZ"
  const LOWER := "abcdefghijklmnopqrstuvwxyz"
  const FIGURES := "0123456789"

  /** They run through consecutive codes. */
  lemma RunOf(n: nat)
    ensures n < 26 ==> UPPER[n] as int == 65 + n && LOWER[n] as int == 97 + n
    ensures n < 10 ==> FIGURES[n] as int == 48 + n
  {}

  // ---------------------------------------------------------------- decimal

  predicate IsDigit(c: char) { '0' <= c <= '9' }

  function DigitChar(n: nat): (c: char)
    requires n < 10
    ensures IsDigit(c)
  {
    ('0' as int + n) as char
  }

  /** `format!("{n}")`. */
  function Print(n: nat): (s: string)
    ensures s != [] && forall i :: 0 <= i < |s| ==> IsDigit(s[i])
  {
    if n < 10 then [DigitChar(n)] else Print(n / 10) + [DigitChar(n % 10)]
  }

  /** Value of a non-empty string of digits. */
  function DigitsValue(s: string): Option<nat> {
    if s == [] then None
    else
      var c := s[|s| - 1];
      if !IsDigit(c) then None
      else if |s| == 1 then Some(c as int - '0' as int)
      else
        match DigitsValue(s[..|s| - 1])
        case None => None
        case Some(v) => Some(v * 10 + (c as int - '0' as int))
  }

  /** `str::parse::<usize>` on a 64-bit target: digits, an optional leading
      plus, no overflow. */
  function ParseUsize(s: string): Option<nat> {
    match DigitsValue(if |s| > 1 && s[0] == '+' then s[1..] else s)
    case None => None
    case Some(v) => if v < 0x1_0000_0000_0000_0000 then Some(v) else None
  }

  lemma {:induction false} PrintThenValue(n: nat)
    ensures DigitsValue(Print(n)) == Some(n)
  {
    if n >= 10 {
      PrintThenValue(n / 10);
      var s := Print(n);
      assert s[..|s| - 1] == Print(n / 10);
    }
  }

  lemma ParsePrinted(n: nat)
    requires n < 0x1_0000_0000_0000_0000
    ensures ParseUsize(Print(n)) == Some(n)
  {
    PrintThenValue(n);
    assert IsDigit(Print(n)[0]);
  }

  predicate AllDigits(s: string) {
    s != [] && forall i :: 0 <= i < |s| ==> IsDigit(s[i])
  }

  lemma {:induction false} DigitsHaveValue(s: string)
    ensures DigitsValue(s).Some? <==> AllDigits(s)
  {
    if |s| > 1 {
      DigitsHaveValue(s[..|s| - 1]);
      assert s == s[..|s| - 1] + [s[|s| - 1]];
    }
  }

  lemma {:induction false} LeadingZero(s: string)
    requires AllDigits(s)
    ensures DigitsValue(['0'] + s) == DigitsValue(s)
    decreases |s|
  {
    var t := ['0'] + s;
    if |s| == 1 {
      assert t[..1] == ['0'];
    } else {
      assert t[..|t| - 1] == ['0'] + s[..|s| - 1];
      LeadingZero(s[..|s| - 1]);
    }
  }

  /** Every form the parser takes: the decimal of a 64-bit number, with zeros or one
      plus sign in front of digits; anything else is refused. */
  lemma ParserReads(n: nat, s: string)
    ensures ParseUsize(Print(n)) == if n < 18_446_744_073_709_551_616 then Some(n) else None
    ensures AllDigits(s) ==> ParseUsize(['0'] + s) == ParseUsize(s) && ParseUsize(['+'] + s) == ParseUsize(s)
    ensures !AllDigits(s) && !(s != [] && s[0] == '+' && AllDigits(s[1..])) ==> ParseUsize(s) == None
  {
    PrintThenValue(n);
    assert IsDigit(Print(n)[0]);
    DigitsHaveValue(s);
    if s != [] { DigitsHaveValue(s[1..]); }
    if AllDigits(s) {
      LeadingZero(s);
      assert IsDigit(s[0]) && (['+'] + s)[1..] == s;
    }
  }

  lemma PrintIsTrimmed(n: nat)
    ensures Trim(Print(n)) == Print(n) && Trim([' '] + Print(n)) == Print(n)
  {
    var s := Print(n);
    assert IsDigit(s[0]) && IsDigit(s[|s| - 1]);
    assert ([' '] + s)[1..] == s;
  }

  lemma PrintIsShort(n: nat, k: nat)
    requires 0 < k <= 20 && n < Pow10(k)
    ensures |Print(n)| <= k
  {
    assert Pow10(1) == 10 * Pow10(0) == 10;
    if n >= 10 {
      PrintIsShort(n / 10, k - 1);
    }
  }

  function Pow10(k: nat): nat {
    if k == 0 then 1 else 10 * Pow10(k - 1)
  }
}
