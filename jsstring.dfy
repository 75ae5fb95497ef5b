/** The JavaScript string primitives the parser relies on, written out by hand:
  * `trim`, the `\s`, `\d` and `\w` character classes, literal search, `split`
  * with a string separator, `join` and `String(n)` for natural numbers. */
module JsString {
  import opened Types

  /** JavaScript WhiteSpace and LineTerminator code points: the set `trim` strips and `\s` matches. */
  const WhiteSpaceChars: set<char> := {
    '\t', '\n', '\U{B}', '\U{C}', '\r', ' ', '\U{A0}', '\U{1680}',
    '\U{2000}', '\U{2001}', '\U{2002}', '\U{2003}', '\U{2004}', '\U{2005}',
    '\U{2006}', '\U{2007}', '\U{2008}', '\U{2009}', '\U{200A}',
    '\U{2028}', '\U{2029}', '\U{202F}', '\U{205F}', '\U{3000}', '\U{FEFF}'
  }

  predicate IsWhite(c: char) {
    c in WhiteSpaceChars
  }

  /** `\d` without the `u` flag: the ASCII digits. */
  predicate IsDigit(c: char) {
    '0' <= c <= '9'
  }

  /** `\w`: ASCII letters, digits and underscore. */
  predicate IsWordChar(c: char) {
    IsDigit(c) || ('a' <= c <= 'z') || ('A' <= c <= 'Z') || c == '_'
  }

  /** Every character is white space; `!s.trim()` holds exactly for these strings. */
  predicate IsBlank(s: string) {
    forall i :: 0 <= i < |s| ==> IsWhite(s[i])
  }

  predicate NonBlank(s: string) {
    !IsBlank(s)
  }

  /** The number of white-space characters `s` starts with. */
  function LeadingWhite(s: string): (n: nat)
    ensures n <= |s| && IsBlank(s[..n]) && (n == |s| || !IsWhite(s[n]))
  {
    if |s| > 0 && IsWhite(s[0]) then
      var n := LeadingWhite(s[1..]) + 1;
      assert s[..n] == [s[0]] + s[1..][..n - 1];
      n
    else 0
  }

  /** The number of white-space characters `s` ends with. */
  function TrailingWhite(s: string): (n: nat)
    ensures n <= |s| && IsBlank(s[|s| - n..]) && (n == |s| || !IsWhite(s[|s| - n - 1]))
  {
    if |s| > 0 && IsWhite(s[|s| - 1]) then
      var n := TrailingWhite(s[..|s| - 1]) + 1;
      assert s[|s| - n..] == s[..|s| - 1][|s| - n..] + [s[|s| - 1]];
      n
    else 0
  }

  /** `s` with its leading white space removed. */
  function TrimStart(s: string): (r: string)
    ensures r == [] || !IsWhite(r[0])
  {
    s[LeadingWhite(s)..]
  }

  /** `s` with its trailing white space removed. */
  function TrimEnd(s: string): (r: string)
    ensures r == [] || !IsWhite(r[|r| - 1])
  {
    s[..|s| - TrailingWhite(s)]
  }

  /** `s.trim()`. */
  function Trim(s: string): (r: string)
    ensures |r| <= |s|
    ensures r == [] <==> IsBlank(s)
    ensures r == [] || (!IsWhite(r[0]) && !IsWhite(r[|r| - 1]))
  {
    TrimStartEmpty(s);
    TrimEndEmpty(TrimStart(s));
    TrimEnd(TrimStart(s))
  }

  lemma TrimStartEmpty(s: string)
    ensures TrimStart(s) == [] <==> IsBlank(s)
  {
    var a := LeadingWhite(s);
    if a == |s| {
      assert s[..a] == s;
    }
  }

  lemma TrimEndEmpty(t: string)
    ensures TrimEnd(t) == [] <==> IsBlank(t)
    ensures TrimEnd(t) != [] ==> TrimEnd(t)[0] == t[0]
  {
    var b := TrailingWhite(t);
    if b == |t| {
      assert t[|t| - b..] == t;
    }
  }

  /** A string that neither starts nor ends with white space is its own trim. */
  lemma TrimUnchanged(s: string)
    requires s == [] || (!IsWhite(s[0]) && !IsWhite(s[|s| - 1]))
    ensures Trim(s) == s
  {
  }

  /** Trimming twice is trimming once. */
  lemma TrimIdempotent(s: string)
    ensures Trim(Trim(s)) == Trim(s)
  {
    TrimUnchanged(Trim(s));
  }

  /** Removing leading white space before trimming changes nothing. */
  lemma TrimAfterTrimStart(s: string)
    ensures Trim(TrimStart(s)) == Trim(s)
  {
    var t := TrimStart(s);
    assert LeadingWhite(t) == 0;
  }

  /** `pat` occurs in `s` starting at index `i`. */
  predicate OccursAt(s: string, pat: string, i: nat) {
    i + |pat| <= |s| && s[i..i + |pat|] == pat
  }

  /** `s.indexOf(pat, from)`: the first index at or after `from` where `pat`
    * occurs, or -1; the scan a regular expression makes for a literal. That it
    * is the first is FindIsFirst. */
  function Find(s: string, pat: string, from: nat): (r: int)
    ensures r == -1 || (from <= r && OccursAt(s, pat, r))
    decreases |s| - from
  {
    if from + |pat| > |s| then -1
    else if s[from..from + |pat|] == pat then from
    else Find(s, pat, from + 1)
  }

  /** `Find` returns the first occurrence at or after `from`, and -1 only when
    * there is none. */
  lemma {:induction false} FindIsFirst(s: string, pat: string, from: nat)
    ensures forall k :: from <= k < Find(s, pat, from) ==> !OccursAt(s, pat, k)
    ensures Find(s, pat, from) < 0 ==> forall k :: from <= k ==> !OccursAt(s, pat, k)
    decreases |s| - from
  {
    if from + |pat| <= |s| && s[from..from + |pat|] != pat {
      FindIsFirst(s, pat, from + 1);
    }
  }

  /** `pat` occurs somewhere in `s`. */
  ghost predicate Contains(s: string, pat: string) {
    exists k :: OccursAt(s, pat, k)
  }

  /** The trim of `s` is the part of `s` between its leading and trailing white space. */
  lemma TrimIsInner(s: string)
    ensures LeadingWhite(s) + |Trim(s)| <= |s|
    ensures Trim(s) == s[LeadingWhite(s)..LeadingWhite(s) + |Trim(s)|]
  {
  }

  /** `trim` removes exactly the white space around the text: the result is
    * the middle of `s`, and what is cut off on either side is blank. */
  lemma TrimRemovesOnlyWhite(s: string)
    ensures var a := LeadingWhite(s);
      a + |Trim(s)| <= |s| && Trim(s) == s[a..a + |Trim(s)|]
      && IsBlank(s[..a]) && IsBlank(s[a + |Trim(s)|..])
  {
    TrimIsInner(s);
    TrimTailBlank(s);
  }

  /** What `trim` cuts off after the text is white space. */
  lemma TrimTailBlank(s: string)
    ensures LeadingWhite(s) + |Trim(s)| <= |s| && IsBlank(s[LeadingWhite(s) + |Trim(s)|..])
  {
    var a := LeadingWhite(s);
    var t := s[a..];
    var e := |t| - TrailingWhite(t);
    assert |Trim(s)| == e by {
      assert Trim(s) == t[..e];
    }
    BlankSuffixOfSlice(s, a, e);
  }

  lemma BlankSuffixOfSlice(s: string, a: nat, e: nat)
    requires a + e <= |s| && IsBlank(s[a..][e..])
    ensures IsBlank(s[a + e..])
  {
    assert s[a..][e..] == s[a + e..];
  }

  /** Trimming never brings a pattern into a string that did not contain it. */
  lemma ContainsOfTrim(s: string, pat: string)
    requires Contains(Trim(s), pat)
    ensures Contains(s, pat)
  {
    var k: nat :| OccursAt(Trim(s), pat, k);
    TrimIsInner(s);
    var a := LeadingWhite(s);
    OccursInSlice(s, pat, a, a + |Trim(s)|, k);
  }

  /** An occurrence inside a slice is an occurrence in the whole string. */
  lemma OccursInSlice(s: string, pat: string, a: nat, b: nat, k: nat)
    requires a <= b <= |s| && OccursAt(s[a..b], pat, k)
    ensures OccursAt(s, pat, a + k)
  {
    forall i | 0 <= i < |pat| ensures s[a + k..a + k + |pat|][i] == pat[i] {
      assert s[a..b][k..k + |pat|][i] == pat[i];
    }
  }

  /** `s.split(sep)` for a non-empty literal separator: the pieces between the
    * occurrences of `sep`, found left to right without overlap. */
  function Split(s: string, sep: string): (r: seq<string>)
    requires sep != []
    ensures |r| >= 1
    decreases |s|, 1
  {
    SplitAt(s, sep, Find(s, sep, 0))
  }

  /** `Split` once the first occurrence of `sep` (or -1) is known. */
  function SplitAt(s: string, sep: string, i: int): (r: seq<string>)
    requires sep != [] && (i == -1 || (0 <= i && i + |sep| <= |s|))
    ensures |r| >= 1
    decreases |s|, 0
  {
    if i < 0 then [s] else [s[..i]] + Split(s[i + |sep|..], sep)
  }

  /** `parts.join(sep)`. */
  function Join(parts: seq<string>, sep: string): string
  {
    if parts == [] then []
    else if |parts| == 1 then parts[0]
    else parts[0] + sep + Join(parts[1..], sep)
  }

  /** An occurrence inside a prefix is an occurrence in the whole string. */
  lemma OccursInPrefix(s: string, pat: string, i: nat, k: nat)
    requires i <= |s| && OccursAt(s[..i], pat, k)
    ensures OccursAt(s, pat, k)
  {
    assert s[..i][k..k + |pat|] == s[k..k + |pat|];
  }

  /** The text before the first occurrence of `pat` does not contain `pat`. */
  lemma BeforeFirstFree(s: string, pat: string, i: nat)
    requires pat != [] && Find(s, pat, 0) == i
    ensures !Contains(s[..i], pat)
  {
    if Contains(s[..i], pat) {
      var k: nat :| OccursAt(s[..i], pat, k);
      OccursInPrefix(s, pat, i, k);
      FindIsFirst(s, pat, 0);
    }
  }

  /** Splitting at the first occurrence: the first piece, then the split of the rest. */
  lemma SplitUnfold(s: string, sep: string, i: nat)
    requires sep != [] && Find(s, sep, 0) == i
    ensures i + |sep| <= |s|
    ensures Split(s, sep) == [s[..i]] + Split(s[i + |sep|..], sep)
  {
  }

  /** Joining the pieces of a split with the same separator gives back the string. */
  lemma {:induction false} SplitJoin(s: string, sep: string)
    requires sep != []
    ensures Join(Split(s, sep), sep) == s
    decreases |s|
  {
    var i := Find(s, sep, 0);
    if i >= 0 {
      SplitUnfold(s, sep, i);
      var rest := s[i + |sep|..];
      var tail := Split(rest, sep);
      SplitJoin(rest, sep);
      assert s == s[..i] + s[i..i + |sep|] + rest;
      assert ([s[..i]] + tail)[1..] == tail;
      assert Join([s[..i]] + tail, sep) == s[..i] + sep + Join(tail, sep);
    }
  }

  /** No piece of a split contains the separator. */
  lemma {:induction false} SplitPiecesFree(s: string, sep: string)
    requires sep != []
    ensures forall j :: 0 <= j < |Split(s, sep)| ==> !Contains(Split(s, sep)[j], sep)
    decreases |s|
  {
    var i := Find(s, sep, 0);
    FindIsFirst(s, sep, 0);
    if i >= 0 {
      SplitUnfold(s, sep, i);
      var rest := s[i + |sep|..];
      SplitPiecesFree(rest, sep);
      BeforeFirstFree(s, sep, i);
    }
  }

  /** The text before the first line break, or all of it. */
  function FirstLine(s: string): (r: string)
    ensures |r| <= |s| && r == s[..|r|] && !Contains(r, "\n")
    ensures |r| < |s| ==> s[|r|] == '\n'
  {
    var i := Find(s, "\n", 0);
    FindIsFirst(s, "\n", 0);
    if i < 0 then s
    else
      BeforeFirstFree(s, "\n", i);
      s[..i]
  }

  /** The text after the first line break, or nothing when there is none. */
  function AfterFirstLine(s: string): (r: string)
    ensures |FirstLine(s)| < |s| ==> s == FirstLine(s) + "\n" + r
    ensures |FirstLine(s)| == |s| ==> r == []
  {
    var i := Find(s, "\n", 0);
    if i < 0 then [] else s[i + 1..]
  }

  /** `const [first, ...rest] = s.split('\n')`: `first` is the first line and
    * `rest.join('\n')` is everything after the first line break. */
  lemma LinesOfSplit(s: string)
    ensures Split(s, "\n")[0] == FirstLine(s)
    ensures Join(Split(s, "\n")[1..], "\n") == AfterFirstLine(s)
  {
    if Find(s, "\n", 0) >= 0 {
      LinesOfSplitAt(s, Find(s, "\n", 0));
    } else {
      LinesWithoutBreak(s);
    }
  }

  lemma LinesWithoutBreak(s: string)
    requires Find(s, "\n", 0) < 0
    ensures Split(s, "\n")[0] == FirstLine(s)
    ensures Join(Split(s, "\n")[1..], "\n") == AfterFirstLine(s)
  {
  }

  lemma LinesOfSplitAt(s: string, i: nat)
    requires Find(s, "\n", 0) == i
    ensures Split(s, "\n")[0] == FirstLine(s)
    ensures Join(Split(s, "\n")[1..], "\n") == AfterFirstLine(s)
  {
    SplitUnfold(s, "\n", i);
    var rest := Split(s[i + 1..], "\n");
    assert Split(s, "\n")[1..] == rest;
    SplitJoin(s[i + 1..], "\n");
  }

  /** The length of the longest prefix of `s` whose characters all satisfy `p`:
    * what a greedy `\d+` or `\w*` consumes. */
  function LeadingRun(s: string, p: char -> bool): (n: nat)
    ensures n <= |s| && (n == |s| || !p(s[n]))
    ensures forall i :: 0 <= i < n ==> p(s[i])
  {
    if |s| > 0 && p(s[0]) then LeadingRun(s[1..], p) + 1 else 0
  }

  /** A run that ends at a character outside the class is the longest one. */
  lemma LeadingRunAt(s: string, p: char -> bool, k: nat)
    requires k < |s| && !p(s[k]) && forall i :: 0 <= i < k ==> p(s[i])
    ensures LeadingRun(s, p) == k
  {
  }

  /** The decimal digit for `d < 10`. */
  function DigitChar(d: nat): (c: char)
    requires d < 10
    ensures IsDigit(c)
  {
    "0123456789"[d]
  }

  /** `String(n)` for a natural number: its decimal representation. */
  function NatToString(n: nat): (r: string)
    ensures |r| >= 1
    ensures forall i :: 0 <= i < |r| ==> IsDigit(r[i])
    ensures |r| > 1 ==> r[0] != '0'
  {
    if n < 10 then [DigitChar(n)] else NatToString(n / 10) + [DigitChar(n % 10)]
  }

  /** The value of a string of decimal digits. */
  function DigitsValue(s: string): nat
    requires forall i :: 0 <= i < |s| ==> IsDigit(s[i])
  {
    if s == [] then 0
    else
      assert IsDigit(s[|s| - 1]);
      DigitsValue(s[..|s| - 1]) * 10 + (s[|s| - 1] as int - '0' as int)
  }

  /** Reading back a decimal representation gives the number. */
  lemma {:induction false} NatToStringValue(n: nat)
    ensures DigitsValue(NatToString(n)) == n
  {
    if n < 10 {
      assert DigitChar(n) as int - '0' as int == n;
    } else {
      NatToStringValue(n / 10);
      var r := NatToString(n);
      assert r[..|r| - 1] == NatToString(n / 10);
      assert DigitChar(n % 10) as int - '0' as int == n % 10;
    }
  }

  /** Distinct numbers have distinct decimal representations. */
  lemma NatToStringInjective(a: nat, b: nat)
    ensures NatToString(a) == NatToString(b) ==> a == b
  {
    NatToStringValue(a);
    NatToStringValue(b);
  }
}
