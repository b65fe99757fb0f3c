/** Strings as the host tools see them: decimal numbers, separators, prefixes and lines. */
module Text {

  // ----- decimal numbers

  predicate IsDigit(c: char) {
    '0' <= c <= '9'
  }

  predicate AllDigits(s: string) {
    forall k | 0 <= k < |s| :: IsDigit(s[k])
  }

  /** str(n) for a non-negative n. */
  function Decimal(n: nat): (s: string)
    ensures |s| > 0 && AllDigits(s)
  {
    if n < 10 then ["0123456789"[n]] else Decimal(n / 10) + ["0123456789"[n % 10]]
  }

  /** int(s) for a string of digits. */
  function Value(s: string): nat
    requires AllDigits(s)
  {
    if s == "" then 0 else 10 * Value(s[..|s| - 1]) + (s[|s| - 1] as int - '0' as int)
  }

  lemma {:induction false} ValueOfDecimal(n: nat)
    ensures Value(Decimal(n)) == n
  {
    if n >= 10 {
      ValueOfDecimal(n / 10);
      assert Decimal(n)[..|Decimal(n)| - 1] == Decimal(n / 10);
    }
  }

  lemma DecimalInjective(m: nat, n: nat)
    requires Decimal(m) == Decimal(n)
    ensures m == n
  {
    ValueOfDecimal(m);
    ValueOfDecimal(n);
  }

  // ----- prefixes, suffixes and substrings

  predicate StartsWith(s: string, p: string) {
    p <= s
  }

  predicate EndsWith(s: string, p: string) {
    |p| <= |s| && s[|s| - |p|..] == p
  }

  predicate OccursAt(s: string, p: string, k: int) {
    0 <= k <= |s| - |p| && s[k..k + |p|] == p
  }

  ghost predicate Contains(s: string, p: string) {
    exists k :: OccursAt(s, p, k)
  }

  lemma TrailingDigits(a: string, mark: char, d: string, s: string)
    requires !IsDigit(mark) && AllDigits(d) && s == a + [mark] + d
    ensures !IsDigit(s[|s| - 1 - |d|])
    ensures forall k | |s| - |d| <= k < |s| :: IsDigit(s[k])
  {
    forall k | |s| - |d| <= k < |s| ensures IsDigit(s[k]) {
      assert s[k] == d[k - |a| - 1];
    }
  }

  /** Two strings that both end in a number set off by a non-digit agree on both parts. */
  lemma TrailingNumberUnique(a: string, mark: char, d: string, a': string, d': string)
    requires !IsDigit(mark) && AllDigits(d) && AllDigits(d')
    requires a + [mark] + d == a' + [mark] + d'
    ensures a == a' && d == d'
  {
    var s := a + [mark] + d;
    TrailingDigits(a, mark, d, s);
    TrailingDigits(a', mark, d', s);
    assert |d| == |d'|;
    assert a == s[..|a|] && a' == s[..|a'|];
    assert d == s[|a| + 1..] && d' == s[|a'| + 1..];
  }

  // ----- separators

  /** str.split(c): always at least one part. */
  function Split(s: string, c: char): (r: seq<string>)
    ensures |r| >= 1
  {
    if s == "" then [""]
    else
      var r := Split(s[1..], c);
      if s[0] == c then [""] + r else [[s[0]] + r[0]] + r[1..]
  }

  /** c.join(parts). */
  function Join(parts: seq<string>, c: char): string {
    if parts == [] then ""
    else if |parts| == 1 then parts[0]
    else parts[0] + [c] + Join(parts[1..], c)
  }

  lemma {:induction false} SplitHead(a: string, c: char, rest: string)
    requires c !in a
    ensures Split(a + [c] + rest, c) == [a] + Split(rest, c)
  {
    var s := a + [c] + rest;
    if a == "" {
      assert s[1..] == rest;
    } else {
      SplitHead(a[1..], c, rest);
      assert s[1..] == a[1..] + [c] + rest;
      assert [a[0]] + a[1..] == a;
    }
  }

  lemma {:induction false} SplitNone(a: string, c: char)
    requires c !in a
    ensures Split(a, c) == [a]
  {
    if a != "" {
      SplitNone(a[1..], c);
      assert [a[0]] + a[1..] == a;
    }
  }

  lemma {:induction false} SplitJoin(parts: seq<string>, c: char)
    requires parts != []
    requires forall p | p in parts :: c !in p
    ensures Split(Join(parts, c), c) == parts
  {
    if |parts| == 1 {
      SplitNone(parts[0], c);
    } else {
      SplitJoin(parts[1..], c);
      SplitHead(parts[0], c, Join(parts[1..], c));
    }
  }

  /** No part of a split holds the separator. */
  lemma {:induction false} SplitPartsClean(s: string, c: char)
    ensures forall p | p in Split(s, c) :: c !in p
  {
    if s != "" {
      SplitPartsClean(s[1..], c);
    }
  }

  lemma {:induction false} JoinSnoc(parts: seq<string>, p: string, c: char)
    requires parts != []
    ensures Join(parts + [p], c) == Join(parts, c) + [c] + p
  {
    if |parts| == 1 {
      assert (parts + [p])[1..] == [p];
    } else {
      JoinSnoc(parts[1..], p, c);
      assert (parts + [p])[1..] == parts[1..] + [p];
    }
  }

  /** Joining the parts of a split gives the string back. */
  lemma {:induction false} JoinSplit(s: string, c: char)
    ensures Join(Split(s, c), c) == s
  {
    if s != "" {
      JoinSplit(s[1..], c);
      var r := Split(s[1..], c);
      if s[0] == c {
        assert ([""] + r)[1..] == r;
      } else {
        var parts := [[s[0]] + r[0]] + r[1..];
        assert parts[1..] == r[1..];
        assert [s[0]] + s[1..] == s;
      }
    }
  }

  // ----- lines

  /** The characters str.splitlines() breaks at. */
  predicate IsBreak(c: char) {
    || '\n' <= c <= '\r'
    || '\U{1c}' <= c <= '\U{1e}'
    || c == '\U{85}' || c == '\U{2028}' || c == '\U{2029}'
  }

  predicate HasBreak(s: string) {
    exists k | 0 <= k < |s| :: IsBreak(s[k])
  }

  function FirstBreak(s: string): (k: nat)
    ensures k <= |s| && !HasBreak(s[..k])
    ensures k < |s| ==> IsBreak(s[k])
  {
    if s == "" || IsBreak(s[0]) then 0 else 1 + FirstBreak(s[1..])
  }

  /** Where the next line starts, for a break at k: a CR LF pair is one break. */
  function NextLine(s: string, k: nat): (n: nat)
    requires k < |s|
    ensures k < n <= |s|
  {
    if s[k] == '\r' && k + 1 < |s| && s[k + 1] == '\n' then k + 2 else k + 1
  }

  /** str.splitlines(): no empty line after a final break. */
  function SplitLines(s: string): seq<string>
    decreases |s|
  {
    var k := FirstBreak(s);
    if s == "" then []
    else if k == |s| then [s]
    else [s[..k]] + SplitLines(s[NextLine(s, k)..])
  }

  lemma {:induction false} FirstBreakAfter(a: string, rest: string)
    requires !HasBreak(a)
    requires rest != "" && IsBreak(rest[0])
    ensures FirstBreak(a + rest) == |a|
  {
    if a == "" {
      assert a + rest == rest;
    } else {
      assert !IsBreak(a[0]);
      assert forall k | 0 <= k < |a[1..]| :: a[1..][k] == a[k + 1];
      FirstBreakAfter(a[1..], rest);
      assert (a + rest)[1..] == a[1..] + rest;
    }
  }

  /** A line ended by LF splits off whole. */
  lemma SplitLinesHead(a: string, rest: string)
    requires !HasBreak(a)
    ensures SplitLines(a + "\n" + rest) == [a] + SplitLines(rest)
  {
    var s := a + "\n" + rest;
    assert s == a + ("\n" + rest);
    FirstBreakAfter(a, "\n" + rest);
    assert s[..|a|] == a && s[|a|] == '\n' && s[|a| + 1..] == rest;
  }

  lemma SplitLinesLast(a: string)
    requires !HasBreak(a)
    ensures SplitLines(a) == if a == "" then [] else [a]
  {
  }

  lemma {:induction false} LinesHaveNoBreak(s: string)
    ensures forall l | l in SplitLines(s) :: !HasBreak(l)
    decreases |s|
  {
    var k := FirstBreak(s);
    if s != "" {
      if k == |s| {
        assert s[..k] == s;
      } else {
        LinesHaveNoBreak(s[NextLine(s, k)..]);
      }
    }
  }

  // ----- white space

  /** str.isspace() of one character; str.strip() and a pattern's \s use the same set. */
  predicate IsSpace(c: char) {
    || '\t' <= c <= '\r' || '\U{1c}' <= c <= ' '
    || c == '\U{85}' || c == '\U{a0}' || c == '\U{1680}'
    || '\U{2000}' <= c <= '\U{200a}'
    || c == '\U{2028}' || c == '\U{2029}' || c == '\U{202f}' || c == '\U{205f}' || c == '\U{3000}'
  }

  function StripLeft(s: string): string {
    if s != "" && IsSpace(s[0]) then StripLeft(s[1..]) else s
  }

  function StripRight(s: string): string {
    if s != "" && IsSpace(s[|s| - 1]) then StripRight(s[..|s| - 1]) else s
  }

  /** str.strip(). */
  function Strip(s: string): string {
    StripRight(StripLeft(s))
  }
}
