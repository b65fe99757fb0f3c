/**
 The list of storages, written to the node by the prepare phase and read there by the
 tests, and the pairs a cross-storage run covers.
 */
module Storages {
  import opened Text

  const KEY := "STORAGES="

  /** printf 'STORAGES=%s\n' of the names joined with commas. */
  function Print(names: seq<string>): string {
    KEY + Join(names, ',') + "\n"
  }

  function NonEmpty(parts: seq<string>): seq<string> {
    if parts == [] then []
    else (if parts[0] == "" then [] else [parts[0]]) + NonEmpty(parts[1..])
  }

  /** What one STORAGES= line says. */
  function ListOf(line: string): seq<string>
    requires StartsWith(line, KEY)
  {
    NonEmpty(Split(Strip(line[|KEY|..]), ','))
  }

  function FirstList(lines: seq<string>): seq<string> {
    if lines == [] then []
    else if StartsWith(lines[0], KEY) then ListOf(lines[0])
    else FirstList(lines[1..])
  }

  method StorageList(text: string) returns (names: seq<string>)
    ensures names == FirstList(SplitLines(text))
  {
    var lines := SplitLines(text);
    for i := 0 to |lines|
      invariant FirstList(lines) == FirstList(lines[i..])
    {
      assert lines[i..][0] == lines[i] && lines[i..][1..] == lines[i + 1..];
      if StartsWith(lines[i], KEY) {
        return ListOf(lines[i]);
      }
    }
    return [];
  }

  /** A name that gets through: something, and neither a comma nor a line break in it. */
  predicate IsListable(name: string) {
    name != "" && ',' !in name && !HasBreak(name)
  }

  /** No white space at the very ends of the list. */
  predicate HasBareEnds(names: seq<string>) {
    names == [] || (names[0] != "" && !IsSpace(names[0][0])
                    && names[|names| - 1] != "" && !IsSpace(names[|names| - 1][|names[|names| - 1]| - 1]))
  }

  lemma {:induction false} NonEmptyIsAll(parts: seq<string>)
    requires forall p | p in parts :: p != ""
    ensures NonEmpty(parts) == parts
  {
    if parts != [] {
      assert parts[0] in parts && forall p | p in parts[1..] :: p in parts;
      NonEmptyIsAll(parts[1..]);
    }
  }

  lemma {:induction false} NonEmptyAre(parts: seq<string>)
    ensures forall p :: p in NonEmpty(parts) <==> p in parts && p != ""
  {
    if parts != [] {
      NonEmptyAre(parts[1..]);
      assert parts == [parts[0]] + parts[1..];
    }
  }

  lemma {:induction false} JoinHasNoBreak(names: seq<string>)
    requires forall n | n in names :: !HasBreak(n)
    ensures !HasBreak(Join(names, ','))
  {
    if |names| > 1 {
      assert names[0] in names && forall n | n in names[1..] :: n in names;
      JoinHasNoBreak(names[1..]);
    } else if |names| == 1 {
      assert names[0] in names;
    }
  }

  lemma {:induction false} JoinEnds(names: seq<string>, c: char)
    requires names != [] && names[0] != "" && names[|names| - 1] != ""
    ensures var s := Join(names, c);
            s != "" && s[0] == names[0][0] && s[|s| - 1] == names[|names| - 1][|names[|names| - 1]| - 1]
  {
    if |names| > 1 {
      if |names| == 2 {
        assert names[1..] == [names[1]];
      } else {
        JoinTail(names[1..], c);
      }
    }
  }

  lemma {:induction false} JoinTail(names: seq<string>, c: char)
    requires names != [] && names[|names| - 1] != ""
    ensures var s := Join(names, c);
            s != "" && s[|s| - 1] == names[|names| - 1][|names[|names| - 1]| - 1]
  {
    if |names| > 1 {
      JoinTail(names[1..], c);
    }
  }

  lemma StripBare(s: string)
    requires s == "" || (!IsSpace(s[0]) && !IsSpace(s[|s| - 1]))
    ensures Strip(s) == s
  {
  }

  lemma {:induction false} StripLeftIsSuffix(s: string)
    ensures |StripLeft(s)| <= |s|
    ensures |StripLeft(s)| == |s| ==> StripLeft(s) == s && (s == "" || !IsSpace(s[0]))
  {
    if s != "" && IsSpace(s[0]) {
      StripLeftIsSuffix(s[1..]);
    }
  }

  lemma {:induction false} StripRightIsPrefix(s: string)
    ensures |StripRight(s)| <= |s|
    ensures |StripRight(s)| == |s| ==> StripRight(s) == s && (s == "" || !IsSpace(s[|s| - 1]))
  {
    if s != "" && IsSpace(s[|s| - 1]) {
      StripRightIsPrefix(s[..|s| - 1]);
    }
  }

  /** Stripping that takes nothing away finds bare ends. */
  lemma StripTakesSpace(s: string)
    ensures |Strip(s)| <= |s|
    ensures |Strip(s)| == |s| && s != "" ==> !IsSpace(s[0]) && !IsSpace(s[|s| - 1])
  {
    StripLeftIsSuffix(s);
    StripRightIsPrefix(StripLeft(s));
  }

  lemma PrintedLine(names: seq<string>)
    requires forall n | n in names :: !HasBreak(n)
    ensures SplitLines(Print(names)) == [KEY + Join(names, ',')]
    ensures (KEY + Join(names, ','))[|KEY|..] == Join(names, ',')
  {
    JoinHasNoBreak(names);
    var line := KEY + Join(names, ',');
    assert forall k | 0 <= k < |KEY| :: !IsBreak(KEY[k]);
    assert !HasBreak(line);
    SplitLinesHead(line, "");
    assert Print(names) == line + "\n" + "";
  }

  lemma ListIsRead(names: seq<string>)
    requires (forall n | n in names :: IsListable(n)) && HasBareEnds(names)
    ensures FirstList(SplitLines(Print(names))) == names
  {
    PrintedLine(names);
    var joined := Join(names, ',');
    if names == [] {
      StripBare(joined);
      assert Split(joined, ',') == [""] && NonEmpty([""]) == [];
    } else {
      assert names[0] in names && names[|names| - 1] in names;
      JoinEnds(names, ',');
      StripBare(joined);
      SplitJoin(names, ',');
      NonEmptyIsAll(names);
    }
  }

  lemma {:induction false} NonEmptyIsShorter(parts: seq<string>, c: char)
    ensures |Join(NonEmpty(parts), c)| <= |Join(parts, c)|
  {
    if parts != [] {
      NonEmptyIsShorter(parts[1..], c);
      var rest := NonEmpty(parts[1..]);
      assert parts[0] == "" ==> NonEmpty(parts) == [] + rest == rest;
      if parts[0] != "" && rest != [] {
        assert NonEmpty(parts)[1..] == rest;
        assert |parts| > 1;
      } else if parts[0] != "" {
        assert NonEmpty(parts) == [parts[0]] + [] == [parts[0]];
        assert Join([parts[0]], c) == parts[0];
        assert |Join(parts, c)| >= |parts[0]|;
      }
    }
  }

  /** Parts of a text without line breaks have none either. */
  lemma {:induction false} PartsHaveNoBreak(s: string, c: char)
    requires !HasBreak(s)
    ensures forall p | p in Split(s, c) :: !HasBreak(p)
  {
    if s != "" {
      assert !IsBreak(s[0]) && forall k | 0 <= k < |s[1..]| :: s[1..][k] == s[k + 1];
      PartsHaveNoBreak(s[1..], c);
      var r := Split(s[1..], c);
      assert r[0] in r && r == [r[0]] + r[1..];
      assert forall p | p in r[1..] :: p in r;
    }
  }

  lemma {:induction false} StripHasNoBreak(s: string)
    requires !HasBreak(s)
    ensures !HasBreak(Strip(s))
  {
    LeftHasNoBreak(s);
    RightHasNoBreak(StripLeft(s));
  }

  lemma {:induction false} LeftHasNoBreak(s: string)
    requires !HasBreak(s)
    ensures !HasBreak(StripLeft(s))
  {
    if s != "" && IsSpace(s[0]) {
      assert forall k | 0 <= k < |s[1..]| :: s[1..][k] == s[k + 1];
      LeftHasNoBreak(s[1..]);
    }
  }

  lemma {:induction false} RightHasNoBreak(s: string)
    requires !HasBreak(s)
    ensures !HasBreak(StripRight(s))
  {
    if s != "" && IsSpace(s[|s| - 1]) {
      RightHasNoBreak(s[..|s| - 1]);
    }
  }

  /** Every name in a list that was read is listable. */
  lemma {:induction false} ReadNamesAreListable(lines: seq<string>)
    requires forall l | l in lines :: !HasBreak(l)
    ensures forall n | n in FirstList(lines) :: IsListable(n)
  {
    if lines != [] {
      var line := lines[0];
      assert line in lines && forall l | l in lines[1..] :: l in lines;
      if StartsWith(line, KEY) {
        var value := line[|KEY|..];
        assert forall k | 0 <= k < |value| :: value[k] == line[|KEY| + k];
        StripHasNoBreak(value);
        PartsHaveNoBreak(Strip(value), ',');
        SplitPartsClean(Strip(value), ',');
        NonEmptyAre(Split(Strip(value), ','));
      } else {
        ReadNamesAreListable(lines[1..]);
      }
    }
  }

  /** The list comes back exactly when its names are listable and it has no white space at its ends. */
  lemma StorageListRoundTrip(names: seq<string>)
    ensures FirstList(SplitLines(Print(names))) == names <==> (forall n | n in names :: IsListable(n)) && HasBareEnds(names)
  {
    if (forall n | n in names :: IsListable(n)) && HasBareEnds(names) {
      ListIsRead(names);
    }
    if FirstList(SplitLines(Print(names))) == names && names != [] {
      LinesHaveNoBreak(Print(names));
      ReadNamesAreListable(SplitLines(Print(names)));
      assert names[0] in names && names[|names| - 1] in names;
      PrintedLine(names);
      var joined := Join(names, ',');
      NonEmptyIsShorter(Split(Strip(joined), ','), ',');
      JoinSplit(Strip(joined), ',');
      StripTakesSpace(joined);
      JoinEnds(names, ',');
    }
  }

  // ----- pairs

  function PairsOf(a: string, names: seq<string>): seq<(string, string)> {
    if names == [] then [] else (if a != names[0] then [(a, names[0])] else []) + PairsOf(a, names[1..])
  }

  function PairsFrom(firsts: seq<string>, names: seq<string>): seq<(string, string)> {
    if firsts == [] then [] else PairsOf(firsts[0], names) + PairsFrom(firsts[1..], names)
  }

  /** [(a, b) for a in found for b in found if a != b]. */
  function StoragePairs(names: seq<string>): seq<(string, string)> {
    PairsFrom(names, names)
  }

  ghost predicate Distinct(names: seq<string>) {
    forall i, j | 0 <= i < j < |names| :: names[i] != names[j]
  }

  lemma DistinctRest(names: seq<string>)
    requires names != [] && Distinct(names)
    ensures Distinct(names[1..]) && names[0] !in names[1..]
  {
    var rest := names[1..];
    assert forall i | 0 <= i < |rest| :: rest[i] == names[i + 1];
  }

  lemma {:induction false} PairsOfCount(a: string, names: seq<string>, p: (string, string))
    requires Distinct(names)
    ensures multiset(PairsOf(a, names))[p] == if p.0 == a && p.0 != p.1 && p.1 in names then 1 else 0
  {
    if names != [] {
      DistinctRest(names);
      PairsOfCount(a, names[1..], p);
      assert names == [names[0]] + names[1..];
    }
  }

  lemma {:induction false} PairsFromCount(firsts: seq<string>, names: seq<string>, p: (string, string))
    requires Distinct(firsts) && Distinct(names)
    ensures multiset(PairsFrom(firsts, names))[p] == if p.0 != p.1 && p.0 in firsts && p.1 in names then 1 else 0
  {
    if firsts != [] {
      DistinctRest(firsts);
      PairsFromCount(firsts[1..], names, p);
      PairsOfCount(firsts[0], names, p);
      assert firsts == [firsts[0]] + firsts[1..];
    }
  }

  lemma {:induction false} PairsOfLength(a: string, names: seq<string>)
    requires Distinct(names)
    ensures |PairsOf(a, names)| == |names| - if a in names then 1 else 0
  {
    if names != [] {
      DistinctRest(names);
      PairsOfLength(a, names[1..]);
      assert names == [names[0]] + names[1..];
    }
  }

  lemma {:induction false} PairsFromLength(firsts: seq<string>, names: seq<string>)
    requires Distinct(names) && forall f | f in firsts :: f in names
    ensures |PairsFrom(firsts, names)| == Times(|firsts|, |names| - 1)
  {
    if firsts != [] {
      assert firsts[0] in firsts && forall f | f in firsts[1..] :: f in firsts;
      PairsFromLength(firsts[1..], names);
      PairsOfLength(firsts[0], names);
    }
  }

  function Times(n: nat, m: int): int {
    if n == 0 then 0 else m + Times(n - 1, m)
  }

  lemma {:induction false} TimesIsProduct(n: nat, m: int)
    ensures Times(n, m) == n * m
  {
    if n > 0 {
      TimesIsProduct(n - 1, m);
      assert n * m == (n - 1) * m + m;
    }
  }

  /** With no storage listed twice, every ordered pair of different ones comes exactly once, and no other. */
  lemma EachPairOnce(names: seq<string>, p: (string, string))
    requires Distinct(names)
    ensures multiset(StoragePairs(names))[p] == if p.0 != p.1 && p.0 in names && p.1 in names then 1 else 0
  {
    PairsFromCount(names, names, p);
  }

  /** N storages give N*(N-1) round trips. */
  lemma PairCount(names: seq<string>)
    requires Distinct(names)
    ensures |StoragePairs(names)| == |names| * (|names| - 1)
  {
    PairsFromLength(names, names);
    TimesIsProduct(|names|, |names| - 1);
  }
}
