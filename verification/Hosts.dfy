/**
 The rewrite of /etc/hosts that teaches a node its peers: lines that name a member go, one
 line a member is appended, duplicates are dropped.
 */
module Hosts {
  import opened Text
  import opened Wrappers
  import Nodes

  datatype Member = Member(name: string, ip: string)

  /** [[:space:]]. */
  predicate IsBlank(c: char) {
    c == ' ' || '\t' <= c <= '\r'
  }

  predicate IsNameChar(c: char) {
    IsDigit(c) || 'a' <= c <= 'z' || 'A' <= c <= 'Z' || c == '-'
  }

  /** Host names as the lab makes them: nothing in them is special to a pattern or to the file. */
  predicate IsName(s: string) {
    s != "" && forall k | 0 <= k < |s| :: IsNameChar(s[k])
  }

  predicate IsField(s: string) {
    s != "" && forall k | 0 <= k < |s| :: !IsBlank(s[k]) && s[k] != '#'
  }

  predicate IsAddress(s: string) {
    IsField(s) && '.' in s
  }

  ghost predicate AreMembers(members: seq<Member>) {
    && (forall m | m in members :: IsName(m.name) && IsAddress(m.ip))
    && forall i, j | 0 <= i < j < |members| :: members[i].name != members[j].name
  }

  function Entry(m: Member): string {
    m.ip + " " + (m.name + ".local" + (" " + m.name))
  }

  function Entries(members: seq<Member>): seq<string> {
    if members == [] then [] else [Entry(members[0])] + Entries(members[1..])
  }

  // ----- the script's patterns

  predicate NameAt(line: string, name: string, k: nat) {
    && k < |line| && IsBlank(line[k]) && StartsWith(line[k + 1..], name)
    && (k + 1 + |name| == |line| || IsBlank(line[k + 1 + |name|]) || line[k + 1 + |name|] == '.')
  }

  /** [[:space:]]name\([[:space:]]\|\.\|$\). */
  predicate Names(line: string, name: string) {
    exists k: nat | k < |line| :: NameAt(line, name, k)
  }

  predicate LoopbackAt(line: string, k: nat) {
    k + 9 <= |line| && line[k..k + 3] == "127" && line[k + 4] == '0' && line[k + 6] == '1' && line[k + 8] == '1'
  }

  /** 127.0.1.1, in which a dot is any character. */
  predicate IsLoopback(line: string) {
    exists k: nat | k < |line| :: LoopbackAt(line, k)
  }

  predicate NamesAny(line: string, members: seq<Member>) {
    exists i | 0 <= i < |members| :: Names(line, members[i].name)
  }

  predicate Stays(line: string, members: seq<Member>) {
    !IsLoopback(line) && !NamesAny(line, members)
  }

  /** The lines the deletions leave. */
  function Kept(lines: seq<string>, members: seq<Member>): seq<string> {
    if lines == [] then []
    else
      var front, last := lines[..|lines| - 1], lines[|lines| - 1];
      if Stays(last, members) then Kept(front, members) + [last] else Kept(front, members)
  }

  /** awk '!seen[$0]++': the first of equal lines. */
  function Dedup(lines: seq<string>): seq<string> {
    if lines == [] then []
    else
      var front, last := lines[..|lines| - 1], lines[|lines| - 1];
      if last in front then Dedup(front) else Dedup(front) + [last]
  }

  /** Appending to a file whose last line is not ended continues that line. */
  function Appended(lines: seq<string>, ended: bool, more: seq<string>): seq<string> {
    if lines == [] || ended || more == [] then lines + more
    else lines[..|lines| - 1] + [lines[|lines| - 1] + more[0]] + more[1..]
  }

  /** The last line that is left ends in a line feed: it did before, or a longer file's end is gone. */
  predicate EndsClean(lines: seq<string>, ended: bool, members: seq<Member>) {
    ended || lines == [] || !Stays(lines[|lines| - 1], members)
  }

  function Rewritten(lines: seq<string>, ended: bool, members: seq<Member>): seq<string> {
    Dedup(Appended(Kept(lines, members), EndsClean(lines, ended, members), Entries(members)))
  }

  /** A last line that is not ended is not empty either. */
  ghost predicate IsFile(lines: seq<string>, ended: bool) {
    !ended ==> lines != [] && lines[|lines| - 1] != ""
  }

  class HostsFile {
    var lines: seq<string>
    var ended: bool  // the last line ends in a line feed

    ghost predicate Valid()
      reads this
    {
      IsFile(lines, ended)
    }

    constructor (lines: seq<string>, ended: bool)
      requires IsFile(lines, ended)
      ensures Valid() && this.lines == lines && this.ended == ended
    {
      this.lines, this.ended := lines, ended;
    }

    /** sed -i '/pattern/d'. */
    method Delete(pattern: Pattern)
      requires Valid()
      modifies this
      ensures Valid()
      ensures lines == Without(old(lines), pattern)
      ensures ended <==> (old(ended) || old(lines) == [] || Hits(pattern, old(lines)[|old(lines)| - 1]))
    {
      var out := [];
      var endedOut := true;
      for i := 0 to |lines|
        invariant lines == old(lines) && ended == old(ended)
        invariant out == Without(lines[..i], pattern)
        invariant endedOut <==> (i < |lines| || i == 0 || ended || Hits(pattern, lines[i - 1]))
      {
        assert lines[..i + 1][..i] == lines[..i];
        if !Hits(pattern, lines[i]) {
          out := out + [lines[i]];
        }
        endedOut := i + 1 < |lines| || ended || Hits(pattern, lines[i]);
      }
      assert lines[..|lines|] == lines;
      lines, ended := out, endedOut;
    }

    /** printf %b "$block" >> file, for a block of whole lines. */
    method Append(block: seq<string>)
      requires Valid()
      modifies this
      ensures Valid()
      ensures lines == Appended(old(lines), old(ended), block)
      ensures ended <==> (old(ended) || block != [])
    {
      if block != [] {
        lines := if ended then lines + block
                 else lines[..|lines| - 1] + [lines[|lines| - 1] + block[0]] + block[1..];
        ended := true;
      }
    }

    /** awk '!seen[$0]++' into a new file that takes this one's place. */
    method DropDuplicates()
      requires Valid()
      modifies this
      ensures Valid() && ended
      ensures lines == Dedup(old(lines))
    {
      var out, seen := [], {};
      for i := 0 to |lines|
        invariant lines == old(lines)
        invariant out == Dedup(lines[..i])
        invariant seen == set k | 0 <= k < i :: lines[k]
      {
        assert lines[..i + 1][..i] == lines[..i];
        assert lines[i] in seen <==> lines[i] in lines[..i];
        if lines[i] !in seen {
          out := out + [lines[i]];
        }
        seen := seen + {lines[i]};
      }
      assert lines[..|lines|] == lines;
      lines, ended := out, true;
    }

    /** The whole script. */
    method Rewrite(members: seq<Member>)
      requires Valid()
      modifies this
      ensures Valid() && ended
      ensures lines == Rewritten(old(lines), old(ended), members)
    {
      ghost var was := lines;
      Delete(Loopback);
      KeptStarts(was);
      for i := 0 to |members|
        invariant Valid()
        invariant lines == Kept(was, members[..i])
        invariant ended <==> EndsClean(was, old(ended), members[..i])
      {
        KeptStep(was, members, i);
        Delete(OfName(members[i].name));
      }
      assert members[..|members|] == members;
      Append(Entries(members));
      DropDuplicates();
    }
  }

  datatype Pattern = Loopback | OfName(name: string)

  predicate Hits(pattern: Pattern, line: string) {
    match pattern
    case Loopback => IsLoopback(line)
    case OfName(name) => Names(line, name)
  }

  function Without(lines: seq<string>, pattern: Pattern): seq<string> {
    if lines == [] then []
    else
      var front, last := lines[..|lines| - 1], lines[|lines| - 1];
      if Hits(pattern, last) then Without(front, pattern) else Without(front, pattern) + [last]
  }

  lemma {:induction false} KeptStarts(lines: seq<string>)
    ensures Without(lines, Loopback) == Kept(lines, [])
  {
    if lines != [] {
      KeptStarts(lines[..|lines| - 1]);
    }
  }

  lemma StaysStep(line: string, members: seq<Member>, i: nat)
    requires i < |members|
    ensures Stays(line, members[..i + 1]) <==> Stays(line, members[..i]) && !Names(line, members[i].name)
  {
    assert forall k | 0 <= k < i :: members[..i][k] == members[..i + 1][k];
    assert members[..i + 1][i] == members[i];
  }

  lemma {:induction false} KeptStep(lines: seq<string>, members: seq<Member>, i: nat)
    requires i < |members|
    ensures Without(Kept(lines, members[..i]), OfName(members[i].name)) == Kept(lines, members[..i + 1])
    ensures lines != [] ==>
      (Stays(lines[|lines| - 1], members[..i + 1]) <==>
       Stays(lines[|lines| - 1], members[..i]) && !Names(lines[|lines| - 1], members[i].name))
  {
    if lines != [] {
      var front, last := lines[..|lines| - 1], lines[|lines| - 1];
      KeptStep(front, members, i);
      StaysStep(last, members, i);
      var kept := Kept(front, members[..i]);
      assert (kept + [last])[..|kept|] == kept;
    }
  }

  // ----- looking a name up

  /** A line up to its comment. */
  function Uncommented(s: string): string {
    if s == "" || s[0] == '#' then "" else [s[0]] + Uncommented(s[1..])
  }

  /** The blank-separated fields of s, when `word` is what the current field has so far. */
  function FieldsFrom(s: string, word: string): seq<string>
    decreases |s|
  {
    if s == "" then (if word == "" then [] else [word])
    else if IsBlank(s[0]) then (if word == "" then [] else [word]) + FieldsFrom(s[1..], "")
    else FieldsFrom(s[1..], word + [s[0]])
  }

  function Fields(line: string): seq<string> {
    FieldsFrom(Uncommented(line), "")
  }

  /** The address a line gives a name, if it gives one. */
  function AddressFor(line: string, name: string): Option<string> {
    var fields := Fields(line);
    if fields != [] && name in fields[1..] then Some(fields[0]) else None
  }

  /** The first line that has the name decides. */
  function Resolve(lines: seq<string>, name: string): Option<string> {
    if lines == [] then None
    else if AddressFor(lines[0], name).Some? then AddressFor(lines[0], name)
    else Resolve(lines[1..], name)
  }

  // ----- what an appended line says

  lemma {:induction false} NothingToUncomment(s: string)
    requires '#' !in s
    ensures Uncommented(s) == s
  {
    if s != "" {
      NothingToUncomment(s[1..]);
      assert s == [s[0]] + s[1..];
    }
  }

  /** A run without blanks joins the field it continues. */
  lemma {:induction false} RunJoinsField(run: string, rest: string, word: string)
    requires forall k | 0 <= k < |run| :: !IsBlank(run[k])
    ensures FieldsFrom(run + rest, word) == FieldsFrom(rest, word + run)
  {
    if run == "" {
      assert run + rest == rest && word + run == word;
    } else {
      assert !IsBlank(run[0]) && (run + rest)[1..] == run[1..] + rest;
      assert forall k | 0 <= k < |run[1..]| :: run[1..][k] == run[k + 1];
      RunJoinsField(run[1..], rest, word + [run[0]]);
      assert word + [run[0]] + run[1..] == word + run;
    }
  }

  lemma NameIsPlain(name: string)
    requires IsName(name)
    ensures IsField(name) && '.' !in name && '#' !in name && IsField(name + ".local")
  {
    assert forall k | 0 <= k < |name| :: IsNameChar(name[k]);
    assert forall k | 0 <= k < 6 :: !IsBlank(".local"[k]) && ".local"[k] != '#';
  }

  lemma FieldThenBlank(field: string, rest: string, word: string)
    requires IsField(field)
    ensures FieldsFrom(field + (" " + rest), word) == [word + field] + FieldsFrom(rest, "")
  {
    RunJoinsField(field, " " + rest, word);
    assert (" " + rest)[1..] == rest;
  }

  /** The tail of an entry, once its address has been read into a field. */
  lemma EntryTail(m: Member, word: string)
    requires IsName(m.name) && IsAddress(m.ip)
    ensures FieldsFrom(Entry(m), word) == [word + m.ip, m.name + ".local", m.name]
  {
    NameIsPlain(m.name);
    var tail := m.name + ".local" + (" " + m.name);
    assert Entry(m) == m.ip + (" " + tail);
    FieldThenBlank(m.ip, tail, word);
    FieldThenBlank(m.name + ".local", m.name, "");
    assert "" + (m.name + ".local") == m.name + ".local";
    RunJoinsField(m.name, "", "");
    assert m.name + "" == m.name && "" + m.name == m.name;
  }

  lemma EntryHasNoComment(m: Member)
    requires IsName(m.name) && IsAddress(m.ip)
    ensures '#' !in Entry(m)
  {
    NameIsPlain(m.name);
    assert '#' !in m.ip && '#' !in m.name && '#' !in ".local";
  }

  lemma EntryFields(m: Member)
    requires IsName(m.name) && IsAddress(m.ip)
    ensures Fields(Entry(m)) == [m.ip, m.name + ".local", m.name]
  {
    EntryHasNoComment(m);
    NothingToUncomment(Entry(m));
    EntryTail(m, "");
    assert "" + m.ip == m.ip;
  }

  /** An entry resolves its own member and no other. */
  lemma EntryResolves(m: Member, name: string)
    requires IsName(m.name) && IsAddress(m.ip) && IsName(name)
    ensures AddressFor(Entry(m), name) == if name == m.name then Some(m.ip) else None
  {
    EntryFields(m);
    var fields := Fields(Entry(m));
    assert fields[1..] == [m.name + ".local", m.name];
    NameIsPlain(name);
    assert (m.name + ".local")[|m.name|] == '.';
  }

  /** What follows each of an entry's two blanks begins with the member's name and goes on past it. */
  lemma AfterBlanks(m: Member)
    requires IsName(m.name) && IsAddress(m.ip)
    ensures var line, first, second := Entry(m), |m.ip|, |m.ip| + 1 + |m.name + ".local"|;
            && second < |line|
            && line[first] == ' ' && line[first + 1..] == m.name + (".local" + (" " + m.name))
            && line[second] == ' ' && line[second + 1..] == m.name
  {
    assert Entry(m) == m.ip + " " + (m.name + ".local") + " " + m.name;
  }

  /** Only a member's own entry matches the pattern for its name: pve-node1's leaves pve-node10's alone. */
  lemma {:induction false} EntryNames(m: Member, name: string)
    requires IsName(m.name) && IsAddress(m.ip) && IsName(name)
    ensures Names(Entry(m), name) <==> name == m.name
  {
    var line, second := Entry(m), |m.ip| + 1 + |m.name + ".local"|;
    AfterBlanks(m);
    if name == m.name {
      assert NameAt(line, name, second);
    }
    if Names(line, name) {
      var k: nat :| k < |line| && NameAt(line, name, k);
      BlanksOfEntry(m, k);
      NamePlaced(line, name, k);
      SameName(name, m.name, line[k + 1..]);
    }
  }

  lemma NamePlaced(line: string, name: string, k: nat)
    requires NameAt(line, name, k)
    ensures var tail := line[k + 1..];
            StartsWith(tail, name) && (|tail| == |name| || IsBlank(tail[|name|]) || tail[|name|] == '.')
  {
  }

  lemma BlanksOfEntry(m: Member, k: nat)
    requires IsName(m.name) && IsAddress(m.ip) && k < |Entry(m)| && IsBlank(Entry(m)[k])
    ensures k == |m.ip| || k == |m.ip| + 1 + |m.name + ".local"|
  {
    NameIsPlain(m.name);
    var line, host := Entry(m), m.name + ".local";
    assert line == m.ip + " " + host + " " + m.name;
    assert forall j | 0 <= j < |m.ip| :: line[j] == m.ip[j];
    assert forall j | |m.ip| < j < |m.ip| + 1 + |host| :: line[j] == host[j - |m.ip| - 1];
    assert forall j | |m.ip| + 1 + |host| < j < |line| :: line[j] == m.name[j - |m.ip| - |host| - 2];
  }

  lemma NameReachesEnd(name: string, tail: string, n: nat)
    requires IsName(name) && StartsWith(tail, name) && n <= |tail|
    requires n == |tail| || IsBlank(tail[n]) || tail[n] == '.'
    ensures |name| <= n
  {
    assert forall j | 0 <= j < |name| :: tail[j] == name[j] && IsNameChar(tail[j]);
  }

  /** A name that fills a name's place up to a blank, a dot or the end is that name. */
  lemma SameName(name: string, other: string, tail: string)
    requires IsName(name) && IsName(other) && StartsWith(tail, name) && StartsWith(tail, other)
    requires |tail| == |name| || IsBlank(tail[|name|]) || tail[|name|] == '.'
    requires |tail| == |other| || IsBlank(tail[|other|]) || tail[|other|] == '.'
    ensures name == other
  {
    NameReachesEnd(name, tail, |other|);
    NameReachesEnd(other, tail, |name|);
  }

  // ----- what is left of the file

  lemma {:induction false} KeptAre(lines: seq<string>, members: seq<Member>)
    ensures forall l :: l in Kept(lines, members) <==> l in lines && Stays(l, members)
  {
    if lines != [] {
      var front, last := lines[..|lines| - 1], lines[|lines| - 1];
      KeptAre(front, members);
      assert lines == front + [last];
    }
  }

  lemma {:induction false} KeptTogether(a: seq<string>, b: seq<string>, members: seq<Member>)
    ensures Kept(a + b, members) == Kept(a, members) + Kept(b, members)
  {
    if b == [] {
      assert a + b == a;
    } else {
      KeptTogether(a, b[..|b| - 1], members);
      assert (a + b)[..|a + b| - 1] == a + b[..|b| - 1];
    }
  }

  lemma {:induction false} AllKept(lines: seq<string>, members: seq<Member>)
    requires forall l | l in lines :: Stays(l, members)
    ensures Kept(lines, members) == lines
  {
    if lines != [] {
      var front, last := lines[..|lines| - 1], lines[|lines| - 1];
      assert last in lines && lines == front + [last];
      AllKept(front, members);
    }
  }

  lemma {:induction false} NoneKept(lines: seq<string>, members: seq<Member>)
    requires forall l | l in lines :: !Stays(l, members)
    ensures Kept(lines, members) == []
  {
    if lines != [] {
      var front, last := lines[..|lines| - 1], lines[|lines| - 1];
      assert last in lines && lines == front + [last];
      NoneKept(front, members);
    }
  }

  lemma {:induction false} DedupHasTheSame(lines: seq<string>)
    ensures forall l :: l in Dedup(lines) <==> l in lines
  {
    if lines != [] {
      DedupHasTheSame(lines[..|lines| - 1]);
      assert lines == lines[..|lines| - 1] + [lines[|lines| - 1]];
    }
  }

  ghost predicate Distinct(lines: seq<string>) {
    forall i, j | 0 <= i < j < |lines| :: lines[i] != lines[j]
  }

  function FirstIndex(lines: seq<string>, l: string): nat {
    if lines == [] || lines[0] == l then 0 else 1 + FirstIndex(lines[1..], l)
  }

  lemma {:induction false} FirstIndexInFront(front: seq<string>, last: string, l: string)
    ensures l in front ==> FirstIndex(front + [last], l) == FirstIndex(front, l) < |front|
    ensures l !in front && l == last ==> FirstIndex(front + [last], l) == |front|
  {
    if front == [] {
      assert front + [last] == [last];
    } else {
      assert (front + [last])[1..] == front[1..] + [last];
      FirstIndexInFront(front[1..], last, l);
    }
  }

  /** Duplicates are dropped and the rest stay in the order they first came in. */
  lemma {:induction false} DedupKeepsOrder(lines: seq<string>)
    ensures Distinct(Dedup(lines))
    ensures forall i, j | 0 <= i < j < |Dedup(lines)| ::
      FirstIndex(lines, Dedup(lines)[i]) < FirstIndex(lines, Dedup(lines)[j])
  {
    if lines != [] {
      var front, last := lines[..|lines| - 1], lines[|lines| - 1];
      assert lines == front + [last];
      DedupKeepsOrder(front);
      DedupHasTheSame(front);
      forall i | 0 <= i < |Dedup(front)| ensures FirstIndex(lines, Dedup(front)[i]) == FirstIndex(front, Dedup(front)[i]) < |front| {
        FirstIndexInFront(front, last, Dedup(front)[i]);
      }
      FirstIndexInFront(front, last, last);
    }
  }

  lemma {:induction false} DedupOfDistinct(lines: seq<string>)
    requires Distinct(lines)
    ensures Dedup(lines) == lines
  {
    if lines != [] {
      DedupOfDistinct(lines[..|lines| - 1]);
    }
  }

  lemma DedupLast(front: seq<string>, last: string)
    ensures Dedup(front + [last]) == if last in front then Dedup(front) else Dedup(front) + [last]
  {
    var all := front + [last];
    assert all[..|all| - 1] == front && all[|all| - 1] == last;
  }

  lemma NextIsNew(a: seq<string>, b: seq<string>, n: nat)
    requires Distinct(b) && n < |b| && b[n] !in a
    ensures b[n] !in a + b[..n] && a + b[..n + 1] == a + b[..n] + [b[n]]
  {
  }

  lemma {:induction false} DedupOneByOne(a: seq<string>, b: seq<string>, n: nat)
    requires Distinct(b) && n <= |b| && forall l | l in b :: l !in a
    ensures Dedup(a + b[..n]) == Dedup(a) + b[..n]
  {
    if n == 0 {
      assert a + b[..0] == a;
    } else {
      DedupOneByOne(a, b, n - 1);
      NextIsNew(a, b, n - 1);
      DedupLast(a + b[..n - 1], b[n - 1]);
      assert Dedup(a) + b[..n - 1] + [b[n - 1]] == Dedup(a) + b[..n];
    }
  }

  lemma DedupThenNew(a: seq<string>, b: seq<string>)
    requires Distinct(b) && forall l | l in b :: l !in a
    ensures Dedup(a + b) == Dedup(a) + b
  {
    DedupOneByOne(a, b, |b|);
    assert b[..|b|] == b;
  }

  lemma {:induction false} EntriesAt(members: seq<Member>)
    ensures |Entries(members)| == |members|
    ensures forall k | 0 <= k < |members| :: Entries(members)[k] == Entry(members[k])
  {
    if members != [] {
      EntriesAt(members[1..]);
    }
  }

  lemma EntriesAreNew(members: seq<Member>)
    requires AreMembers(members)
    ensures Distinct(Entries(members))
    ensures forall l | l in Entries(members) :: !Stays(l, members)
  {
    EntriesAt(members);
    var entries := Entries(members);
    forall i, j | 0 <= i < j < |entries| ensures entries[i] != entries[j] {
      assert members[i] in members && members[j] in members;
      EntryNames(members[i], members[i].name);
      EntryNames(members[j], members[i].name);
    }
    forall l | l in entries ensures !Stays(l, members) {
      var i :| 0 <= i < |entries| && entries[i] == l;
      assert members[i] in members;
      EntryNames(members[i], members[i].name);
      assert Names(l, members[i].name);
    }
  }

  lemma EntriesOfRest(members: seq<Member>)
    requires AreMembers(members) && members != []
    ensures Distinct(Entries(members[1..]))
    ensures forall l | l in Entries(members[1..]) :: !Stays(l, members) && !Names(l, members[0].name)
  {
    EntriesAreNew(members);
    EntriesAt(members);
    var rest := members[1..];
    EntriesAt(rest);
    assert forall k | 0 <= k < |rest| :: Entries(rest)[k] == Entries(members)[k + 1];
    forall l | l in Entries(rest) ensures l in Entries(members) && !Names(l, members[0].name) {
      var k :| 0 <= k < |rest| && Entries(rest)[k] == l;
      assert l == Entries(members)[k + 1] && members[0] in members && members[k + 1] in members;
      EntryNames(members[k + 1], members[0].name);
    }
  }

  lemma NamesShift(front: string, line: string, name: string)
    requires Names(line, name)
    ensures Names(front + line, name)
  {
    var k: nat :| k < |line| && NameAt(line, name, k);
    assert (front + line)[|front| + k + 1..] == line[k + 1..];
    assert NameAt(front + line, name, |front| + k);
  }

  /** What an unended last line that stays becomes: it names the first member, so a second run drops it. */
  lemma GluedNamesFirst(last: string, members: seq<Member>)
    requires AreMembers(members) && members != []
    ensures Names(last + Entry(members[0]), members[0].name) && !Stays(last + Entry(members[0]), members)
  {
    assert members[0] in members;
    EntryNames(members[0], members[0].name);
    NamesShift(last, Entry(members[0]), members[0].name);
  }

  /** The first entry continues the last line of the file. */
  predicate Glues(lines: seq<string>, ended: bool, members: seq<Member>) {
    members != [] && !EndsClean(lines, ended, members)
  }

  /** What is written before the entries that stand on lines of their own. */
  function Above(lines: seq<string>, ended: bool, members: seq<Member>): seq<string> {
    if Glues(lines, ended, members)
    then Kept(lines[..|lines| - 1], members) + [lines[|lines| - 1] + Entry(members[0])]
    else Kept(lines, members)
  }

  function EntriesBelow(lines: seq<string>, ended: bool, members: seq<Member>): seq<string> {
    Entries(if Glues(lines, ended, members) then members[1..] else members)
  }

  lemma GlueLast(front: seq<string>, last: string, first: string, more: seq<string>)
    ensures Appended(front + [last], false, [first] + more) == front + [last + first] + more
  {
    var kept := front + [last];
    assert kept[..|kept| - 1] == front && ([first] + more)[1..] == more;
  }

  /**
   What the script leaves of any file: the lines that name no member, without duplicates, and
   after them one line a member, except that an unended last line that stays runs into the
   first member's.
   */
  lemma RewriteOfAnyFile(lines: seq<string>, ended: bool, members: seq<Member>)
    requires AreMembers(members)
    ensures Rewritten(lines, ended, members) == Dedup(Above(lines, ended, members)) + EntriesBelow(lines, ended, members)
  {
    KeptAre(lines, members);
    if Glues(lines, ended, members) {
      var front, last := Kept(lines[..|lines| - 1], members), lines[|lines| - 1];
      KeptAre(lines[..|lines| - 1], members);
      GluedNamesFirst(last, members);
      EntriesOfRest(members);
      GlueLast(front, last, Entry(members[0]), Entries(members[1..]));
      DedupThenNew(front + [last + Entry(members[0])], Entries(members[1..]));
    } else {
      EntriesAreNew(members);
      assert members == [] ==> Kept(lines, members) + Entries(members) == Kept(lines, members);
      DedupThenNew(Kept(lines, members), Entries(members));
    }
  }

  // ----- which lines survive, and in which order

  lemma {:induction false} FirstIndexInPrefix(a: seq<string>, b: seq<string>, l: string)
    requires l in a
    ensures FirstIndex(a + b, l) == FirstIndex(a, l)
  {
    assert (a + b)[0] == a[0];
    if a[0] != l {
      assert (a + b)[1..] == a[1..] + b;
      FirstIndexInPrefix(a[1..], b, l);
    }
  }

  /** The deletions leave the rest in order. */
  lemma {:induction false} KeptKeepsOrder(lines: seq<string>, members: seq<Member>, a: string, b: string)
    requires a in lines && b in lines && Stays(a, members) && Stays(b, members)
    ensures a in Kept(lines, members) && b in Kept(lines, members)
    ensures FirstIndex(Kept(lines, members), a) < FirstIndex(Kept(lines, members), b) <==>
            FirstIndex(lines, a) < FirstIndex(lines, b)
  {
    var front, last := lines[..|lines| - 1], lines[|lines| - 1];
    assert lines == front + [last];
    KeptAre(lines, members);
    KeptAre(front, members);
    forall l | l == a || l == b
      ensures l in front ==> FirstIndex(lines, l) == FirstIndex(front, l) < |front|
      ensures l !in front ==> FirstIndex(lines, l) == |front|
    {
      FirstIndexInFront(front, last, l);
    }
    if Stays(last, members) {
      forall l | l == a || l == b
        ensures l in front ==> FirstIndex(Kept(lines, members), l) == FirstIndex(Kept(front, members), l) < |Kept(front, members)|
        ensures l !in front ==> FirstIndex(Kept(lines, members), l) == |Kept(front, members)|
      {
        FirstIndexInFront(Kept(front, members), last, l);
      }
    }
    if a in front && b in front {
      KeptKeepsOrder(front, members, a, b);
    }
  }

  /** The part of the file that stays a part of it. */
  function Left(lines: seq<string>, ended: bool, members: seq<Member>): seq<string> {
    if Glues(lines, ended, members) then lines[..|lines| - 1] else lines
  }

  /** The lines that name no member are what is left of the file, all but a last line that was run into. */
  lemma SurvivorsAre(lines: seq<string>, ended: bool, members: seq<Member>, l: string)
    requires AreMembers(members) && Stays(l, members)
    ensures l in Rewritten(lines, ended, members) <==>
            l in Left(lines, ended, members)
  {
    RewriteOfAnyFile(lines, ended, members);
    DedupHasTheSame(Above(lines, ended, members));
    EntriesAreNew(members);
    KeptAre(lines, members);
    if Glues(lines, ended, members) {
      KeptAre(lines[..|lines| - 1], members);
      GluedNamesFirst(lines[|lines| - 1], members);
      EntriesOfRest(members);
    }
  }

  /**
   Every line that names no member survives, exactly if the file ends clean or its last line
   is there a second time.
   */
  lemma AllSurvive(lines: seq<string>, ended: bool, members: seq<Member>)
    requires AreMembers(members)
    ensures (forall l | l in lines && Stays(l, members) :: l in Rewritten(lines, ended, members)) <==>
            members == [] || EndsClean(lines, ended, members) || lines[|lines| - 1] in lines[..|lines| - 1]
  {
    forall l | l in lines && Stays(l, members)
      ensures l in Rewritten(lines, ended, members) <==>
              l in Left(lines, ended, members)
    {
      SurvivorsAre(lines, ended, members, l);
    }
    if Glues(lines, ended, members) {
      assert lines == lines[..|lines| - 1] + [lines[|lines| - 1]];
      assert lines[|lines| - 1] in lines && Stays(lines[|lines| - 1], members);
    }
  }

  lemma LeftIsInOrder(lines: seq<string>, ended: bool, members: seq<Member>, a: string, b: string)
    requires a in Left(lines, ended, members) && b in Left(lines, ended, members) && Stays(a, members) && Stays(b, members)
    ensures a in lines && b in lines
    ensures FirstIndex(Above(lines, ended, members), a) < FirstIndex(Above(lines, ended, members), b) ==>
            FirstIndex(lines, a) < FirstIndex(lines, b)
  {
    var left, above := Left(lines, ended, members), Above(lines, ended, members);
    var kept := Kept(left, members);
    KeptKeepsOrder(left, members, a, b);
    assert above == kept + above[|kept|..] && lines == left + lines[|left|..];
    FirstIndexInPrefix(kept, above[|kept|..], a);
    FirstIndexInPrefix(kept, above[|kept|..], b);
    FirstIndexInPrefix(left, lines[|left|..], a);
    FirstIndexInPrefix(left, lines[|left|..], b);
  }

  /** And the survivors stand in the order they first had. */
  lemma SurvivorsKeepOrder(lines: seq<string>, ended: bool, members: seq<Member>, i: nat, j: nat)
    requires AreMembers(members) && i < j < |Rewritten(lines, ended, members)|
    requires Stays(Rewritten(lines, ended, members)[i], members) && Stays(Rewritten(lines, ended, members)[j], members)
    ensures var a, b := Rewritten(lines, ended, members)[i], Rewritten(lines, ended, members)[j];
            a in lines && b in lines && FirstIndex(lines, a) < FirstIndex(lines, b)
  {
    var out := Rewritten(lines, ended, members);
    SurvivorsAre(lines, ended, members, out[i]);
    SurvivorsAre(lines, ended, members, out[j]);
    NoEntryStays(lines, ended, members, i);
    NoEntryStays(lines, ended, members, j);
    DedupKeepsOrder(Above(lines, ended, members));
    LeftIsInOrder(lines, ended, members, out[i], out[j]);
  }

  lemma NoEntryStays(lines: seq<string>, ended: bool, members: seq<Member>, k: nat)
    requires AreMembers(members) && k < |Rewritten(lines, ended, members)| && Stays(Rewritten(lines, ended, members)[k], members)
    ensures k < |Dedup(Above(lines, ended, members))|
    ensures Rewritten(lines, ended, members)[k] == Dedup(Above(lines, ended, members))[k]
  {
    RewriteOfAnyFile(lines, ended, members);
    EntriesAreNew(members);
    if Glues(lines, ended, members) {
      EntriesOfRest(members);
    }
    var out, below := Rewritten(lines, ended, members), EntriesBelow(lines, ended, members);
    assert forall j | |out| - |below| <= j < |out| :: out[j] in below;
  }

  /** A file of one line that is not ended loses that line, whatever it says, unless it was to go anyway. */
  lemma UnendedLineIsLost(line: string, m: Member)
    requires IsName(m.name) && IsAddress(m.ip) && Stays(line, [m])
    ensures line !in Rewritten([line], false, [m])
  {
    assert AreMembers([m]) && [line][..0] == [];
    SurvivorsAre([line], false, [m], line);
  }

  /** Such as this one. */
  lemma BackupLineIsLost(line: string, m: Member)
    requires line == "1.2.3.4 backup" && IsName(m.name) && IsAddress(m.ip) && m.name != "backup"
    ensures line !in Rewritten([line], false, [m])
  {
    assert line[0] == '1' && line[1] == '.' && line[2] == '2' && line[3] == '.' && line[4] == '3' && line[5] == '.';
    forall k: nat | k < |line| ensures !LoopbackAt(line, k) {
      if k + 9 <= |line| {
        assert line[k..k + 3][0] == line[k] && line[k..k + 3][1] == line[k + 1];
      }
    }
    forall k: nat | k < |line| ensures !NameAt(line, m.name, k) {
      if k == 7 {
        assert line[8..] == "backup" && forall j | 8 <= j < 14 :: !IsBlank(line[j]) && line[j] != '.';
        assert m.name <= "backup" && |m.name| == 6 ==> m.name == "backup";
      }
    }
    assert [m][0] == m;
    UnendedLineIsLost(line, m);
  }

  // ----- what lines say together

  lemma {:induction false} ResolveTogether(a: seq<string>, b: seq<string>, name: string)
    ensures Resolve(a + b, name) == if Resolve(a, name).Some? then Resolve(a, name) else Resolve(b, name)
  {
    if a == [] {
      assert a + b == b;
    } else {
      assert (a + b)[1..] == a[1..] + b;
      ResolveTogether(a[1..], b, name);
    }
  }

  lemma {:induction false} ResolveNone(lines: seq<string>, name: string)
    ensures Resolve(lines, name).None? <==> forall l | l in lines :: AddressFor(l, name).None?
  {
    if lines != [] {
      ResolveNone(lines[1..], name);
    }
  }

  lemma {:induction false} ResolveDedup(lines: seq<string>, name: string)
    ensures Resolve(Dedup(lines), name) == Resolve(lines, name)
  {
    if lines != [] {
      var front, last := lines[..|lines| - 1], lines[|lines| - 1];
      assert lines == front + [last];
      ResolveDedup(front, name);
      ResolveTogether(front, [last], name);
      ResolveTogether(Dedup(front), [last], name);
      if last in front && Resolve(front, name).None? {
        ResolveNone(front, name);
      }
    }
  }

  lemma {:induction false} ResolveEntries(members: seq<Member>, name: string)
    requires AreMembers(members) && IsName(name)
    ensures forall i | 0 <= i < |members| && members[i].name == name :: Resolve(Entries(members), name) == Some(members[i].ip)
    ensures (forall m | m in members :: m.name != name) ==> Resolve(Entries(members), name).None?
  {
    if members != [] {
      assert members[0] in members && forall m | m in members[1..] :: m in members;
      EntryResolves(members[0], name);
      ResolveEntries(members[1..], name);
    }
  }

  ghost predicate HasCommentedName(line: string, name: string) {
    exists k: nat :: k + 1 + |name| < |line| && IsBlank(line[k]) && line[k + 1..k + 1 + |name|] == name && line[k + 1 + |name|] == '#'
  }

  /** A line that gives a name an address either matches its pattern or has a '#' right after it. */
  lemma OnlyCommentedNamesEscape(line: string, name: string)
    requires name != "" && AddressFor(line, name).Some?
    ensures Names(line, name) || HasCommentedName(line, name)
  {
    var s := Uncommented(line);
    UncommentedIsPrefix(line);
    var j :| 1 <= j < |Fields(line)| && Fields(line)[j] == name;
    var k := FieldPlace(s, "", j);
    var end := k + 1 + |name|;
    assert line[k] == s[k] && line[k + 1..end] == s[k + 1..end] == name;
    if end < |s| || |s| == |line| {
      assert end < |s| ==> line[end] == s[end];
      assert line[k + 1..][..|name|] == name;
      assert NameAt(line, name, k);
    } else {
      assert line[end] == '#';
    }
  }

  lemma {:induction false} UncommentedIsPrefix(line: string)
    ensures StartsWith(line, Uncommented(line))
    ensures |Uncommented(line)| < |line| ==> line[|Uncommented(line)|] == '#'
  {
    if line != "" && line[0] != '#' {
      UncommentedIsPrefix(line[1..]);
      assert line == [line[0]] + line[1..];
    }
  }

  /** The field f stands in s right after the blank at k, up to a blank or the end. */
  predicate IsFieldPlace(s: string, f: string, k: nat) {
    && k + 1 + |f| <= |s| && IsBlank(s[k]) && s[k + 1..k + 1 + |f|] == f
    && (k + 1 + |f| == |s| || IsBlank(s[k + 1 + |f|]))
  }

  lemma PlaceShifts(s: string, f: string, k: nat)
    requires s != "" && IsFieldPlace(s[1..], f, k)
    ensures IsFieldPlace(s, f, k + 1)
  {
    assert s[k + 2..k + 2 + |f|] == s[1..][k + 1..k + 1 + |f|];
  }

  /** Every field but the first of a line, or every one once a field has begun, follows a blank. */
  lemma {:induction false} FieldPlace(s: string, word: string, j: nat) returns (k: nat)
    requires j < |FieldsFrom(s, word)| && (j > 0 || (word == "" && s != "" && IsBlank(s[0])))
    ensures IsFieldPlace(s, FieldsFrom(s, word)[j], k)
    decreases |s|
  {
    var f := FieldsFrom(s, word)[j];
    if IsBlank(s[0]) {
      var rest := s[1..];
      var jj := if word == "" then j else j - 1;
      assert FieldsFrom(rest, "")[jj] == f;
      if rest != "" && !IsBlank(rest[0]) && jj == 0 {
        FirstFieldHere(rest, "");
        k := 0;
        assert s[1..1 + |f|] == rest[..|f|];
      } else {
        k := FieldPlace(rest, "", jj);
        PlaceShifts(s, f, k);
        k := k + 1;
      }
    } else {
      k := FieldPlace(s[1..], word + [s[0]], j);
      PlaceShifts(s, f, k);
      k := k + 1;
    }
  }

  lemma {:induction false} FirstFieldHere(s: string, word: string)
    requires word != "" || (s != "" && !IsBlank(s[0]))
    ensures FieldsFrom(s, word) != []
    ensures var f := FieldsFrom(s, word)[0];
            && |word| <= |f| <= |word| + |s| && f == word + s[..|f| - |word|]
            && (|f| - |word| == |s| || IsBlank(s[|f| - |word|]))
    decreases |s|
  {
    if s != "" && !IsBlank(s[0]) {
      FirstFieldHere(s[1..], word + [s[0]]);
      var f := FieldsFrom(s, word)[0];
      assert s[..|f| - |word|] == [s[0]] + s[1..][..|f| - |word| - 1];
      assert word + [s[0]] + s[1..][..|f| - |word| - 1] == word + s[..|f| - |word|];
    }
  }

  // ----- an entry that continues an unended line

  lemma {:induction false} FieldsOfGlued(front: string, m: Member, word: string)
    requires IsName(m.name) && IsAddress(m.ip)
    ensures FieldsFrom(front + Entry(m), word) == FieldsFrom(front + m.ip, word) + [m.name + ".local", m.name]
    ensures FieldsFrom(front + m.ip, word) != []
    decreases |front|
  {
    if front == "" {
      assert front + Entry(m) == Entry(m) && front + m.ip == m.ip + "";
      EntryTail(m, word);
      RunJoinsField(m.ip, "", word);
    } else {
      assert (front + Entry(m))[1..] == front[1..] + Entry(m);
      assert (front + m.ip)[1..] == front[1..] + m.ip;
      FieldsOfGlued(front[1..], m, if IsBlank(front[0]) then "" else word + [front[0]]);
    }
  }

  /** All fields of g but its last are the first ones of f, and its last has a dot. */
  ghost predicate DiffersInLast(g: seq<string>, f: seq<string>) {
    g != [] && '.' in g[|g| - 1] && |g| - 1 <= |f| && g[..|g| - 1] == f[..|g| - 1]
  }

  lemma OneMoreInFront(first: string, g: seq<string>, f: seq<string>)
    requires DiffersInLast(g, f)
    ensures DiffersInLast([first] + g, [first] + f)
  {
    var gg, ff := [first] + g, [first] + f;
    assert gg[..|gg| - 1] == [first] + g[..|g| - 1] && ff[..|gg| - 1] == [first] + f[..|g| - 1];
    assert gg[|gg| - 1] == g[|g| - 1];
  }

  /** Whether an address starts a field or continues one, the fields before are as they were. */
  lemma {:induction false} AddressEndsFields(front: string, ip: string, word: string)
    requires IsAddress(ip)
    ensures DiffersInLast(FieldsFrom(front + ip, word), FieldsFrom(front, word))
    decreases |front|
  {
    if front == "" {
      assert front + ip == ip + "";
      RunJoinsField(ip, "", word);
      assert '.' in word + ip;
    } else {
      var word' := if IsBlank(front[0]) then "" else word + [front[0]];
      assert (front + ip)[1..] == front[1..] + ip;
      AddressEndsFields(front[1..], ip, word');
      if IsBlank(front[0]) && word != "" {
        OneMoreInFront(word, FieldsFrom(front[1..] + ip, ""), FieldsFrom(front[1..], ""));
      } else if IsBlank(front[0]) {
        assert [] + FieldsFrom(front[1..] + ip, "") == FieldsFrom(front[1..] + ip, "");
        assert [] + FieldsFrom(front[1..], "") == FieldsFrom(front[1..], "");
      }
    }
  }

  /** Put right after this text, the address is the first field of the line. */
  predicate StandsFirst(front: string, ip: string) {
    var fields := FieldsFrom(front + ip, "");
    fields != [] && fields[0] == ip
  }

  lemma {:induction false} CommentHidesTheRest(s: string, rest: string)
    requires '#' in s
    ensures Uncommented(s + rest) == Uncommented(s)
  {
    assert (s + rest)[0] == s[0];
    if s[0] != '#' {
      assert (s + rest)[1..] == s[1..] + rest && s == [s[0]] + s[1..];
      CommentHidesTheRest(s[1..], rest);
    }
  }

  /**
   Glued to an unended last line, an entry gives its member what that line gave it if the line
   has a comment, and otherwise whatever comes to stand first.
   */
  lemma GluedEntryResolves(last: string, m: Member)
    requires IsName(m.name) && IsAddress(m.ip)
    ensures AddressFor(last + Entry(m), m.name) == Some(m.ip) <==>
            if '#' in last then AddressFor(last, m.name) == Some(m.ip) else StandsFirst(last, m.ip)
    ensures AddressFor(last + Entry(m), m.name).None? <==> '#' in last && AddressFor(last, m.name).None?
  {
    if '#' in last {
      CommentHidesTheRest(last, Entry(m));
    } else {
      EntryHasNoComment(m);
      NothingToUncomment(last + Entry(m));
      FieldsOfGlued(last, m, "");
      var fields := Fields(last + Entry(m));
      assert fields[|fields| - 1] == m.name && |fields| > 1;
      assert fields[1..][|fields| - 2] == m.name;
    }
  }

  /** To every other name the line says what it said before. */
  lemma GluedEntryHidesNone(last: string, m: Member, name: string)
    requires IsName(m.name) && IsAddress(m.ip) && IsName(name) && name != m.name && !Names(last, name)
    ensures AddressFor(last + Entry(m), name) == AddressFor(last, name)
  {
    if '#' in last {
      CommentHidesTheRest(last, Entry(m));
    } else {
      if AddressFor(last, name).Some? {
        OnlyCommentedNamesEscape(last, name);
      }
      NothingToUncomment(last);
      EntryHasNoComment(m);
      NothingToUncomment(last + Entry(m));
      FieldsOfGlued(last, m, "");
      AddressEndsFields(last, m.ip, "");
      NameIsPlain(name);
      NoNewField(FieldsFrom(last + m.ip, ""), FieldsFrom(last, ""), m, name);
    }
  }

  lemma NoNewField(g: seq<string>, f: seq<string>, m: Member, name: string)
    requires DiffersInLast(g, f)
    requires '.' !in name && name != m.name && (f != [] ==> name !in f[1..])
    ensures name !in (g + [m.name + ".local", m.name])[1..]
  {
    var all := g + [m.name + ".local", m.name];
    assert (m.name + ".local")[|m.name|] == '.';
    forall k | 1 <= k < |all| ensures all[k] != name {
      if k < |g| - 1 {
        assert all[k] == g[..|g| - 1][k] == f[k] == f[1..][k - 1];
      }
    }
  }

  // ----- whom the file resolves afterwards

  /** The member's own address is the first that the file will give its name: to be told before the run. */
  predicate GetsItsAddress(lines: seq<string>, ended: bool, members: seq<Member>, i: nat)
    requires i < |members|
  {
    var name, ip := members[i].name, members[i].ip;
    if i == 0 && Glues(lines, ended, members) then
      var front, last := lines[..|lines| - 1], lines[|lines| - 1];
      match Resolve(Kept(front, members), name)
      case Some(earlier) => earlier == ip
      case None => if '#' in last then AddressFor(last, name) == Some(ip) else StandsFirst(last, ip)
    else
      match Resolve(Kept(lines, members), name)
      case Some(earlier) => earlier == ip
      case None => true
  }

  lemma AboveResolves(lines: seq<string>, ended: bool, members: seq<Member>, i: nat)
    requires AreMembers(members) && i < |members|
    ensures var above := Resolve(Above(lines, ended, members), members[i].name);
            if i == 0 && Glues(lines, ended, members)
            then above == Some(members[i].ip) <==> GetsItsAddress(lines, ended, members, i)
            else above == Resolve(Kept(lines, members), members[i].name)
  {
    if Glues(lines, ended, members) {
      var front, last := lines[..|lines| - 1], lines[|lines| - 1];
      var glued := last + Entry(members[0]);
      assert members[0] in members && members[i] in members;
      ResolveTogether(Kept(front, members), [glued], members[i].name);
      ResolveTogether(Kept(front, members), [last], members[i].name);
      if i == 0 {
        GluedEntryResolves(last, members[0]);
      } else {
        GluedEntryHidesNone(last, members[0], members[i].name);
      }
    }
  }

  /**
   For every file, ended or not, and every member: it resolves to its own cluster address
   afterwards exactly if no line that is left gives it another one first; for the first member
   of a file whose last line runs into its entry, what that line comes to say decides.
   */
  lemma MemberResolves(lines: seq<string>, ended: bool, members: seq<Member>, i: nat)
    requires AreMembers(members) && i < |members|
    ensures Resolve(Rewritten(lines, ended, members), members[i].name) == Some(members[i].ip) <==>
            GetsItsAddress(lines, ended, members, i)
  {
    var name := members[i].name;
    assert members[i] in members;
    RewriteOfAnyFile(lines, ended, members);
    ResolveTogether(Dedup(Above(lines, ended, members)), EntriesBelow(lines, ended, members), name);
    ResolveDedup(Above(lines, ended, members), name);
    AboveResolves(lines, ended, members, i);
    if Glues(lines, ended, members) {
      var rest := members[1..];
      assert forall m | m in rest :: m in members;
      ResolveEntries(rest, name);
      assert i > 0 ==> rest[i - 1] == members[i];
    } else {
      ResolveEntries(members, name);
    }
  }

  lemma NoKeptLineResolves(lines: seq<string>, members: seq<Member>, i: nat)
    requires AreMembers(members) && i < |members|
    requires forall l | l in lines :: !HasCommentedName(l, members[i].name)
    ensures Resolve(Kept(lines, members), members[i].name).None?
  {
    var name := members[i].name;
    assert members[i] in members;
    KeptAre(lines, members);
    forall l | l in Kept(lines, members) ensures AddressFor(l, name).None? {
      assert !NamesAny(l, members) && !Names(l, name);
      if AddressFor(l, name).Some? {
        OnlyCommentedNamesEscape(l, name);
      }
    }
    ResolveNone(Kept(lines, members), name);
  }

  /**
   Where no name is hidden by a comment, every member resolves, exactly if no line runs into
   the first entry or the address comes to stand first in it.
   */
  lemma EveryMemberResolves(lines: seq<string>, ended: bool, members: seq<Member>)
    requires AreMembers(members)
    requires forall l, m | l in lines && m in members :: !HasCommentedName(l, m.name)
    ensures (forall m | m in members :: Resolve(Rewritten(lines, ended, members), m.name) == Some(m.ip)) <==>
            (Glues(lines, ended, members) ==>
               '#' !in lines[|lines| - 1] && StandsFirst(lines[|lines| - 1], members[0].ip))
  {
    forall i | 0 <= i < |members|
      ensures Resolve(Rewritten(lines, ended, members), members[i].name) == Some(members[i].ip) <==>
              (i == 0 && Glues(lines, ended, members) ==>
                 '#' !in lines[|lines| - 1] && StandsFirst(lines[|lines| - 1], members[0].ip))
    {
      assert members[i] in members;
      MemberResolves(lines, ended, members, i);
      NoKeptLineResolves(lines, members, i);
      if Glues(lines, ended, members) {
        var front, last := lines[..|lines| - 1], lines[|lines| - 1];
        assert lines == front + [last];
        NoKeptLineResolves(front, members, i);
        if AddressFor(last, members[i].name).Some? {
          OnlyCommentedNamesEscape(last, members[i].name);
        }
      }
    }
    assert members != [] ==> members[0] in members;
  }

  lemma CommentedNameResolves(address: string, name: string)
    requires IsName(name) && IsAddress(address)
    ensures AddressFor(address + " " + name + "#", name) == Some(address)
  {
    var line := address + " " + name + "#";
    NameIsPlain(name);
    UncommentedBefore(address + " " + name);
    assert Uncommented(line) == address + (" " + name);
    FieldThenBlank(address, name, "");
    RunJoinsField(name, "", "");
    assert name + "" == name && "" + name == name && "" + address == address;
    assert Fields(line)[1..] == [name];
  }

  lemma CommentedNameIsNotNamed(address: string, name: string)
    requires IsName(name) && IsAddress(address)
    ensures !Names(address + " " + name + "#", name)
  {
    var line := address + " " + name + "#";
    forall k: nat | k < |line| ensures !NameAt(line, name, k) {
      if k == |address| {
        assert line[k + 1 + |name|] == '#';
      } else if k < |address| {
        assert line[k] == address[k];
      } else if k < |address| + 1 + |name| {
        assert line[k] == name[k - |address| - 1] && IsNameChar(line[k]);
      }
    }
  }

  /** A name with a comment right behind it is not deleted, and its old address then wins. */
  lemma {:induction false} CommentedNameIsMissed(address: string, m: Member)
    requires IsName(m.name) && IsAddress(m.ip) && IsAddress(address)
    requires address != m.ip && !IsLoopback(address + " " + m.name + "#")
    ensures Resolve(Rewritten([address + " " + m.name + "#"], true, [m]), m.name) == Some(address)
  {
    var line := address + " " + m.name + "#";
    CommentedNameResolves(address, m.name);
    CommentedNameIsNotNamed(address, m.name);
    AllKept([line], [m]);
    assert AreMembers([m]);
    RewriteOfAnyFile([line], true, [m]);
    ResolveTogether(Dedup([line]), Entries([m]), m.name);
    ResolveDedup([line], m.name);
  }

  lemma {:induction false} UncommentedBefore(s: string)
    requires '#' !in s
    ensures Uncommented(s + "#") == s
  {
    if s == "" {
      assert s + "#" == "#";
    } else {
      assert (s + "#")[1..] == s[1..] + "#";
      UncommentedBefore(s[1..]);
      assert s == [s[0]] + s[1..];
    }
  }

  // ----- a second run

  /** Running the script again changes nothing, exactly when no line ran into an entry the first time. */
  lemma SecondRunChangesNothing(lines: seq<string>, ended: bool, members: seq<Member>)
    requires AreMembers(members) && IsFile(lines, ended)
    ensures Rewritten(Rewritten(lines, ended, members), true, members) == Rewritten(lines, ended, members) <==>
            !Glues(lines, ended, members)
  {
    if Glues(lines, ended, members) {
      var once := Rewritten(lines, ended, members);
      var glued := GluedLineIsWritten(lines, ended, members);
      RewriteOfAnyFile(once, true, members);
      KeptAre(once, members);
      DedupHasTheSame(Kept(once, members));
      NoEntryIsGlued(lines[|lines| - 1], members);
    } else {
      CleanRunIsStable(lines, ended, members);
    }
  }

  lemma NoEntryIsGlued(last: string, members: seq<Member>)
    requires AreMembers(members) && members != [] && last != ""
    ensures last + Entry(members[0]) !in Entries(members)
  {
    var glued := last + Entry(members[0]);
    EntriesAt(members);
    GluedNamesFirst(last, members);
    forall k | 0 <= k < |members| ensures Entry(members[k]) != glued {
      assert members[0] in members && members[k] in members;
      EntryNames(members[k], members[0].name);
      assert |glued| > |Entry(members[0])|;
    }
  }

  lemma CleanRunIsStable(lines: seq<string>, ended: bool, members: seq<Member>)
    requires AreMembers(members) && !Glues(lines, ended, members)
    ensures Rewritten(Rewritten(lines, ended, members), true, members) == Rewritten(lines, ended, members)
  {
    var once, left := Rewritten(lines, ended, members), Dedup(Kept(lines, members));
    RewriteOfAnyFile(lines, ended, members);
    RewriteOfAnyFile(once, true, members);
    EntriesAreNew(members);
    KeptAre(lines, members);
    DedupHasTheSame(Kept(lines, members));
    KeptTogether(left, Entries(members), members);
    AllKept(left, members);
    NoneKept(Entries(members), members);
    DedupKeepsOrder(Kept(lines, members));
    DedupOfDistinct(left);
    assert left + [] == left;
  }

  lemma GluedLineIsWritten(lines: seq<string>, ended: bool, members: seq<Member>) returns (glued: string)
    requires AreMembers(members) && Glues(lines, ended, members)
    ensures glued == lines[|lines| - 1] + Entry(members[0])
    ensures glued in Rewritten(lines, ended, members) && !Stays(glued, members)
  {
    glued := lines[|lines| - 1] + Entry(members[0]);
    RewriteOfAnyFile(lines, ended, members);
    var above := Above(lines, ended, members);
    assert above[|above| - 1] == glued;
    DedupHasTheSame(above);
    GluedNamesFirst(lines[|lines| - 1], members);
  }

  // ----- the lab's own members

  function LabMembers(count: nat): seq<Member> {
    if count == 0 then []
    else LabMembers(count - 1) + [Member(Nodes.Hostname(count), Nodes.ClusterIp(count))]
  }

  lemma {:induction false} LabMembersAt(count: nat)
    ensures |LabMembers(count)| == count
    ensures forall i | 0 <= i < count :: LabMembers(count)[i] == Member(Nodes.Hostname(i + 1), Nodes.ClusterIp(i + 1))
  {
    if count > 0 {
      LabMembersAt(count - 1);
    }
  }

  lemma LabNameIsName(i: nat)
    ensures IsName(Nodes.Hostname(i)) && IsAddress(Nodes.ClusterIp(i))
  {
    var number := Decimal(i);
    assert forall k | 0 <= k < |number| :: IsDigit(number[k]);
    assert Nodes.ClusterIp(i)[2] == '.';
  }

  /** Everything above holds of any lab's members, however many it has. */
  lemma LabMembersAreMembers(count: nat)
    ensures AreMembers(LabMembers(count))
  {
    LabMembersAt(count);
    var members := LabMembers(count);
    forall m | m in members ensures IsName(m.name) && IsAddress(m.ip) {
      var i :| 0 <= i < count && members[i] == m;
      LabNameIsName(i + 1);
    }
    forall i, j | 0 <= i < j < count ensures members[i].name != members[j].name {
      if members[i].name == members[j].name {
        Nodes.HostnameInjective(i + 1, j + 1);
      }
    }
  }
}
