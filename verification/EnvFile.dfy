/** The lab's environment file: written once a lab is up, read back by every later phase. */
module EnvFile {
  import opened Text
  import opened Wrappers
  import Nodes

  type Entries = seq<(string, string)>

  function Print(entries: Entries): string {
    if entries == [] then "" else entries[0].0 + "=" + entries[0].1 + "\n" + Print(entries[1..])
  }

  /** dict(entries): a later entry replaces an earlier one of the same key. */
  function ToMap(entries: Entries): map<string, string> {
    if entries == [] then map[]
    else ToMap(entries[..|entries| - 1])[entries[|entries| - 1].0 := entries[|entries| - 1].1]
  }

  /** The index of the first '=', or the length when there is none. */
  function FirstEquals(s: string): (k: nat)
    ensures k <= |s| && '=' !in s[..k]
    ensures k < |s| <==> '=' in s
    ensures k < |s| ==> s[k] == '='
  {
    if s == "" || s[0] == '=' then 0
    else
      var k := FirstEquals(s[1..]);
      assert s[..k + 1] == [s[0]] + s[1..][..k];
      assert s == [s[0]] + s[1..];
      k + 1
  }

  /** line.partition("="), for the lines that have one. */
  function Partition(line: string): Option<(string, string)> {
    var k := FirstEquals(line);
    if k == |line| then None else Some((line[..k], line[k + 1..]))
  }

  function Entered(env: map<string, string>, line: string): map<string, string> {
    match Partition(line)
    case None => env
    case Some(entry) => env[entry.0 := entry.1]
  }

  function Parse(lines: seq<string>): map<string, string> {
    if lines == [] then map[] else Entered(Parse(lines[..|lines| - 1]), lines[|lines| - 1])
  }

  method ReadEnv(text: string) returns (env: map<string, string>)
    ensures env == Parse(SplitLines(text))
  {
    var lines := SplitLines(text);
    env := map[];
    for i := 0 to |lines|
      invariant env == Parse(lines[..i])
    {
      if '=' in lines[i] {
        var k := FirstEquals(lines[i]);
        env := env[lines[i][..k] := lines[i][k + 1..]];
      }
      assert lines[..i + 1][..i] == lines[..i];
    }
    assert lines[..|lines|] == lines;
  }

  ghost predicate Writable(entries: Entries) {
    forall e | e in entries :: '=' !in e.0 && !HasBreak(e.0) && !HasBreak(e.1)
  }

  lemma {:induction false} PrintedLines(entries: Entries)
    requires Writable(entries)
    ensures SplitLines(Print(entries)) == seq(|entries|, k requires 0 <= k < |entries| => entries[k].0 + "=" + entries[k].1)
  {
    if entries != [] {
      var line := entries[0].0 + "=" + entries[0].1;
      assert entries[0] in entries;
      assert !HasBreak(line) by {
        forall k | 0 <= k < |line| ensures !IsBreak(line[k]) {
          if k > |entries[0].0| {
            assert line[k] == entries[0].1[k - |entries[0].0| - 1];
          }
        }
      }
      assert forall e | e in entries[1..] :: e in entries;
      PrintedLines(entries[1..]);
      SplitLinesHead(line, Print(entries[1..]));
      assert Print(entries) == line + "\n" + Print(entries[1..]);
    }
  }

  lemma {:induction false} FirstEqualsAfter(key: string, rest: string)
    requires '=' !in key && rest != "" && rest[0] == '='
    ensures FirstEquals(key + rest) == |key|
  {
    if key == "" {
      assert key + rest == rest;
    } else {
      FirstEqualsAfter(key[1..], rest);
      assert (key + rest)[1..] == key[1..] + rest;
    }
  }

  lemma PartitionEntry(key: string, value: string)
    requires '=' !in key
    ensures Partition(key + "=" + value) == Some((key, value))
  {
    var line := key + "=" + value;
    assert line == key + ("=" + value);
    FirstEqualsAfter(key, "=" + value);
    assert line[..|key|] == key && line[|key| + 1..] == value;
  }

  lemma {:induction false} ParseEntries(entries: Entries, lines: seq<string>)
    requires forall e | e in entries :: '=' !in e.0
    requires |lines| == |entries|
    requires forall k | 0 <= k < |lines| :: lines[k] == entries[k].0 + "=" + entries[k].1
    ensures Parse(lines) == ToMap(entries)
  {
    if entries != [] {
      var n := |entries| - 1;
      assert entries[n] in entries;
      assert forall e | e in entries[..n] :: e in entries;
      ParseEntries(entries[..n], lines[..n]);
      PartitionEntry(entries[n].0, entries[n].1);
    }
  }

  /** What a parsed file can hold at all: no '=' in a key, no line break anywhere. */
  lemma {:induction false} ParsedIsClean(lines: seq<string>)
    requires forall l | l in lines :: !HasBreak(l)
    ensures forall k | k in Parse(lines) :: '=' !in k && !HasBreak(k) && !HasBreak(Parse(lines)[k])
  {
    if lines != [] {
      var n := |lines| - 1;
      assert lines[n] in lines;
      assert forall l | l in lines[..n] :: l in lines;
      ParsedIsClean(lines[..n]);
      var k := FirstEquals(lines[n]);
      assert !HasBreak(lines[n][..k]);
      if k < |lines[n]| {
        var value := lines[n][k + 1..];
        assert forall j | 0 <= j < |value| :: value[j] == lines[n][k + 1 + j];
        assert !HasBreak(value);
      }
    }
  }

  lemma {:induction false} ToMapEntries(entries: Entries)
    requires forall i, j | 0 <= i < j < |entries| :: entries[i].0 != entries[j].0
    ensures forall e | e in entries :: e.0 in ToMap(entries) && ToMap(entries)[e.0] == e.1
  {
    if entries != [] {
      var n := |entries| - 1;
      ToMapEntries(entries[..n]);
      forall e | e in entries ensures e.0 in ToMap(entries) && ToMap(entries)[e.0] == e.1 {
        var i :| 0 <= i < |entries| && entries[i] == e;
        if i < n {
          assert e == entries[..n][i];
        }
      }
    }
  }

  /**
   A dictionary survives the file exactly when no key has an '=' and nothing in it has a
   line break.
   */
  lemma EnvRoundTrip(entries: Entries)
    requires forall i, j | 0 <= i < j < |entries| :: entries[i].0 != entries[j].0
    ensures Parse(SplitLines(Print(entries))) == ToMap(entries) <==> Writable(entries)
  {
    if Writable(entries) {
      PrintedLines(entries);
      ParseEntries(entries, SplitLines(Print(entries)));
    }
    if Parse(SplitLines(Print(entries))) == ToMap(entries) {
      LinesHaveNoBreak(Print(entries));
      ParsedIsClean(SplitLines(Print(entries)));
      ToMapEntries(entries);
    }
  }

  // ----- what a lab writes, and how a later phase reaches a node through it

  datatype LabFacts = LabFacts(
    name: string, dir: string, count: nat, offset: nat, key: string,
    disks: nat, diskSize: string, version: string, variant: string)

  function NodeKey(index: nat, field: string): string {
    "NODE" + Decimal(index) + ("_" + field)
  }

  function HeadEntries(lab: LabFacts): Entries {
    [("LAB_NAME", lab.name), ("LAB_DIR", lab.dir), ("LAB_NODE_COUNT", Decimal(lab.count)),
     ("NODE_SSH_PORT", Decimal(Nodes.SshPort(1, lab.offset))),
     ("NODE_GUI_PORT", Decimal(Nodes.GuiPort(1, lab.offset))),
     ("NODE_SSH_KEY", lab.key), ("LAB_DISKS", Decimal(lab.disks)), ("LAB_DISK_SIZE", lab.diskSize),
     ("PVE_VERSION", lab.version), ("IMAGE_VARIANT", lab.variant)]
  }

  function Fields(lab: LabFacts, index: nat): Entries
    requires index >= 1
  {
    [("NAME", Nodes.Hostname(index)), ("SSH_PORT", Decimal(Nodes.SshPort(index, lab.offset))),
     ("GUI_PORT", Decimal(Nodes.GuiPort(index, lab.offset))), ("MGMT_IP", Nodes.MgmtIp(index)),
     ("CLUSTER_IP", Nodes.ClusterIp(index))]
  }

  function Prefixed(index: nat, fields: Entries): Entries {
    if fields == [] then []
    else
      var last := fields[|fields| - 1];
      Prefixed(index, fields[..|fields| - 1]) + [(NodeKey(index, last.0), last.1)]
  }

  function NodeEntries(lab: LabFacts, index: nat): Entries
    requires index >= 1
  {
    Prefixed(index, Fields(lab, index))
  }

  function EntriesUpTo(lab: LabFacts, n: nat): Entries {
    if n == 0 then HeadEntries(lab) else EntriesUpTo(lab, n - 1) + NodeEntries(lab, n)
  }

  function LabEnv(lab: LabFacts): Entries {
    EntriesUpTo(lab, lab.count)
  }

  /** connection(name, node).port: node 1's port when the file names no such node. */
  function ConnectionPort(env: map<string, string>, index: nat): Option<nat> {
    var key := if NodeKey(index, "SSH_PORT") in env then NodeKey(index, "SSH_PORT") else "NODE_SSH_PORT";
    if key in env && AllDigits(env[key]) then Some(Value(env[key])) else None
  }

  lemma NodeKeyInjective(i: nat, f: string, j: nat, g: string)
    requires NodeKey(i, f) == NodeKey(j, g)
    ensures i == j && f == g
  {
    assert NodeKey(i, f) == ("NODE" + Decimal(i)) + ['_'] + f;
    assert NodeKey(j, g) == ("NODE" + Decimal(j)) + ['_'] + g;
    forall n: nat ensures '_' !in "NODE" + Decimal(n) {
      assert forall c | c in Decimal(n) :: IsDigit(c);
    }
    SplitHead("NODE" + Decimal(i), '_', f);
    SplitHead("NODE" + Decimal(j), '_', g);
    assert "NODE" + Decimal(i) == Split(NodeKey(i, f), '_')[0] == Split(NodeKey(j, g), '_')[0] == "NODE" + Decimal(j);
    assert Decimal(i) == ("NODE" + Decimal(i))[4..] == ("NODE" + Decimal(j))[4..] == Decimal(j);
    DecimalInjective(i, j);
    assert f == NodeKey(i, f)[5 + |Decimal(i)|..] == g;
  }

  lemma {:induction false} ToMapAppend(a: Entries, b: Entries, key: string)
    ensures key in ToMap(a + b) <==> key in ToMap(a) || key in ToMap(b)
    ensures key in ToMap(b) ==> ToMap(a + b)[key] == ToMap(b)[key]
    ensures key in ToMap(a) && key !in ToMap(b) ==> ToMap(a + b)[key] == ToMap(a)[key]
  {
    if b == [] {
      assert a + b == a;
    } else {
      ToMapAppend(a, b[..|b| - 1], key);
      assert (a + b)[..|a + b| - 1] == a + b[..|b| - 1];
    }
  }

  lemma {:induction false} ToMapKeys(entries: Entries, key: string)
    ensures key in ToMap(entries) <==> exists e | e in entries :: e.0 == key
  {
    if entries != [] {
      var n := |entries| - 1;
      ToMapKeys(entries[..n], key);
      assert entries == entries[..n] + [entries[n]];
    }
  }

  lemma {:induction false} PrefixedLookup(index: nat, fields: Entries, i: nat, f: string)
    ensures NodeKey(i, f) in ToMap(Prefixed(index, fields)) <==> i == index && f in ToMap(fields)
    ensures NodeKey(i, f) in ToMap(Prefixed(index, fields)) ==>
      ToMap(Prefixed(index, fields))[NodeKey(i, f)] == ToMap(fields)[f]
  {
    if fields != [] {
      var n := |fields| - 1;
      PrefixedLookup(index, fields[..n], i, f);
      var own := Prefixed(index, fields);
      assert own[..|own| - 1] == Prefixed(index, fields[..n]);
      if NodeKey(i, f) == NodeKey(index, fields[n].0) {
        NodeKeyInjective(i, f, index, fields[n].0);
      }
    }
  }

  /** The keys that name no node have no digit where a node's number would start. */
  predicate IsPlainKey(key: string) {
    |key| > 4 && !IsDigit(key[4])
  }

  lemma NodeKeyIsNotPlain(i: nat, f: string)
    ensures !IsPlainKey(NodeKey(i, f))
  {
    assert NodeKey(i, f)[4] == Decimal(i)[0];
  }

  lemma {:induction false} PrefixedHasNoPlainKey(index: nat, fields: Entries, key: string)
    requires IsPlainKey(key)
    ensures key !in ToMap(Prefixed(index, fields))
  {
    if fields != [] {
      var n := |fields| - 1;
      PrefixedHasNoPlainKey(index, fields[..n], key);
      var own := Prefixed(index, fields);
      assert own[..|own| - 1] == Prefixed(index, fields[..n]);
      NodeKeyIsNotPlain(index, fields[n].0);
    }
  }

  lemma HeadKeysArePlain(lab: LabFacts)
    ensures forall k | 0 <= k < 10 :: IsPlainKey(HeadEntries(lab)[k].0)
  {
  }

  lemma HeadLookup(lab: LabFacts)
    ensures "NODE_SSH_PORT" in ToMap(HeadEntries(lab))
    ensures ToMap(HeadEntries(lab))["NODE_SSH_PORT"] == Decimal(Nodes.SshPort(1, lab.offset))
  {
    var head := HeadEntries(lab);
    assert head[3] in head;
    forall k | 0 <= k < 10 && k != 3 ensures head[k].0 != head[3].0 {
      assert |head[k].0| != 13 || head[k].0[5] != 'S';
    }
    ToMapFirst(head, head[3]);
  }

  lemma FieldLookup(lab: LabFacts, index: nat)
    requires index >= 1
    ensures "SSH_PORT" in ToMap(Fields(lab, index))
    ensures ToMap(Fields(lab, index))["SSH_PORT"] == Decimal(Nodes.SshPort(index, lab.offset))
  {
    var fields := Fields(lab, index);
    assert fields[1] in fields;
    forall k | 0 <= k < 5 && k != 1 ensures fields[k].0 != fields[1].0 {
      assert |fields[k].0| != 8 || fields[k].0[0] != 'S';
    }
    ToMapFirst(fields, fields[1]);
  }

  /** What the entries up to node n say about node i's ssh port, and about the default one. */
  lemma {:induction false} PortEntries(lab: LabFacts, n: nat, i: nat)
    requires i >= 1
    ensures NodeKey(i, "SSH_PORT") in ToMap(EntriesUpTo(lab, n)) <==> i <= n
    ensures i <= n ==> ToMap(EntriesUpTo(lab, n))[NodeKey(i, "SSH_PORT")] == Decimal(Nodes.SshPort(i, lab.offset))
    ensures "NODE_SSH_PORT" in ToMap(EntriesUpTo(lab, n))
    ensures ToMap(EntriesUpTo(lab, n))["NODE_SSH_PORT"] == Decimal(Nodes.SshPort(1, lab.offset))
  {
    var key, default := NodeKey(i, "SSH_PORT"), "NODE_SSH_PORT";
    if n == 0 {
      ToMapKeys(HeadEntries(lab), key);
      NodeKeyIsNotPlain(i, "SSH_PORT");
      HeadKeysArePlain(lab);
      HeadLookup(lab);
    } else {
      PortEntries(lab, n - 1, i);
      FieldLookup(lab, n);
      PrefixedLookup(n, Fields(lab, n), i, "SSH_PORT");
      PrefixedHasNoPlainKey(n, Fields(lab, n), default);
      ToMapAppend(EntriesUpTo(lab, n - 1), NodeEntries(lab, n), key);
      ToMapAppend(EntriesUpTo(lab, n - 1), NodeEntries(lab, n), default);
    }
  }

  lemma {:induction false} ToMapFirst(entries: Entries, entry: (string, string))
    requires entry in entries && forall e | e in entries && e.0 == entry.0 :: e == entry
    ensures entry.0 in ToMap(entries) && ToMap(entries)[entry.0] == entry.1
  {
    var n := |entries| - 1;
    assert entries[n] in entries;
    if entries[n] != entry {
      assert entries == entries[..n] + [entries[n]];
      ToMapFirst(entries[..n], entry);
    }
  }

  lemma {:induction false} PrefixedWritable(index: nat, fields: Entries)
    requires Writable(fields)
    ensures Writable(Prefixed(index, fields))
  {
    if fields != [] {
      var n := |fields| - 1;
      assert fields[n] in fields && forall e | e in fields[..n] :: e in fields;
      PrefixedWritable(index, fields[..n]);
      assert forall c | c in Decimal(index) :: IsDigit(c);
    }
  }

  /** Keys as this file has them: capitals and underscores. */
  predicate IsKey(key: string) {
    forall k | 0 <= k < |key| :: 'A' <= key[k] <= 'Z' || key[k] == '_'
  }

  lemma KeyIsWritable(key: string)
    requires IsKey(key)
    ensures '=' !in key && !HasBreak(key)
  {
  }

  lemma FieldKeys(lab: LabFacts, index: nat)
    requires index >= 1
    ensures forall k | 0 <= k < 5 :: IsKey(Fields(lab, index)[k].0)
  {
  }

  lemma FieldValues(lab: LabFacts, index: nat)
    requires index >= 1
    ensures forall k | 0 <= k < 5 :: !HasBreak(Fields(lab, index)[k].1)
  {
    assert !HasBreak(Nodes.Hostname(index)) && !HasBreak(Nodes.ClusterIp(index)) && !HasBreak(Nodes.MgmtIp(index));
  }

  lemma FieldsWritable(lab: LabFacts, index: nat)
    requires index >= 1
    ensures Writable(Fields(lab, index))
  {
    var fields := Fields(lab, index);
    FieldKeys(lab, index);
    FieldValues(lab, index);
    forall k | 0 <= k < 5 ensures '=' !in fields[k].0 && !HasBreak(fields[k].0) {
      KeyIsWritable(fields[k].0);
    }
  }

  lemma {:induction false} LabEnvWritable(lab: LabFacts, n: nat)
    requires Writable(HeadEntries(lab))
    ensures Writable(EntriesUpTo(lab, n))
  {
    if n > 0 {
      LabEnvWritable(lab, n - 1);
      FieldsWritable(lab, n);
      PrefixedWritable(n, Fields(lab, n));
    }
  }

  lemma HeadWritable(lab: LabFacts)
    requires !HasBreak(lab.name) && !HasBreak(lab.dir) && !HasBreak(lab.key)
    requires !HasBreak(lab.diskSize) && !HasBreak(lab.version) && !HasBreak(lab.variant)
    ensures Writable(HeadEntries(lab))
  {
    var head := HeadEntries(lab);
    HeadKeys(lab);
    HeadValues(lab);
    forall k | 0 <= k < 10 ensures '=' !in head[k].0 && !HasBreak(head[k].0) {
      KeyIsWritable(head[k].0);
    }
  }

  lemma HeadKeys(lab: LabFacts)
    ensures forall k | 0 <= k < 10 :: IsKey(HeadEntries(lab)[k].0)
  {
  }

  lemma HeadValues(lab: LabFacts)
    requires !HasBreak(lab.name) && !HasBreak(lab.dir) && !HasBreak(lab.key)
    requires !HasBreak(lab.diskSize) && !HasBreak(lab.version) && !HasBreak(lab.variant)
    ensures forall k | 0 <= k < 10 :: !HasBreak(HeadEntries(lab)[k].1)
  {
  }

  /**
   A later phase that asks for node i gets i's own port if the lab has that node, and node
   1's port, not an error, if it does not.
   */
  lemma ConnectionReaches(lab: LabFacts, i: nat)
    requires i >= 1
    requires !HasBreak(lab.name) && !HasBreak(lab.dir) && !HasBreak(lab.key)
    requires !HasBreak(lab.diskSize) && !HasBreak(lab.version) && !HasBreak(lab.variant)
    ensures ConnectionPort(Parse(SplitLines(Print(LabEnv(lab)))), i) ==
            Some(Nodes.SshPort(if i <= lab.count then i else 1, lab.offset))
  {
    HeadWritable(lab);
    LabEnvWritable(lab, lab.count);
    PrintedLines(LabEnv(lab));
    ParseEntries(LabEnv(lab), SplitLines(Print(LabEnv(lab))));
    PortEntries(lab, lab.count, i);
    ValueOfDecimal(Nodes.SshPort(i, lab.offset));
    ValueOfDecimal(Nodes.SshPort(1, lab.offset));
  }
}
