/**
 Telling whether a guest's volume has moved. A volume is matched to its guest by pieces of
 its name, so what those pieces can match matters.
 */
module Volumes {
  import opened Text
  import opened Wrappers

  datatype Entry = Entry(content: string, volid: string, vmid: Option<nat>)

  /** What the cluster shows: a guest's configured volume, and each storage's content. */
  datatype World = World(configured: string, content: map<string, seq<Entry>>) {
    function On(storage: string): seq<Entry> {
      if storage in content then content[storage] else []
    }
  }

  predicate HoldsDisks(e: Entry) {
    e.content == "images" || e.content == "rootdir"
  }

  /** f"-{vmid}-" in volid or f":{vmid}/" in volid. */
  predicate NamedFor(volid: string, vmid: nat) {
    || (exists k | 0 <= k < |volid| :: OccursAt(volid, "-" + Decimal(vmid) + "-", k))
    || (exists k | 0 <= k < |volid| :: OccursAt(volid, ":" + Decimal(vmid) + "/", k))
  }

  predicate BelongsTo(e: Entry, vmid: nat) {
    HoldsDisks(e) && (e.vmid == Some(vmid) || NamedFor(e.volid, vmid))
  }

  method VolumesFor(entries: seq<Entry>, vmid: nat) returns (found: seq<string>)
    ensures forall v :: v in found <==> exists e | e in entries :: BelongsTo(e, vmid) && e.volid == v
    ensures found == [] <==> forall e | e in entries :: !BelongsTo(e, vmid)
  {
    found := [];
    for i := 0 to |entries|
      invariant forall v :: v in found <==> exists e | e in entries[..i] :: BelongsTo(e, vmid) && e.volid == v
      invariant found == [] <==> forall e | e in entries[..i] :: !BelongsTo(e, vmid)
    {
      assert entries[..i + 1] == entries[..i] + [entries[i]];
      if BelongsTo(entries[i], vmid) {
        found := found + [entries[i].volid];
      }
    }
    assert entries[..|entries|] == entries;
  }

  predicate HasVolume(w: World, storage: string, vmid: nat) {
    exists i | 0 <= i < |w.On(storage)| :: BelongsTo(w.On(storage)[i], vmid)
  }

  /** assert_relocated passes. */
  predicate Relocated(w: World, vmid: nat, source: string, dest: string) {
    StartsWith(w.configured, dest + ":") && HasVolume(w, dest, vmid) && !HasVolume(w, source, vmid)
  }

  /** _assert_clean_refusal passes, up to restarting the guest. */
  predicate CleanlyRefused(w: World, vmid: nat, source: string, dest: string) {
    StartsWith(w.configured, source + ":") && HasVolume(w, source, vmid) && !HasVolume(w, dest, vmid)
  }

  /** The two oracles are each other's mirror image, so a world passes at most one. */
  lemma MovedOrRefused(w: World, vmid: nat, source: string, dest: string)
    ensures Relocated(w, vmid, source, dest) <==> CleanlyRefused(w, vmid, dest, source)
    ensures !(Relocated(w, vmid, source, dest) && CleanlyRefused(w, vmid, source, dest))
  {
  }

  datatype Problem = ConfigElsewhere | NothingOnDestination | LeftBehind

  method AssertRelocated(w: World, vmid: nat, source: string, dest: string) returns (problems: seq<Problem>)
    ensures problems == [] <==> Relocated(w, vmid, source, dest)
    ensures ConfigElsewhere in problems <==> !StartsWith(w.configured, dest + ":")
    ensures NothingOnDestination in problems <==> !HasVolume(w, dest, vmid)
    ensures LeftBehind in problems <==> HasVolume(w, source, vmid)
  {
    problems := [];
    if !StartsWith(w.configured, dest + ":") {
      problems := problems + [ConfigElsewhere];
    }
    var there := VolumesFor(w.On(dest), vmid);
    NoneFound(w, dest, vmid);
    if there == [] {
      problems := problems + [NothingOnDestination];
    }
    var left := VolumesFor(w.On(source), vmid);
    NoneFound(w, source, vmid);
    if left != [] {
      problems := problems + [LeftBehind];
    }
  }

  lemma NoneFound(w: World, storage: string, vmid: nat)
    ensures HasVolume(w, storage, vmid) <==> exists e | e in w.On(storage) :: BelongsTo(e, vmid)
  {
  }

  datatype MoveEnd = Carried | Refused | TimesOut

  datatype TripEnd = Passes | RefusedCleanly | Fails

  /**
   The round trip: `move(k)` is how the k-th move ends, `after(k)` what the cluster shows then,
   and `intact(k)` whether the guest starts and its data is there. A move that takes too long
   is no refusal: what raises then goes past the test for a clean one.
   */
  method RoundTrip(vmid: nat, source: string, dest: string,
                   move: nat -> MoveEnd, after: nat -> World, intact: nat -> bool)
      returns (r: TripEnd)
    // Home again: config and volume where they started, nothing left on the way.
    ensures r.Passes? ==> CleanlyRefused(after(1), vmid, source, dest) && intact(1)
    ensures r.Passes? ==> CleanlyRefused(after(0), vmid, dest, source) && intact(0)
    // A refusal that moved nothing, and no other, is told apart.
    ensures r.RefusedCleanly? <==> move(0).Refused? && CleanlyRefused(after(0), vmid, source, dest) && intact(0)
    // And nothing that was carried out whole is called a failure.
    ensures r.Fails? <==>
      match move(0)
      case Carried => !(Relocated(after(0), vmid, source, dest) && intact(0)
                        && move(1).Carried? && Relocated(after(1), vmid, dest, source) && intact(1))
      case Refused => !(CleanlyRefused(after(0), vmid, source, dest) && intact(0))
      case TimesOut => true
  {
    MovedOrRefused(after(0), vmid, source, dest);
    MovedOrRefused(after(1), vmid, dest, source);
    if move(0).TimesOut? {
      return Fails;
    }
    if move(0).Refused? {
      var clean := AssertCleanRefusal(after(0), vmid, source, dest);
      return if clean && intact(0) then RefusedCleanly else Fails;
    }
    var problems := AssertRelocated(after(0), vmid, source, dest);
    if problems != [] || !intact(0) || !move(1).Carried? {
      return Fails;
    }
    problems := AssertRelocated(after(1), vmid, dest, source);
    return if problems == [] && intact(1) then Passes else Fails;
  }

  method AssertCleanRefusal(w: World, vmid: nat, source: string, dest: string) returns (clean: bool)
    ensures clean <==> CleanlyRefused(w, vmid, source, dest)
  {
    if !StartsWith(w.configured, source + ":") {
      return false;
    }
    NoneFound(w, source, vmid);
    NoneFound(w, dest, vmid);
    var there := VolumesFor(w.On(source), vmid);
    if there == [] {
      return false;
    }
    var leftover := VolumesFor(w.On(dest), vmid);
    return leftover == [];
  }

  // ----- names

  lemma OccursNowhere(s: string, p: string, c: char)
    requires c in p && c !in s
    ensures !Contains(s, p)
  {
    var j :| 0 <= j < |p| && p[j] == c;
    forall k ensures !OccursAt(s, p, k) {
      if 0 <= k <= |s| - |p| {
        assert s[k..k + |p|][j] == s[k + j];
      }
    }
  }

  /** What does not hold a separator occurs on one side of it. */
  lemma OccursOnOneSide(a: string, c: char, b: string, p: string)
    requires c !in p && p != ""
    ensures Contains(a + [c] + b, p) <==> Contains(a, p) || Contains(b, p)
  {
    var s := a + [c] + b;
    forall k | OccursAt(s, p, k) ensures Contains(a, p) || Contains(b, p) {
      assert forall j | k <= j < k + |p| :: s[j] == s[k..k + |p|][j - k] && s[j] != c;
      assert s[|a|] == c;
      if k + |p| <= |a| {
        assert s[k..k + |p|] == a[k..k + |p|];
        assert OccursAt(a, p, k);
      } else {
        assert k > |a|;
        assert s[k..k + |p|] == b[k - |a| - 1..k - |a| - 1 + |p|];
        assert OccursAt(b, p, k - |a| - 1);
      }
    }
    forall k | OccursAt(a, p, k) ensures Contains(s, p) {
      assert s[k..k + |p|] == a[k..k + |p|];
      assert OccursAt(s, p, k);
    }
    forall k | OccursAt(b, p, k) ensures Contains(s, p) {
      assert s[|a| + 1..] == b;
      assert s[|a| + 1 + k..|a| + 1 + k + |p|] == s[|a| + 1..][k..k + |p|];
      assert OccursAt(s, p, |a| + 1 + k);
    }
  }

  /** After a part without dashes: the next part is the one looked for, or it comes later. */
  lemma DashedOccurs(x: string, rest: string, d: string)
    requires '-' !in x && '-' !in d
    ensures Contains(x + "-" + rest, "-" + d + "-") <==> StartsWith(rest, d + "-") || Contains(rest, "-" + d + "-")
  {
    var s, p := x + "-" + rest, "-" + d + "-";
    forall k | OccursAt(s, p, k) ensures StartsWith(rest, d + "-") || Contains(rest, p) {
      assert s[k] == p[0] == '-';
      assert k >= |x|;
      if k == |x| {
        assert s[k..k + |p|][1..] == rest[..|d| + 1];
        assert p[1..] == d + "-";
      } else {
        assert s[k..k + |p|] == rest[k - |x| - 1..k - |x| - 1 + |p|];
        assert OccursAt(rest, p, k - |x| - 1);
      }
    }
    if StartsWith(rest, d + "-") {
      assert s[|x|..|x| + |p|] == "-" + rest[..|d| + 1] == p;
      assert OccursAt(s, p, |x|);
    }
    forall k | OccursAt(rest, p, k) ensures Contains(s, p) {
      assert s[|x| + 1 + k..|x| + 1 + k + |p|] == rest[k..k + |p|];
      assert OccursAt(s, p, |x| + 1 + k);
    }
  }

  /** Up to the next dash there is exactly one part. */
  lemma PartBeforeDash(y: string, more: string, d: string, c: char)
    requires c !in y && c !in d
    ensures StartsWith(y + [c] + more, d + [c]) <==> d == y
  {
    var s := y + [c] + more;
    SplitHead(y, c, more);
    if StartsWith(s, d + [c]) {
      assert s == d + [c] + s[|d| + 1..];
      SplitHead(d, c, s[|d| + 1..]);
      assert Split(s, c)[0] == y && Split(s, c)[0] == d;
    }
  }

  // ----- whose a canonically named volume is

  predicate IsStorageId(storage: string) {
    ':' !in storage && '/' !in storage
  }

  /** The storage's own name has a guest's number between dashes, and with it every volume on it. */
  ghost predicate NamesGuest(storage: string, vmid: nat) {
    Contains(storage, "-" + Decimal(vmid) + "-")
  }

  /** vm, base or subvol; and an ending such as .raw. */
  predicate IsWord(s: string) {
    '-' !in s && ':' !in s && '/' !in s
  }

  /** <prefix>-<vmid>-disk-<n><ext>. */
  function VolumeName(prefix: string, vmid: nat, n: nat, ext: string): string {
    prefix + "-" + (Decimal(vmid) + "-" + ("disk" + "-" + (Decimal(n) + ext)))
  }

  /** On a storage of block volumes, and on one with a directory for each guest. */
  function BlockVolid(storage: string, prefix: string, vmid: nat, n: nat, ext: string): string {
    storage + [':'] + VolumeName(prefix, vmid, n, ext)
  }

  function FileVolid(storage: string, prefix: string, vmid: nat, n: nat, ext: string): string {
    storage + [':'] + (Decimal(vmid) + ['/'] + VolumeName(prefix, vmid, n, ext))
  }

  lemma DigitsAreAWord(n: nat)
    ensures IsWord(Decimal(n)) && '/' !in Decimal(n)
  {
    assert forall c | c in Decimal(n) :: IsDigit(c);
  }

  /** Between the dashes of a volume's name, the guest's number is the only number. */
  lemma NameHasItsNumber(prefix: string, vmid: nat, n: nat, ext: string, other: nat)
    requires IsWord(prefix) && IsWord(ext)
    ensures Contains(VolumeName(prefix, vmid, n, ext), "-" + Decimal(other) + "-") <==> other == vmid
  {
    var d, tail := Decimal(other), Decimal(n) + ext;
    DigitsAreAWord(vmid);
    DigitsAreAWord(other);
    DigitsAreAWord(n);
    DashedOccurs(prefix, Decimal(vmid) + "-" + ("disk" + "-" + tail), d);
    DashedOccurs(Decimal(vmid), "disk" + "-" + tail, d);
    DashedOccurs("disk", tail, d);
    PartBeforeDash(Decimal(vmid), "disk" + "-" + tail, d, '-');
    PartBeforeDash("disk", tail, d, '-');
    assert d != "disk" by {
      assert IsDigit(d[0]) && !IsDigit("disk"[0]);
    }
    assert '-' !in tail;
    assert !StartsWith(tail, d + "-") by {
      assert (d + "-")[|d|] == '-';
      assert StartsWith(tail, d + "-") ==> '-' in tail;
    }
    OccursNowhere(tail, "-" + d + "-", '-');
    if d == Decimal(vmid) {
      DecimalInjective(other, vmid);
    }
  }

  lemma NameHasNoPlace(prefix: string, vmid: nat, n: nat, ext: string)
    requires IsWord(prefix) && IsWord(ext)
    ensures ':' !in VolumeName(prefix, vmid, n, ext) && '/' !in VolumeName(prefix, vmid, n, ext)
  {
    DigitsAreAWord(vmid);
    DigitsAreAWord(n);
  }

  lemma NamedForContains(volid: string, vmid: nat)
    ensures NamedFor(volid, vmid) <==>
            Contains(volid, "-" + Decimal(vmid) + "-") || Contains(volid, ":" + Decimal(vmid) + "/")
  {
  }

  /** A canonical block volume is matched to its own guest, and to the ones its storage's name has. */
  lemma BlockVolumeIsMatched(storage: string, prefix: string, vmid: nat, n: nat, ext: string, other: nat)
    requires IsStorageId(storage) && IsWord(prefix) && IsWord(ext)
    ensures NamedFor(BlockVolid(storage, prefix, vmid, n, ext), other) <==> other == vmid || NamesGuest(storage, other)
  {
    var d, name := Decimal(other), VolumeName(prefix, vmid, n, ext);
    DigitsAreAWord(other);
    NameHasNoPlace(prefix, vmid, n, ext);
    NamedForContains(BlockVolid(storage, prefix, vmid, n, ext), other);
    OccursOnOneSide(storage, ':', name, "-" + d + "-");
    NameHasItsNumber(prefix, vmid, n, ext, other);
    assert '/' !in BlockVolid(storage, prefix, vmid, n, ext);
    assert (":" + d + "/")[|d| + 1] == '/';
    OccursNowhere(BlockVolid(storage, prefix, vmid, n, ext), ":" + d + "/", '/');
  }

  /** And so is one in a guest's directory. */
  lemma FileVolumeIsMatched(storage: string, prefix: string, vmid: nat, n: nat, ext: string, other: nat)
    requires IsStorageId(storage) && IsWord(prefix) && IsWord(ext)
    ensures NamedFor(FileVolid(storage, prefix, vmid, n, ext), other) <==> other == vmid || NamesGuest(storage, other)
  {
    var d, name := Decimal(other), VolumeName(prefix, vmid, n, ext);
    var volid, inner := FileVolid(storage, prefix, vmid, n, ext), Decimal(vmid) + ['/'] + name;
    DigitsAreAWord(other);
    DigitsAreAWord(vmid);
    NameHasNoPlace(prefix, vmid, n, ext);
    NamedForContains(volid, other);
    OccursOnOneSide(storage, ':', inner, "-" + d + "-");
    OccursOnOneSide(Decimal(vmid), '/', name, "-" + d + "-");
    assert ("-" + d + "-")[0] == '-';
    OccursNowhere(Decimal(vmid), "-" + d + "-", '-');
    NameHasItsNumber(prefix, vmid, n, ext, other);
    PlaceOccurs(storage, inner, d);
    PartBeforeDash(Decimal(vmid), name, d, '/');
    if d == Decimal(vmid) {
      DecimalInjective(other, vmid);
    }
  }

  /** With one colon in all, what follows it decides. */
  lemma PlaceOccurs(storage: string, inner: string, d: string)
    requires ':' !in storage && ':' !in inner && ':' !in d
    ensures Contains(storage + [':'] + inner, ":" + d + "/") <==> StartsWith(inner, d + ['/'])
  {
    var s, p := storage + [':'] + inner, ":" + d + "/";
    forall k | OccursAt(s, p, k) ensures StartsWith(inner, d + ['/']) {
      assert s[k] == s[k..k + |p|][0] == ':';
      assert k == |storage|;
      assert s[k..k + |p|][1..] == inner[..|d| + 1] && p[1..] == d + ['/'];
    }
    if StartsWith(inner, d + ['/']) {
      assert s[|storage|..|storage| + |p|] == [':'] + inner[..|d| + 1] == p;
      assert OccursAt(s, p, |storage|);
    }
  }

  /** On a storage whose name has no number between dashes, a volume is its own guest's alone. */
  lemma PlainStorageTellsApart(storage: string, prefix: string, vmid: nat, n: nat, ext: string, other: nat)
    requires IsStorageId(storage) && IsWord(prefix) && IsWord(ext) && !NamesGuest(storage, other)
    ensures NamedFor(BlockVolid(storage, prefix, vmid, n, ext), other) <==> other == vmid
    ensures NamedFor(FileVolid(storage, prefix, vmid, n, ext), other) <==> other == vmid
  {
    BlockVolumeIsMatched(storage, prefix, vmid, n, ext, other);
    FileVolumeIsMatched(storage, prefix, vmid, n, ext, other);
  }

  /** A linked clone's volume is matched to the guest it was cloned from as well, and to no third. */
  lemma LinkedCloneIsMatchedTwice(storage: string, vmid: nat, n: nat, base: nat, m: nat, other: nat)
    requires IsStorageId(storage)
    ensures var volid := storage + [':'] + (VolumeName("base", base, m, "") + ['/'] + VolumeName("vm", vmid, n, ""));
            NamedFor(volid, other) <==> other == vmid || other == base || NamesGuest(storage, other)
  {
    var lower, upper := VolumeName("base", base, m, ""), VolumeName("vm", vmid, n, "");
    var inner, d := lower + ['/'] + upper, Decimal(other);
    var volid := storage + [':'] + inner;
    DigitsAreAWord(other);
    NameHasNoPlace("base", base, m, "");
    NameHasNoPlace("vm", vmid, n, "");
    NamedForContains(volid, other);
    OccursOnOneSide(storage, ':', inner, "-" + d + "-");
    OccursOnOneSide(lower, '/', upper, "-" + d + "-");
    NameHasItsNumber("base", base, m, "", other);
    NameHasItsNumber("vm", vmid, n, "", other);
    PlaceOccurs(storage, inner, d);
    PartBeforeDash(lower, upper, d, '/');
    assert d != lower by {
      assert IsDigit(d[0]) && lower[0] == 'b';
    }
  }
}
