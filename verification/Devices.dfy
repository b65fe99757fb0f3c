/**
 Test disks, from what profiles ask for to what a machine is started with. Each profile
 gets its own run of numbers; nothing is recorded, so this has to hold by arithmetic.
 */
module Devices {
  import opened Text

  datatype Wanting = Wanting(name: string, disks: int)

  function ById(d: int): string
    requires d >= 0
  {
    "/dev/disk/by-id/virtio-labdisk" + Decimal(d)
  }

  /** The serial lab.up gives the d-th disk it attaches. */
  function Serial(d: nat): string {
    "labdisk" + Decimal(d)
  }

  function Max(a: int, b: int): int {
    if a > b then a else b
  }

  function Total(profiles: seq<Wanting>): int {
    if profiles == [] then 0
    else Total(profiles[..|profiles| - 1]) + profiles[|profiles| - 1].disks
  }

  /** What the prepare phase asks lab.up to attach. */
  function Attached(profiles: seq<Wanting>): nat {
    Max(1, Total(profiles))
  }

  function Run(offset: int, disks: int): (r: seq<int>) {
    seq(Max(0, disks), i => offset + 1 + i)
  }

  /** assign_disks, by disk number: range(1, disks + 1) past what came before. */
  method AssignDisks(profiles: seq<Wanting>) returns (assignment: map<string, seq<int>>)
    ensures assignment == Assigned(profiles)
  {
    assignment := map[];
    var offset := 0;
    for k := 0 to |profiles|
      invariant offset == Total(profiles[..k])
      invariant assignment == Assigned(profiles[..k])
    {
      var mine: seq<int> := [];
      for i := 1 to Max(0, profiles[k].disks) + 1
        invariant mine == Run(offset, i - 1)
      {
        mine := mine + [offset + i];
      }
      assignment := assignment[profiles[k].name := mine];
      offset := offset + profiles[k].disks;
      assert profiles[..k + 1][..k] == profiles[..k];
      assert mine == Run(Total(profiles[..k]), profiles[k].disks);
    }
    assert profiles[..|profiles|] == profiles;
  }

  function Assigned(profiles: seq<Wanting>): map<string, seq<int>> {
    if profiles == [] then map[]
    else
      var front, last := profiles[..|profiles| - 1], profiles[|profiles| - 1];
      Assigned(front)[last.name := Run(Total(front), last.disks)]
  }

  ghost predicate WellAsked(profiles: seq<Wanting>) {
    && (forall p | p in profiles :: p.disks >= 0)
    && forall i, j | 0 <= i < j < |profiles| :: profiles[i].name != profiles[j].name
  }

  lemma {:induction false} TotalGrows(profiles: seq<Wanting>, k: nat)
    requires WellAsked(profiles) && k <= |profiles|
    ensures 0 <= Total(profiles[..k]) <= Total(profiles)
  {
    if k < |profiles| {
      var front := profiles[..|profiles| - 1];
      assert profiles[|profiles| - 1] in profiles && forall p | p in front :: p in profiles;
      TotalGrows(front, k);
      assert front[..k] == profiles[..k];
    } else {
      assert profiles[..k] == profiles;
      if k > 0 {
        TotalGrows(profiles, k - 1);
      }
    }
  }

  /** Each profile's run is its own stretch of the numbers. */
  lemma {:induction false} RunOf(profiles: seq<Wanting>, k: nat)
    requires WellAsked(profiles) && k < |profiles|
    ensures profiles[k].name in Assigned(profiles)
    ensures Assigned(profiles)[profiles[k].name] == Run(Total(profiles[..k]), profiles[k].disks)
  {
    var front := profiles[..|profiles| - 1];
    if k < |profiles| - 1 {
      assert forall p | p in front :: p in profiles;
      RunOf(front, k);
      assert front[..k] == profiles[..k];
    }
  }

  /** The profile of this name is told to use disk d. */
  predicate Uses(profiles: seq<Wanting>, name: string, d: int) {
    name in Assigned(profiles) && d in Assigned(profiles)[name]
  }

  lemma UsesItsRun(profiles: seq<Wanting>, k: nat, d: int)
    requires WellAsked(profiles) && k < |profiles|
    ensures Uses(profiles, profiles[k].name, d) <==> Total(profiles[..k]) < d <= Total(profiles[..k + 1])
  {
    RunOf(profiles, k);
    assert profiles[..k + 1][..k] == profiles[..k] && profiles[k] in profiles;
    var run := Run(Total(profiles[..k]), profiles[k].disks);
    if Total(profiles[..k]) < d <= Total(profiles[..k + 1]) {
      assert run[d - Total(profiles[..k]) - 1] == d;
    }
  }

  lemma LaterStartsLater(profiles: seq<Wanting>, j: nat, k: nat)
    requires WellAsked(profiles) && j <= k <= |profiles|
    ensures Total(profiles[..j]) <= Total(profiles[..k])
  {
    var upToK := profiles[..k];
    assert forall p | p in upToK :: p in profiles;
    TotalGrows(upToK, j);
    assert upToK[..j] == profiles[..j];
  }

  /** No disk goes to two profiles. */
  lemma RunsAreDisjoint(profiles: seq<Wanting>, j: nat, k: nat, d: int)
    requires WellAsked(profiles) && j < k < |profiles|
    ensures !(Uses(profiles, profiles[j].name, d) && Uses(profiles, profiles[k].name, d))
  {
    UsesItsRun(profiles, j, d);
    UsesItsRun(profiles, k, d);
    LaterStartsLater(profiles, j + 1, k);
  }

  /** The runs together are the disks 1 to the total. */
  lemma {:induction false} RunsCoverTheDisks(profiles: seq<Wanting>, d: int)
    requires WellAsked(profiles)
    ensures (exists k | 0 <= k < |profiles| :: Uses(profiles, profiles[k].name, d)) <==> 1 <= d <= Total(profiles)
  {
    forall k | 0 <= k < |profiles| && Uses(profiles, profiles[k].name, d) ensures 1 <= d <= Total(profiles) {
      UsesItsRun(profiles, k, d);
      TotalGrows(profiles, k);
      TotalGrows(profiles, k + 1);
    }
    if 1 <= d <= Total(profiles) {
      assert profiles[..|profiles|] == profiles;
      var k := ProfileOf(profiles, d, |profiles|);
      UsesItsRun(profiles, k, d);
    }
  }

  lemma {:induction false} ProfileOf(profiles: seq<Wanting>, d: int, n: nat) returns (k: nat)
    requires n <= |profiles| && 1 <= d <= Total(profiles[..n])
    ensures k < n && Total(profiles[..k]) < d <= Total(profiles[..k + 1])
  {
    assert n > 0 && profiles[..n][..n - 1] == profiles[..n - 1];
    if d <= Total(profiles[..n - 1]) {
      k := ProfileOf(profiles, d, n - 1);
    } else {
      k := n - 1;
    }
  }

  /** Every path a profile is told is that of a disk the lab attaches, by its serial. */
  lemma AssignedDisksAreAttached(profiles: seq<Wanting>, k: nat, d: int)
    requires WellAsked(profiles) && k < |profiles| && Uses(profiles, profiles[k].name, d)
    ensures 1 <= d <= Attached(profiles) && ById(d) == "/dev/disk/by-id/virtio-" + Serial(d)
  {
    UsesItsRun(profiles, k, d);
    TotalGrows(profiles, k);
    TotalGrows(profiles, k + 1);
    assert ById(d) == "/dev/disk/by-id/virtio-" + ("labdisk" + Decimal(d));
  }

  /** A negative DISKS can hand a disk out twice. */
  lemma NegativeDisksOverlap(a: string, b: string, c: string, n: nat)
    requires a != b && a != c && b != c && n >= 1
    ensures var profiles := [Wanting(a, n), Wanting(b, -1), Wanting(c, 1)];
            Uses(profiles, a, n) && Uses(profiles, c, n)
  {
    var profiles := [Wanting(a, n), Wanting(b, -1), Wanting(c, 1)];
    var p1, p2 := [Wanting(a, n)], [Wanting(a, n), Wanting(b, -1)];
    assert profiles[..2] == p2 && p2[..1] == p1 && p1[..0] == [];
    assert Total(p1) == n && Total(p2) == n - 1;
    assert Assigned(p1) == map[a := Run(0, n)];
    assert Assigned(p2) == Assigned(p1)[b := Run(n, -1)];
    assert Assigned(profiles) == Assigned(p2)[c := Run(n - 1, 1)];
    assert Run(0, n)[n - 1] == n && Run(n - 1, 1)[0] == n;
  }

  /** Of two profiles of one name, the first one's disks are not in the assignment. */
  lemma SameNameLosesDisks(name: string, m: int, n: int)
    ensures Assigned([Wanting(name, m), Wanting(name, n)]) == map[name := Run(m, n)]
  {
    var profiles, p1 := [Wanting(name, m), Wanting(name, n)], [Wanting(name, m)];
    assert profiles[..1] == p1 && p1[..0] == [];
    assert Total(p1) == m && Assigned(p1) == map[name := Run(0, m)];
  }

  // ----- counts that may be negative

  predicate DistinctNames(profiles: seq<Wanting>) {
    forall i, j | 0 <= i < j < |profiles| :: profiles[i].name != profiles[j].name
  }

  /** How many disks are handed out, counting one that is handed out twice as two. */
  function HandedOut(profiles: seq<Wanting>): nat {
    if profiles == [] then 0
    else HandedOut(profiles[..|profiles| - 1]) + Max(0, profiles[|profiles| - 1].disks)
  }

  function StartOf(profiles: seq<Wanting>, k: nat): int
    requires k < |profiles|
  {
    Total(profiles[..k])
  }

  /** Profile k is told disk d. */
  predicate Gets(profiles: seq<Wanting>, k: nat, d: int)
    requires k < |profiles|
  {
    StartOf(profiles, k) < d <= StartOf(profiles, k) + profiles[k].disks
  }

  /** That is what the assignment says, whatever the counts. */
  lemma {:induction false} GetsItsRun(profiles: seq<Wanting>, k: nat, d: int)
    requires DistinctNames(profiles) && k < |profiles|
    ensures Uses(profiles, profiles[k].name, d) <==> Gets(profiles, k, d)
  {
    var front := profiles[..|profiles| - 1];
    if k < |profiles| - 1 {
      GetsItsRun(front, k, d);
      assert front[..k] == profiles[..k];
    } else {
      var run := Run(Total(front), profiles[k].disks);
      assert front == profiles[..k];
      if Gets(profiles, k, d) {
        assert run[d - Total(front) - 1] == d;
      }
    }
  }

  /** No disk for two, and every one is attached. */
  ghost predicate RunsAreGood(profiles: seq<Wanting>) {
    && NoneTwice(profiles)
    && (forall k, d | 0 <= k < |profiles| && Gets(profiles, k, d) :: 1 <= d <= Attached(profiles))
  }

  predicate NoneNegative(profiles: seq<Wanting>) {
    forall k | 0 <= k < |profiles| :: profiles[k].disks >= 0
  }

  function Range(lo: int, hi: int): (r: set<int>)
    ensures forall d :: d in r <==> lo < d <= hi
    decreases hi - lo
  {
    if hi <= lo then {} else Range(lo, hi - 1) + {hi}
  }

  lemma {:induction false} RangeSize(lo: int, hi: int)
    ensures |Range(lo, hi)| == Max(0, hi - lo)
    decreases hi - lo
  {
    if hi > lo {
      RangeSize(lo, hi - 1);
    }
  }

  lemma {:induction false} SubsetSize<T>(a: set<T>, b: set<T>)
    requires a <= b
    ensures |a| <= |b|
    decreases a
  {
    if a != {} {
      var x :| x in a;
      SubsetSize(a - {x}, b - {x});
    }
  }

  ghost predicate NoneTwice(profiles: seq<Wanting>) {
    forall j, k, d | 0 <= j < k < |profiles| :: !(Gets(profiles, j, d) && Gets(profiles, k, d))
  }

  /** Each of these disks is told to one of the first n profiles. */
  ghost predicate ToldTo(told: set<int>, profiles: seq<Wanting>, n: nat)
    requires n <= |profiles|
  {
    forall d | d in told :: exists k | 0 <= k < n :: Gets(profiles, k, d)
  }

  function OwnRange(profiles: seq<Wanting>, k: nat): set<int>
    requires k < |profiles|
  {
    Range(StartOf(profiles, k), StartOf(profiles, k) + profiles[k].disks)
  }

  lemma OwnIsNew(profiles: seq<Wanting>, n: nat, earlier: set<int>)
    requires n < |profiles| && NoneTwice(profiles) && ToldTo(earlier, profiles, n)
    ensures earlier !! OwnRange(profiles, n) && ToldTo(earlier + OwnRange(profiles, n), profiles, n + 1)
  {
    forall d | d in earlier ensures d !in OwnRange(profiles, n) {
      var k :| 0 <= k < n && Gets(profiles, k, d);
      assert !(Gets(profiles, k, d) && Gets(profiles, n, d));
    }
    forall d | d in OwnRange(profiles, n) ensures Gets(profiles, n, d) {
    }
  }

  lemma OwnSize(profiles: seq<Wanting>, k: nat)
    requires k < |profiles|
    ensures |OwnRange(profiles, k)| == Max(0, profiles[k].disks)
    ensures HandedOut(profiles[..k + 1]) == HandedOut(profiles[..k]) + Max(0, profiles[k].disks)
  {
    RangeSize(StartOf(profiles, k), StartOf(profiles, k) + profiles[k].disks);
    var more := profiles[..k + 1];
    assert more[..k] == profiles[..k] && more[k] == profiles[k];
  }

  /** The disks the first n profiles are told, if no two are told the same, are as many as they ask for. */
  lemma {:induction false} ToldDisks(profiles: seq<Wanting>, n: nat) returns (told: set<int>)
    requires n <= |profiles| && NoneTwice(profiles)
    ensures |told| == HandedOut(profiles[..n]) && ToldTo(told, profiles, n)
  {
    if n == 0 {
      told := {};
    } else {
      var earlier := ToldDisks(profiles, n - 1);
      OwnIsNew(profiles, n - 1, earlier);
      OwnSize(profiles, n - 1);
      told := earlier + OwnRange(profiles, n - 1);
    }
  }

  lemma {:induction false} HandedOutAtLeastTotal(profiles: seq<Wanting>)
    ensures HandedOut(profiles) >= Total(profiles)
    ensures HandedOut(profiles) == Total(profiles) <==> NoneNegative(profiles)
  {
    if profiles != [] {
      HandedOutAtLeastTotal(profiles[..|profiles| - 1]);
      assert NoneNegative(profiles) <==> NoneNegative(profiles[..|profiles| - 1]) && profiles[|profiles| - 1].disks >= 0;
    }
  }

  /** Counting what is wanted up to k, and k's own, is counting part of it all. */
  lemma {:induction false} HandedOutGrows(profiles: seq<Wanting>, k: nat)
    requires k < |profiles|
    ensures HandedOut(profiles[..k]) + Max(0, profiles[k].disks) <= HandedOut(profiles)
  {
    var front := profiles[..|profiles| - 1];
    if k < |profiles| - 1 {
      HandedOutGrows(front, k);
      assert front[..k] == profiles[..k];
    } else {
      assert front == profiles[..k];
    }
  }

  lemma PartHandedOut(profiles: seq<Wanting>, j: nat, k: nat)
    requires j < k < |profiles|
    ensures Max(0, profiles[j].disks) + Max(0, profiles[k].disks) <= HandedOut(profiles)
  {
    HandedOutGrows(profiles, k);
    HandedOutGrows(profiles[..k], j);
  }

  /** Nobody asks for less than nothing, or nobody gets any, or one gets one disk and none before it asks for less than nothing. */
  ghost predicate CountsAreSafe(profiles: seq<Wanting>) {
    || NoneNegative(profiles)
    || HandedOut(profiles) == 0
    || (HandedOut(profiles) == 1 && forall j, k | 0 <= j < k < |profiles| && profiles[k].disks == 1 :: profiles[j].disks >= 0)
  }

  lemma GoodMeansSafe(profiles: seq<Wanting>)
    requires RunsAreGood(profiles)
    ensures CountsAreSafe(profiles)
  {
    assert profiles[..|profiles|] == profiles;
    var told := ToldDisks(profiles, |profiles|);
    assert told <= Range(0, Attached(profiles)) by {
      forall d | d in told ensures 1 <= d <= Attached(profiles) {
        var k :| 0 <= k < |profiles| && Gets(profiles, k, d);
      }
    }
    SubsetSize(told, Range(0, Attached(profiles)));
    RangeSize(0, Attached(profiles));
    HandedOutAtLeastTotal(profiles);
    if !NoneNegative(profiles) && HandedOut(profiles) == 1 {
      forall j, k | 0 <= j < k < |profiles| && profiles[k].disks == 1 ensures profiles[j].disks >= 0 {
        OneDiskIsTheFirst(profiles, k);
        HandedOutGrows(profiles, k);
        HandedOutAtLeastTotal(profiles[..k]);
        assert profiles[..k][j] == profiles[j];
      }
    }
  }

  /** A single disk that is attached is disk 1, so nothing was counted before it. */
  lemma OneDiskIsTheFirst(profiles: seq<Wanting>, k: nat)
    requires RunsAreGood(profiles) && HandedOut(profiles) == 1 && k < |profiles| && profiles[k].disks == 1 && !NoneNegative(profiles)
    ensures StartOf(profiles, k) == 0 == HandedOut(profiles[..k])
  {
    HandedOutAtLeastTotal(profiles);
    assert Gets(profiles, k, StartOf(profiles, k) + 1);
    HandedOutGrows(profiles, k);
    HandedOutAtLeastTotal(profiles[..k]);
  }

  lemma SafeMeansGood(profiles: seq<Wanting>)
    requires CountsAreSafe(profiles)
    ensures RunsAreGood(profiles)
  {
    forall j: nat, k: nat, d | j < k < |profiles| ensures !(Gets(profiles, j, d) && Gets(profiles, k, d)) {
      if NoneNegative(profiles) {
        StartsInOrder(profiles, j, k);
      } else {
        PartHandedOut(profiles, j, k);
      }
    }
    forall k: nat, d | k < |profiles| && Gets(profiles, k, d) ensures 1 <= d <= Attached(profiles) {
      HandedOutGrows(profiles, k);
      HandedOutAtLeastTotal(profiles[..k]);
      if NoneNegative(profiles) {
        HandedOutAtLeastTotal(profiles);
        assert NoneNegative(profiles[..k]);
      } else {
        assert profiles[k].disks == 1;
        forall j | 0 <= j < k ensures profiles[..k][j].disks >= 0 {
          assert profiles[j].disks >= 0;
        }
      }
    }
  }

  lemma {:induction false} StartsInOrder(profiles: seq<Wanting>, j: nat, k: nat)
    requires NoneNegative(profiles) && j < k < |profiles|
    ensures StartOf(profiles, j) + profiles[j].disks <= StartOf(profiles, k)
  {
    assert profiles[..k][..k - 1] == profiles[..k - 1];
    if j < k - 1 {
      StartsInOrder(profiles, j, k - 1);
    }
  }

  /**
   Whatever the counts: no disk goes to two profiles and every one that is handed out is
   attached, exactly if no count is negative, or no disk is asked for, or just one is and no
   negative count comes before it.
   */
  lemma WhichCountsAreSafe(profiles: seq<Wanting>)
    ensures RunsAreGood(profiles) <==> CountsAreSafe(profiles)
  {
    if RunsAreGood(profiles) {
      GoodMeansSafe(profiles);
    }
    if CountsAreSafe(profiles) {
      SafeMeansGood(profiles);
    }
  }

  // ----- the machine's devices

  const SYSTEM_ADDR := 0x10
  const FIRST_DISK_ADDR := 0x14
  const LAST_SLOT := 0x1f

  datatype Device = Device(id: string, slot: nat)

  function DiskDevice(i: nat): Device {
    Device("d" + Decimal(i), FIRST_DISK_ADDR + i)
  }

  /** The system disk, the management and guest networks, and the cluster's if there is one. */
  function FixedDevices(clustered: bool): seq<Device> {
    [Device("sys", SYSTEM_ADDR), Device("mgmt", 0x11), Device("guest", 0x12)] +
    if clustered then [Device("clus", 0x13)] else []
  }

  function TestDisks(disks: nat): seq<Device> {
    seq(disks, i requires i >= 0 => DiskDevice(i))
  }

  /** Machine._argv, as far as devices go. */
  method Argv(clustered: bool, disks: nat) returns (devices: seq<Device>)
    ensures devices == FixedDevices(clustered) + TestDisks(disks)
  {
    devices := FixedDevices(clustered);
    for i := 0 to disks
      invariant devices == FixedDevices(clustered) + TestDisks(i)
    {
      devices := devices + [DiskDevice(i)];
      assert TestDisks(i + 1) == TestDisks(i) + [DiskDevice(i)];
    }
  }

  ghost predicate Apart(a: Device, b: Device) {
    a.id != b.id && a.slot != b.slot
  }

  lemma FixedAreApart(clustered: bool)
    ensures var fixed := FixedDevices(clustered);
            && (forall i, j | 0 <= i < j < |fixed| :: Apart(fixed[i], fixed[j]))
            && (forall i | 0 <= i < |fixed| :: fixed[i].slot < FIRST_DISK_ADDR && |fixed[i].id| > 1 && !IsDigit(fixed[i].id[1]))
  {
    assert "sys"[1] == 'y' && "mgmt"[1] == 'g' && "guest"[1] == 'u' && "clus"[1] == 'l';
  }

  lemma DisksAreApart(i: nat, j: nat)
    requires i != j
    ensures Apart(DiskDevice(i), DiskDevice(j))
  {
    if DiskDevice(i).id == DiskDevice(j).id {
      assert Decimal(i) == DiskDevice(i).id[1..] && Decimal(j) == DiskDevice(j).id[1..];
      DecimalInjective(i, j);
    }
  }

  /** No two devices share a name or a slot, and all fit the bus exactly up to twelve test disks. */
  lemma DevicesAreApart(clustered: bool, disks: nat)
    ensures var devices := FixedDevices(clustered) + TestDisks(disks);
            && (forall i, j | 0 <= i < j < |devices| :: Apart(devices[i], devices[j]))
            && ((forall i | 0 <= i < |devices| :: devices[i].slot <= LAST_SLOT) <==> disks <= 12)
  {
    var fixed, devices := FixedDevices(clustered), FixedDevices(clustered) + TestDisks(disks);
    FixedAreApart(clustered);
    forall i, j | 0 <= i < j < |devices| ensures Apart(devices[i], devices[j]) {
      if i >= |fixed| {
        DisksAreApart(i - |fixed|, j - |fixed|);
      } else if j >= |fixed| {
        assert IsDigit(devices[j].id[1]);
      }
    }
    if disks > 12 {
      assert devices[|devices| - 1] == DiskDevice(disks - 1);
    }
  }
}
