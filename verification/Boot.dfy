/**
 What booting one node does to its own working directory, and what a lab's state is after
 its nodes have booted one after another.
 */
module Boot {
  import opened Text
  import opened Wrappers
  import Images

  /** A file's writes are what the guest put there since the file was created. */
  datatype File =
    | Overlay(image: string, writes: seq<int>)
    | Raw(size: string, writes: seq<int>)
    | Other

  type Dir = map<string, File>

  /** A running machine, by the files of its directory it was started on. */
  datatype Machine = Machine(system: string, attached: seq<string>)

  type Tree = map<string, Dir>
  type Machines = map<string, Machine>

  const SYSTEM := "system.qcow2"

  function DirName(index: nat): string {
    "node" + Decimal(index)
  }

  function DiskFile(d: nat): string {
    "disk" + Decimal(d) + ".raw"
  }

  /** The glob disk*.raw. */
  predicate IsDiskFile(name: string) {
    |name| >= 8 && StartsWith(name, "disk") && EndsWith(name, ".raw")
  }

  lemma DirNameInjective(i: nat, j: nat)
    requires DirName(i) == DirName(j)
    ensures i == j
  {
    assert Decimal(i) == DirName(i)[4..] && Decimal(j) == DirName(j)[4..];
    DecimalInjective(i, j);
  }

  lemma DiskFileInjective(i: nat, j: nat)
    requires DiskFile(i) == DiskFile(j)
    ensures i == j
  {
    var p, q := DiskFile(i), DiskFile(j);
    assert Decimal(i) == p[4..|p| - 4] && Decimal(j) == q[4..|q| - 4];
    DecimalInjective(i, j);
  }

  lemma DiskFileIsDisk(d: nat)
    ensures IsDiskFile(DiskFile(d)) && DiskFile(d) != SYSTEM && !IsDiskFile(SYSTEM)
  {
    var p := DiskFile(d);
    assert p == "disk" + (Decimal(d) + ".raw");
    assert p[|p| - 4..] == ".raw";
    assert SYSTEM[0] == 's' && p[0] == 'd';
  }

  // ----- one node

  /** Where a node's boot stops, if it does. */
  datatype Fault =
    | NoFault
    | OverlayFails
    | RawFails(disk: nat)
    | StartRefused
    | NoAnswer

  datatype Reason = ImageMissing | ToolFailed | Refused | Unreachable

  datatype Outcome = Up | Failed(reason: Reason)

  datatype Config = Config(variant: string, disks: nat, size: string, reuse: bool, images: set<string>) {
    function Image(index: nat): string {
      Images.NodePath(variant, index)
    }
  }

  /** A directory, and the machine running on it if there is one, when a boot has ended. */
  datatype Ended = Ended(dir: Dir, machine: Option<Machine>, outcome: Outcome)

  function Wiped(d: Dir): Dir {
    map n | n in d && n != SYSTEM && !IsDiskFile(n) :: d[n]
  }

  function AttachedDisks(n: nat): seq<string> {
    if n == 0 then [] else AttachedDisks(n - 1) + [DiskFile(n)]
  }

  function AfterDisks(d: Dir, m: Option<Machine>, c: Config, fault: Fault): Ended {
    if fault.StartRefused? then Ended(d, m, Failed(Refused))
    else Ended(d, Some(Machine(SYSTEM, AttachedDisks(c.disks))),
               if fault.NoAnswer? then Failed(Unreachable) else Up)
  }

  /** Disks k and up are still to be provided. */
  function FromDisk(d: Dir, m: Option<Machine>, k: nat, c: Config, fault: Fault): Ended
    decreases c.disks + 1 - k
  {
    if k > c.disks then AfterDisks(d, m, c, fault)
    else if DiskFile(k) in d then FromDisk(d, m, k + 1, c, fault)
    else if fault == RawFails(k) then Ended(d, m, Failed(ToolFailed))
    else FromDisk(d[DiskFile(k) := Raw(c.size, [])], m, k + 1, c, fault)
  }

  function FromSystem(d: Dir, m: Option<Machine>, index: nat, c: Config, fault: Fault): Ended {
    if SYSTEM in d then FromDisk(d, m, 1, c, fault)
    else if fault.OverlayFails? then Ended(d, m, Failed(ToolFailed))
    else FromDisk(d[SYSTEM := Overlay(c.Image(index), [])], m, 1, c, fault)
  }

  function BootDir(d: Dir, m: Option<Machine>, index: nat, c: Config, fault: Fault): Ended {
    if c.Image(index) !in c.images then Ended(d, m, Failed(ImageMissing))
    else FromSystem(if c.reuse then d else Wiped(d), m, index, c, fault)
  }

  // ----- what a boot leaves, told without its steps

  ghost predicate IsAttached(name: string, c: Config) {
    exists k | 1 <= k <= c.disks :: name == DiskFile(k)
  }

  /** Nothing from before: an empty overlay over the node's image, and blank disks 1..N only. */
  ghost predicate Pristine(d: Dir, index: nat, c: Config) {
    && SYSTEM in d && d[SYSTEM] == Overlay(c.Image(index), [])
    && forall n | IsDiskFile(n) ::
         && (n in d <==> IsAttached(n, c))
         && (n in d ==> d[n] == Raw(c.size, []))
  }

  /** Every file there was is still there as it was. */
  ghost predicate Keeps(before: Dir, after: Dir) {
    forall n | n in before :: n in after && after[n] == before[n]
  }

  function WithDisk(d: Dir, k: nat, size: string): Dir {
    if DiskFile(k) in d then d else d[DiskFile(k) := Raw(size, [])]
  }

  lemma {:induction false} DisksKeep(d: Dir, m: Option<Machine>, k: nat, c: Config, fault: Fault)
    requires k >= 1
    ensures Keeps(d, FromDisk(d, m, k, c, fault).dir)
    decreases c.disks + 1 - k
  {
    if k <= c.disks && (DiskFile(k) in d || fault != RawFails(k)) {
      DisksKeep(WithDisk(d, k, c.size), m, k + 1, c, fault);
    }
  }

  /** What is new in the directory is a blank disk the machine gets. */
  lemma {:induction false} NewDisksAreBlank(d: Dir, m: Option<Machine>, k: nat, c: Config, fault: Fault, n: string)
    requires k >= 1 && n !in d && n in FromDisk(d, m, k, c, fault).dir
    ensures IsAttached(n, c) && FromDisk(d, m, k, c, fault).dir[n] == Raw(c.size, [])
    decreases c.disks + 1 - k
  {
    if k <= c.disks {
      var next := WithDisk(d, k, c.size);
      if n in next {
        DisksKeep(next, m, k + 1, c, fault);
      } else {
        NewDisksAreBlank(next, m, k + 1, c, fault, n);
      }
    }
  }

  /** A boot that comes up has provided every disk it was asked for. */
  lemma {:induction false} AllDisksThere(d: Dir, m: Option<Machine>, k: nat, c: Config, fault: Fault)
    requires k >= 1 && FromDisk(d, m, k, c, fault).outcome.Up?
    ensures FromDisk(d, m, k, c, fault).machine == Some(Machine(SYSTEM, AttachedDisks(c.disks)))
    ensures forall j | k <= j <= c.disks :: DiskFile(j) in FromDisk(d, m, k, c, fault).dir
    decreases c.disks + 1 - k
  {
    if k <= c.disks {
      var next := WithDisk(d, k, c.size);
      AllDisksThere(next, m, k + 1, c, fault);
      DisksKeep(next, m, k + 1, c, fault);
      assert DiskFile(k) in next;
    }
  }

  /** None of the files a lab makes. */
  ghost predicate Bare(d: Dir) {
    SYSTEM !in d && forall n | IsDiskFile(n) :: n !in d
  }

  /** A boot that finds no earlier disks, or does not reuse those it finds, shows none of them. */
  lemma FreshBootIsPristine(d: Dir, m: Option<Machine>, index: nat, c: Config, fault: Fault)
    requires (c.reuse ==> Bare(d)) && BootDir(d, m, index, c, fault).outcome.Up?
    ensures Pristine(BootDir(d, m, index, c, fault).dir, index, c)
    ensures BootDir(d, m, index, c, fault).machine == Some(Machine(SYSTEM, AttachedDisks(c.disks)))
  {
    var start := (if c.reuse then d else Wiped(d))[SYSTEM := Overlay(c.Image(index), [])];
    var end := BootDir(d, m, index, c, fault).dir;
    DiskFileIsDisk(0);
    assert end == FromDisk(start, m, 1, c, fault).dir;
    DisksKeep(start, m, 1, c, fault);
    AllDisksThere(start, m, 1, c, fault);
    forall n | IsDiskFile(n) && n in end ensures IsAttached(n, c) && end[n] == Raw(c.size, []) {
      NewDisksAreBlank(start, m, 1, c, fault, n);
    }
  }

  /** A boot that reuses changes no file it finds, wherever it stops. */
  lemma ReusingBootKeeps(d: Dir, m: Option<Machine>, index: nat, c: Config, fault: Fault)
    requires c.reuse
    ensures Keeps(d, BootDir(d, m, index, c, fault).dir)
  {
    DisksKeep(d, m, 1, c, fault);
    DisksKeep(d[SYSTEM := Overlay(c.Image(index), [])], m, 1, c, fault);
  }

  /** Disks are no obstacle exactly when no missing one fails to be made. */
  lemma {:induction false} DisksSucceed(d: Dir, m: Option<Machine>, k: nat, c: Config, fault: Fault)
    requires k >= 1
    ensures FromDisk(d, m, k, c, fault).outcome.Up? <==>
            && !fault.StartRefused? && !fault.NoAnswer?
            && !(fault.RawFails? && k <= fault.disk <= c.disks && DiskFile(fault.disk) !in d)
    decreases c.disks + 1 - k
  {
    if k <= c.disks && (DiskFile(k) in d || fault != RawFails(k)) {
      DisksSucceed(WithDisk(d, k, c.size), m, k + 1, c, fault);
      if fault.RawFails? && DiskFile(fault.disk) == DiskFile(k) {
        DiskFileInjective(fault.disk, k);
      }
    }
  }

  /** A boot comes up exactly when its image is there and nothing it has to make or start fails. */
  lemma BootSucceeds(d: Dir, m: Option<Machine>, index: nat, c: Config, fault: Fault)
    ensures BootDir(d, m, index, c, fault).outcome.Up? <==>
            && c.Image(index) in c.images
            && !fault.StartRefused? && !fault.NoAnswer?
            && !(fault.OverlayFails? && (c.reuse ==> SYSTEM !in d))
            && !(fault.RawFails? && 1 <= fault.disk <= c.disks && (c.reuse ==> DiskFile(fault.disk) !in d))
  {
    var start := if c.reuse then d else Wiped(d);
    DisksSucceed(start, m, 1, c, fault);
    DisksSucceed(start[SYSTEM := Overlay(c.Image(index), [])], m, 1, c, fault);
    if fault.RawFails? {
      DiskFileIsDisk(fault.disk);
    }
  }

  // ----- one node after another

  datatype State = State(tree: Tree, machines: Machines)

  function DirOf(tree: Tree, index: nat): Dir {
    if DirName(index) in tree then tree[DirName(index)] else map[]
  }

  function MachineOf(machines: Machines, index: nat): Option<Machine> {
    if DirName(index) in machines then Some(machines[DirName(index)]) else None
  }

  function EndOf(st: State, index: nat, c: Config, fault: Fault): Ended {
    BootDir(DirOf(st.tree, index), MachineOf(st.machines, index), index, c, fault)
  }

  predicate ComesUp(st: State, index: nat, c: Config, fault: Fault) {
    EndOf(st, index, c, fault).outcome.Up?
  }

  predicate AllComeUp(st: State, n: nat, c: Config, faults: nat -> Fault) {
    n == 0 || (AllComeUp(st, n - 1, c, faults) && ComesUp(st, n, c, faults(n)))
  }

  lemma {:induction false} AllMeansEach(st: State, n: nat, c: Config, faults: nat -> Fault)
    ensures AllComeUp(st, n, c, faults) <==> forall i | 1 <= i <= n :: ComesUp(st, i, c, faults(i))
  {
    if n > 0 {
      AllMeansEach(st, n - 1, c, faults);
    }
  }

  function WithEnd(st: State, index: nat, e: Ended): State {
    State(st.tree[DirName(index) := e.dir],
          match e.machine case None => st.machines case Some(m) => st.machines[DirName(index) := m])
  }

  function BootAll(st: State, n: nat, c: Config, faults: nat -> Fault): State {
    if n == 0 then st
    else
      var before := BootAll(st, n - 1, c, faults);
      WithEnd(before, n, EndOf(before, n, c, faults(n)))
  }

  ghost predicate IsWanted(dir: string, n: nat) {
    exists i | 1 <= i <= n :: dir == DirName(i)
  }

  ghost predicate SameDir(a: State, b: State, dir: string) {
    && (dir in a.tree <==> dir in b.tree) && (dir in a.tree ==> a.tree[dir] == b.tree[dir])
    && (dir in a.machines <==> dir in b.machines) && (dir in a.machines ==> a.machines[dir] == b.machines[dir])
  }

  /** Booting nodes touches no directory but theirs. */
  lemma {:induction false} OthersUntouched(st: State, n: nat, c: Config, faults: nat -> Fault, dir: string)
    requires !IsWanted(dir, n)
    ensures SameDir(st, BootAll(st, n, c, faults), dir)
  {
    if n > 0 {
      assert !IsWanted(dir, n - 1) && dir != DirName(n);
      OthersUntouched(st, n - 1, c, faults, dir);
    }
  }

  lemma LaterIsNotWanted(i: nat, n: nat)
    requires i > n
    ensures !IsWanted(DirName(i), n)
  {
    forall j | 1 <= j <= n ensures DirName(i) != DirName(j) {
      if DirName(i) == DirName(j) {
        DirNameInjective(i, j);
      }
    }
  }

  /** The boots before a node's own are nothing to it. */
  lemma EarlierBootsDoNotShow(st: State, n: nat, c: Config, faults: nat -> Fault)
    requires n >= 1
    ensures EndOf(BootAll(st, n - 1, c, faults), n, c, faults(n)) == EndOf(st, n, c, faults(n))
  {
    LaterIsNotWanted(n, n - 1);
    OthersUntouched(st, n - 1, c, faults, DirName(n));
  }

  /** Booted one after another, each node ends as if it had been alone. */
  lemma {:induction false} EachAsIfAlone(st: State, n: nat, c: Config, faults: nat -> Fault, i: nat)
    requires 1 <= i <= n
    ensures DirName(i) in BootAll(st, n, c, faults).tree
    ensures DirOf(BootAll(st, n, c, faults).tree, i) == EndOf(st, i, c, faults(i)).dir
    ensures MachineOf(BootAll(st, n, c, faults).machines, i) == EndOf(st, i, c, faults(i)).machine
  {
    var before := BootAll(st, n - 1, c, faults);
    if i == n {
      EarlierBootsDoNotShow(st, n, c, faults);
      MachineStays(DirOf(before.tree, n), MachineOf(before.machines, n), n, c, faults(n));
    } else {
      EachAsIfAlone(st, n - 1, c, faults, i);
      if DirName(i) == DirName(n) {
        DirNameInjective(i, n);
      }
    }
  }

  /** A boot never takes a machine away. */
  lemma MachineStays(d: Dir, m: Option<Machine>, index: nat, c: Config, fault: Fault)
    ensures m.Some? ==> BootDir(d, m, index, c, fault).machine.Some?
  {
    DisksKeepMachine(d, m, 1, c, fault);
    DisksKeepMachine(Wiped(d), m, 1, c, fault);
    DisksKeepMachine(d[SYSTEM := Overlay(c.Image(index), [])], m, 1, c, fault);
    DisksKeepMachine(Wiped(d)[SYSTEM := Overlay(c.Image(index), [])], m, 1, c, fault);
  }

  lemma {:induction false} DisksKeepMachine(d: Dir, m: Option<Machine>, k: nat, c: Config, fault: Fault)
    requires k >= 1
    ensures m.Some? ==> FromDisk(d, m, k, c, fault).machine.Some?
    decreases c.disks + 1 - k
  {
    if k <= c.disks && (DiskFile(k) in d || fault != RawFails(k)) {
      DisksKeepMachine(WithDisk(d, k, c.size), m, k + 1, c, fault);
    }
  }
}
