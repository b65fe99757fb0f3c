/**
 The nodes of a lab boot in parallel threads. Each file operation of each thread is one
 step here, and a schedule says which thread takes the next one. Whatever the schedule,
 once every thread has ended the lab is as if its nodes had booted one after another.
 */
module BootThreads {
  import opened Text
  import opened Wrappers
  import opened Boot

  /** What a thread does next. */
  datatype PC =
    | Enter
    | CheckImage
    | DropSystem
    | ListDisks
    | DropDisks(rest: set<string>)
    | MakeSystem
    | MakeDisk(disk: nat)
    | Launch
    | Await
    | Stopped(outcome: Outcome)

  /** All that a thread reads and writes: its node's directory and machine, and its own place. */
  datatype Local = Local(dir: Option<Dir>, machine: Option<Machine>, pc: PC) {
    function Files(): Dir {
      match dir case None => map[] case Some(d) => d
    }
  }

  datatype World = World(tree: Tree, machines: Machines, pcs: map<nat, PC>)

  ghost function Pick(s: set<string>): string
    requires s != {}
  {
    var x :| x in s; x
  }

  ghost function LocalStep(l: Local, index: nat, c: Config, fault: Fault): Local {
    var d := l.Files();
    match l.pc
    case Enter => Local(Some(d), l.machine, CheckImage)
    case CheckImage =>
      l.(pc := if c.Image(index) !in c.images then Stopped(Failed(ImageMissing))
               else if c.reuse then MakeSystem else DropSystem)
    case DropSystem => l.(dir := Some(d - {SYSTEM}), pc := ListDisks)
    case ListDisks => l.(pc := DropDisks(Stale(d)))
    case DropDisks(rest) =>
      if rest == {} then l.(pc := MakeSystem)
      else l.(dir := Some(d - {Pick(rest)}), pc := DropDisks(rest - {Pick(rest)}))
    case MakeSystem =>
      if SYSTEM in d then l.(pc := MakeDisk(1))
      else if fault.OverlayFails? then l.(pc := Stopped(Failed(ToolFailed)))
      else l.(dir := Some(d[SYSTEM := Overlay(c.Image(index), [])]), pc := MakeDisk(1))
    case MakeDisk(k) =>
      if k > c.disks then l.(pc := Launch)
      else if DiskFile(k) in d then l.(pc := MakeDisk(k + 1))
      else if fault == RawFails(k) then l.(pc := Stopped(Failed(ToolFailed)))
      else l.(dir := Some(d[DiskFile(k) := Raw(c.size, [])]), pc := MakeDisk(k + 1))
    case Launch =>
      if fault.StartRefused? then l.(pc := Stopped(Failed(Refused)))
      else l.(machine := Some(Machine(SYSTEM, AttachedDisks(c.disks))), pc := Await)
    case Await => l.(pc := Stopped(if fault.NoAnswer? then Failed(Unreachable) else Up))
    case Stopped(_) => l
  }

  ghost function View(w: World, index: nat): Local
    requires index in w.pcs
  {
    Local(if DirName(index) in w.tree then Some(w.tree[DirName(index)]) else None,
          MachineOf(w.machines, index), w.pcs[index])
  }

  /** Thread `index` takes one step. */
  ghost function Step(w: World, index: nat, c: Config, faults: nat -> Fault): World
    requires index in w.pcs
  {
    var l := LocalStep(View(w, index), index, c, faults(index));
    World(match l.dir case None => w.tree case Some(d) => w.tree[DirName(index) := d],
          match l.machine case None => w.machines case Some(m) => w.machines[DirName(index) := m],
          w.pcs[index := l.pc])
  }

  ghost predicate IsSchedule(schedule: seq<nat>, n: nat) {
    forall k | 0 <= k < |schedule| :: 1 <= schedule[k] <= n
  }

  ghost function Run(w: World, schedule: seq<nat>, c: Config, faults: nat -> Fault): World
    requires forall k | 0 <= k < |schedule| :: schedule[k] in w.pcs
    decreases |schedule|
  {
    if schedule == [] then w
    else Run(Step(w, schedule[0], c, faults), schedule[1..], c, faults)
  }

  ghost function Entering(n: nat): (pcs: map<nat, PC>)
    ensures forall i :: i in pcs <==> 1 <= i <= n
    ensures forall i | i in pcs :: pcs[i] == Enter
  {
    if n == 0 then map[] else Entering(n - 1)[n := Enter]
  }

  ghost function Started(st: State, n: nat): World {
    World(st.tree, st.machines, Entering(n))
  }

  ghost predicate AllStopped(w: World) {
    forall i | i in w.pcs :: w.pcs[i].Stopped?
  }

  // ----- one thread

  /** How a thread will end, from wherever it is: the part of its boot still ahead of it. */
  ghost function Ahead(l: Local, index: nat, c: Config, fault: Fault): Ended {
    var d, m := l.Files(), l.machine;
    match l.pc
    case Enter => BootDir(d, m, index, c, fault)
    case CheckImage => BootDir(d, m, index, c, fault)
    case DropSystem => FromSystem(Wiped(d), m, index, c, fault)
    case ListDisks => FromSystem(Wiped(d), m, index, c, fault)
    case DropDisks(rest) => FromSystem(d - rest, m, index, c, fault)
    case MakeSystem => FromSystem(d, m, index, c, fault)
    case MakeDisk(k) => FromDisk(d, m, k, c, fault)
    case Launch => AfterDisks(d, m, c, fault)
    case Await => Ended(d, m, if fault.NoAnswer? then Failed(Unreachable) else Up)
    case Stopped(outcome) => Ended(d, m, outcome)
  }

  /** No file the wipe is for is missed between listing the disks and dropping them. */
  ghost predicate Sound(l: Local, c: Config) {
    match l.pc
    case Enter => true
    case Await => l.dir.Some? && l.machine == Some(Machine(SYSTEM, AttachedDisks(c.disks)))
    case ListDisks => l.dir.Some? && SYSTEM !in l.Files()
    case DropDisks(rest) =>
      && l.dir.Some? && SYSTEM !in l.Files()
      && forall n | n in l.Files() && IsDiskFile(n) :: n in rest
    case MakeDisk(k) => l.dir.Some? && k >= 1
    case _ => l.dir.Some?
  }

  lemma StepKeepsSound(l: Local, index: nat, c: Config, fault: Fault)
    requires Sound(l, c)
    ensures Sound(LocalStep(l, index, c, fault), c)
  {
  }

  lemma DropKeepsAhead(l: Local, index: nat, c: Config, fault: Fault)
    requires Sound(l, c) && (l.pc.DropSystem? || l.pc.ListDisks? || l.pc.DropDisks?)
    ensures Ahead(LocalStep(l, index, c, fault), index, c, fault) == Ahead(l, index, c, fault)
  {
    var d := l.Files();
    match l.pc
    case DropSystem => assert Wiped(d - {SYSTEM}) == Wiped(d);
    case ListDisks => assert d - Stale(d) == Wiped(d);
    case DropDisks(rest) =>
      if rest == {} {
        assert d - rest == d;
      } else {
        assert d - {Pick(rest)} - (rest - {Pick(rest)}) == d - rest;
      }
  }

  lemma DiskKeepsAhead(l: Local, index: nat, c: Config, fault: Fault)
    requires Sound(l, c) && l.pc.MakeDisk?
    ensures Ahead(LocalStep(l, index, c, fault), index, c, fault) == Ahead(l, index, c, fault)
  {
    var d, m, k := l.Files(), l.machine, l.pc.disk;
    assert Ahead(l, index, c, fault) == FromDisk(d, m, k, c, fault);
  }

  lemma StepKeepsAhead(l: Local, index: nat, c: Config, fault: Fault)
    requires Sound(l, c)
    ensures Ahead(LocalStep(l, index, c, fault), index, c, fault) == Ahead(l, index, c, fault)
  {
    match l.pc
    case DropSystem => DropKeepsAhead(l, index, c, fault);
    case ListDisks => DropKeepsAhead(l, index, c, fault);
    case DropDisks(_) => DropKeepsAhead(l, index, c, fault);
    case MakeDisk(_) => DiskKeepsAhead(l, index, c, fault);
    case _ =>
  }

  ghost function Stale(d: Dir): set<string> {
    set n | n in d && IsDiskFile(n)
  }

  /** Steps a thread still needs at most. */
  ghost function Bound(l: Local, c: Config): nat {
    var d := l.Files();
    var stale := |Stale(d)|;
    match l.pc
    case Enter => stale + c.disks + 10
    case CheckImage => stale + c.disks + 9
    case DropSystem => stale + c.disks + 8
    case ListDisks => stale + c.disks + 7
    case DropDisks(rest) => |rest| + c.disks + 5
    case MakeSystem => c.disks + 4
    case MakeDisk(k) => if k <= c.disks + 1 then c.disks + 1 - k + 3 else 3
    case Launch => 2
    case Await => 1
    case Stopped(_) => 0
  }

  lemma SystemIsNotStale(d: Dir)
    ensures Stale(d - {SYSTEM}) == Stale(d)
  {
    DiskFileIsDisk(0);
  }

  lemma StepDescends(l: Local, index: nat, c: Config, fault: Fault)
    requires !l.pc.Stopped? && Sound(l, c)
    ensures Bound(LocalStep(l, index, c, fault), c) < Bound(l, c)
  {
    var next := LocalStep(l, index, c, fault);
    match l.pc
    case DropSystem =>
      SystemIsNotStale(l.Files());
    case DropDisks(rest) =>
      if rest != {} {
        assert next.pc.rest == rest - {Pick(rest)};
      }
    case _ =>
  }

  // ----- all threads

  ghost predicate Shaped(w: World, n: nat, c: Config) {
    && (forall i :: i in w.pcs <==> 1 <= i <= n)
    && forall i | i in w.pcs :: Sound(View(w, i), c)
  }

  /** A step is seen by its own thread only. */
  lemma StepIsLocal(w: World, i: nat, c: Config, faults: nat -> Fault, j: nat)
    requires i in w.pcs && j in w.pcs
    requires i == j ==> Sound(View(w, i), c)
    ensures View(Step(w, i, c, faults), j) == if j == i then LocalStep(View(w, i), i, c, faults(i)) else View(w, j)
  {
    if i != j && DirName(i) == DirName(j) {
      DirNameInjective(i, j);
    }
  }

  lemma StepKeepsShape(w: World, n: nat, i: nat, c: Config, faults: nat -> Fault)
    requires Shaped(w, n, c) && 1 <= i <= n
    ensures Shaped(Step(w, i, c, faults), n, c)
    ensures forall j | 1 <= j <= n ::
      Ahead(View(Step(w, i, c, faults), j), j, c, faults(j)) == Ahead(View(w, j), j, c, faults(j))
  {
    StepKeepsSound(View(w, i), i, c, faults(i));
    StepKeepsAhead(View(w, i), i, c, faults(i));
    forall j | 1 <= j <= n
      ensures Sound(View(Step(w, i, c, faults), j), c)
      ensures Ahead(View(Step(w, i, c, faults), j), j, c, faults(j)) == Ahead(View(w, j), j, c, faults(j))
    {
      StepIsLocal(w, i, c, faults, j);
    }
  }

  lemma {:induction false} RunKeepsAhead(w: World, n: nat, schedule: seq<nat>, c: Config, faults: nat -> Fault)
    requires Shaped(w, n, c) && IsSchedule(schedule, n)
    ensures Shaped(Run(w, schedule, c, faults), n, c)
    ensures forall j | 1 <= j <= n ::
      Ahead(View(Run(w, schedule, c, faults), j), j, c, faults(j)) == Ahead(View(w, j), j, c, faults(j))
    decreases |schedule|
  {
    if schedule != [] {
      StepKeepsShape(w, n, schedule[0], c, faults);
      RunKeepsAhead(Step(w, schedule[0], c, faults), n, schedule[1..], c, faults);
    }
  }

  lemma {:induction false} RunLeavesOthers(w: World, n: nat, schedule: seq<nat>, c: Config, faults: nat -> Fault, dir: string)
    requires Shaped(w, n, c) && IsSchedule(schedule, n) && !IsWanted(dir, n)
    ensures var r := Run(w, schedule, c, faults);
            SameDir(State(w.tree, w.machines), State(r.tree, r.machines), dir)
    decreases |schedule|
  {
    if schedule != [] {
      StepKeepsShape(w, n, schedule[0], c, faults);
      assert dir != DirName(schedule[0]);
      RunLeavesOthers(Step(w, schedule[0], c, faults), n, schedule[1..], c, faults, dir);
    }
  }

  lemma StoppedView(w: World, i: nat, c: Config, fault: Fault, e: Ended)
    requires i in w.pcs && w.pcs[i].Stopped? && Sound(View(w, i), c) && Ahead(View(w, i), i, c, fault) == e
    ensures DirName(i) in w.tree && w.tree[DirName(i)] == e.dir
    ensures MachineOf(w.machines, i) == e.machine && w.pcs[i].outcome == e.outcome
  {
  }

  lemma EnteringView(st: State, n: nat, i: nat, c: Config, fault: Fault)
    requires 1 <= i <= n
    ensures Ahead(View(Started(st, n), i), i, c, fault) == EndOf(st, i, c, fault)
  {
  }

  lemma EndsAsIfAlone(st: State, n: nat, schedule: seq<nat>, c: Config, faults: nat -> Fault, i: nat)
    requires IsSchedule(schedule, n) && 1 <= i <= n
    requires AllStopped(Run(Started(st, n), schedule, c, faults))
    ensures var w := Run(Started(st, n), schedule, c, faults);
            && i in w.pcs && DirName(i) in w.tree
            && w.pcs[i].outcome == EndOf(st, i, c, faults(i)).outcome
            && w.tree[DirName(i)] == EndOf(st, i, c, faults(i)).dir
            && MachineOf(w.machines, i) == EndOf(st, i, c, faults(i)).machine
  {
    RunKeepsAhead(Started(st, n), n, schedule, c, faults);
    EnteringView(st, n, i, c, faults(i));
    StoppedView(Run(Started(st, n), schedule, c, faults), i, c, faults(i), EndOf(st, i, c, faults(i)));
  }

  lemma SameAsSerial(st: State, n: nat, schedule: seq<nat>, c: Config, faults: nat -> Fault, dir: string)
    requires IsSchedule(schedule, n)
    requires AllStopped(Run(Started(st, n), schedule, c, faults))
    ensures var w := Run(Started(st, n), schedule, c, faults);
            SameDir(State(w.tree, w.machines), BootAll(st, n, c, faults), dir)
  {
    if IsWanted(dir, n) {
      var i :| 1 <= i <= n && dir == DirName(i);
      EndsAsIfAlone(st, n, schedule, c, faults, i);
      EachAsIfAlone(st, n, c, faults, i);
    } else {
      RunLeavesOthers(Started(st, n), n, schedule, c, faults, dir);
      OthersUntouched(st, n, c, faults, dir);
    }
  }

  lemma SameDirsSameState(a: State, b: State)
    requires forall dir :: SameDir(a, b, dir)
    ensures a == b
  {
    assert forall dir | dir in a.tree || dir in b.tree :: SameDir(a, b, dir);
    assert forall dir | dir in a.machines || dir in b.machines :: SameDir(a, b, dir);
    assert a.tree == b.tree && a.machines == b.machines;
  }

  /**
   Every schedule that lets all threads end leaves the same files and machines: those of
   booting the nodes one after another. Each thread ends the way its node would alone.
   */
  lemma EveryInterleavingAgrees(st: State, n: nat, schedule: seq<nat>, c: Config, faults: nat -> Fault)
    requires IsSchedule(schedule, n)
    requires AllStopped(Run(Started(st, n), schedule, c, faults))
    ensures var w := Run(Started(st, n), schedule, c, faults);
            && State(w.tree, w.machines) == BootAll(st, n, c, faults)
            && forall i | 1 <= i <= n :: i in w.pcs && w.pcs[i].outcome == EndOf(st, i, c, faults(i)).outcome
  {
    var w := Run(Started(st, n), schedule, c, faults);
    forall i | 1 <= i <= n ensures i in w.pcs && w.pcs[i].outcome == EndOf(st, i, c, faults(i)).outcome {
      EndsAsIfAlone(st, n, schedule, c, faults, i);
    }
    forall dir ensures SameDir(State(w.tree, w.machines), BootAll(st, n, c, faults), dir) {
      SameAsSerial(st, n, schedule, c, faults, dir);
    }
    SameDirsSameState(State(w.tree, w.machines), BootAll(st, n, c, faults));
  }

  // ----- threads do end

  function Turns(schedule: seq<nat>, i: nat): nat {
    if schedule == [] then 0 else (if schedule[0] == i then 1 else 0) + Turns(schedule[1..], i)
  }

  lemma TurnSpent(w: World, k: nat, c: Config, faults: nat -> Fault, i: nat)
    requires k in w.pcs && i in w.pcs && Sound(View(w, i), c)
    ensures Step(w, k, c, faults).pcs.Keys == w.pcs.Keys
    ensures var left := Bound(View(Step(w, k, c, faults), i), c);
            if k == i then left == 0 || left < Bound(View(w, i), c) else left == Bound(View(w, i), c)
  {
    StepIsLocal(w, k, c, faults, i);
    if k == i && !View(w, i).pc.Stopped? {
      StepDescends(View(w, i), i, c, faults(i));
    }
  }

  /** A thread that gets its turns has stopped, whatever the others did in between. */
  lemma {:induction false} EnoughTurnsStop(w: World, n: nat, schedule: seq<nat>, c: Config, faults: nat -> Fault, i: nat)
    requires Shaped(w, n, c) && IsSchedule(schedule, n) && 1 <= i <= n
    requires Turns(schedule, i) >= Bound(View(w, i), c)
    ensures Run(w, schedule, c, faults).pcs.Keys == w.pcs.Keys
    ensures Run(w, schedule, c, faults).pcs[i].Stopped?
    decreases |schedule|
  {
    if schedule == [] {
      assert View(w, i).pc.Stopped?;
    } else {
      var k := schedule[0];
      StepKeepsShape(w, n, k, c, faults);
      TurnSpent(w, k, c, faults, i);
      EnoughTurnsStop(Step(w, k, c, faults), n, schedule[1..], c, faults, i);
    }
  }
}
