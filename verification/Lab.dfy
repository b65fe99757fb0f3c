/** A lab's life: nodes come up on throwaway overlays, are written to, and go down. */
module Lab {
  import opened Text
  import opened Wrappers
  import opened Boot
  import BootGuests
  import BootThreads
  import EnvFile

  datatype LabError = NoEnvironment | ImageBuildFailed | NodesDidNotBoot | NoNodes

  datatype UpResult = AlreadyRunning | Booted | NotUp(error: LabError)

  /** lab.glob("node*"). */
  predicate IsNodeDir(dir: string) {
    StartsWith(dir, "node")
  }

  predicate IsConsoleLog(name: string) {
    EndsWith(name, ".console.log")
  }

  function ResetDir(d: Dir): Dir {
    map n | n in d && n != SYSTEM && !IsDiskFile(n) && !IsConsoleLog(n) :: d[n]
  }

  function ResetTree(tree: Tree): Tree {
    map dir | dir in tree :: if IsNodeDir(dir) then ResetDir(tree[dir]) else tree[dir]
  }

  lemma ResetIsBare(tree: Tree, index: nat)
    ensures Bare(DirOf(ResetTree(tree), index))
  {
    assert IsNodeDir(DirName(index));
  }

  class LabState {
    const name: string
    const dir: string
    const key: string
    const offset: nat
    var present: bool        // the lab's directory exists
    var tree: Tree           // the directories in it, and what is in them
    var machines: Machines   // what runs, by the directory it runs in
    var env: Option<string>  // lab.env

    ghost predicate Valid()
      reads this
    {
      && machines.Keys <= tree.Keys
      && (forall d | d in machines :: IsNodeDir(d))
      && (!present ==> tree == map[])
    }

    ghost function Both(): State
      reads this
    {
      State(tree, machines)
    }

    constructor (name: string, dir: string, key: string, offset: nat)
      ensures Valid() && !present && env == None
    {
      this.name, this.dir, this.key, this.offset := name, dir, key, offset;
      present, tree, machines, env := false, map[], map[], None;
    }

    method Down(reset: bool)
      requires Valid()
      modifies this
      ensures Valid() && machines == map[] && present == old(present)
      ensures tree == if reset then ResetTree(old(tree)) else old(tree)
      ensures env == if reset && present then None else old(env)
    {
      if !present {
        assert tree == map[] && ResetTree(tree) == map[];
        assert machines == map[];
        return;
      }
      var left := set d | d in tree && IsNodeDir(d);
      while left != {}
        invariant present && tree == old(tree) && env == old(env) && Valid()
        invariant forall d | d in machines :: d in left
        decreases left
      {
        var d :| d in left;
        machines := machines - {d};
        left := left - {d};
      }
      assert machines == map[];
      if reset {
        left := set d | d in tree && IsNodeDir(d);
        while left != {}
          invariant present && machines == map[] && env == old(env)
          invariant left <= tree.Keys == old(tree).Keys
          invariant forall d | d in left :: IsNodeDir(d) && tree[d] == old(tree)[d]
          invariant forall d | d in tree && d !in left :: tree[d] == ResetTree(old(tree))[d]
          decreases left
        {
          var d :| d in left;
          tree := tree[d := ResetDir(tree[d])];
          left := left - {d};
        }
        env := None;
        assert tree == ResetTree(old(tree));
      }
    }

    /** A guest writes to the overlay or to a disk it was started with. */
    method GuestWrite(d: string, file: string, data: seq<int>)
      requires Valid() && d in machines
      requires file == machines[d].system || file in machines[d].attached
      modifies this`tree
      ensures Valid()
      ensures file in old(tree)[d] && !old(tree)[d][file].Other? ==>
        tree == old(tree)[d := old(tree)[d][file := old(tree)[d][file].(writes := old(tree)[d][file].writes + data)]]
      ensures file !in old(tree)[d] || old(tree)[d][file].Other? ==> tree == old(tree)
    {
      if file in tree[d] && !tree[d][file].Other? {
        var f := tree[d][file];
        tree := tree[d := tree[d][file := f.(writes := f.writes + data)]];
      }
    }

    /** system.qcow2, then every disk*.raw there is, one file at a time. */
    method DropDisks(dir: string)
      requires dir in tree
      modifies this`tree
      ensures tree == old(tree)[dir := Wiped(old(tree)[dir])]
    {
      tree := tree[dir := tree[dir] - {SYSTEM}];
      var left := set n | n in tree[dir] && IsDiskFile(n);
      while left != {}
        invariant dir in tree && tree == old(tree)[dir := tree[dir]]
        invariant tree[dir] - left == Wiped(old(tree)[dir])
        decreases left
      {
        var n :| n in left;
        assert tree[dir] - {n} - (left - {n}) == tree[dir] - left;
        tree := tree[dir := tree[dir] - {n}];
        left := left - {n};
      }
      assert tree[dir] - left == tree[dir];
    }

    /** Provide the test disks, keeping those that exist. */
    method ProvideDisks(dir: string, c: Config, fault: Fault, ghost m: Option<Machine>)
        returns (ok: bool, attached: seq<string>)
      requires dir in tree
      modifies this`tree
      ensures dir in tree && tree == old(tree)[dir := tree[dir]]
      ensures ok ==> attached == AttachedDisks(c.disks)
      ensures FromDisk(old(tree)[dir], m, 1, c, fault) ==
              if ok then AfterDisks(tree[dir], m, c, fault) else Ended(tree[dir], m, Failed(ToolFailed))
    {
      attached := [];
      for k := 1 to c.disks + 1
        invariant dir in tree && tree == old(tree)[dir := tree[dir]]
        invariant attached == AttachedDisks(k - 1)
        invariant FromDisk(tree[dir], m, k, c, fault) == FromDisk(old(tree)[dir], m, 1, c, fault)
      {
        if DiskFile(k) !in tree[dir] {
          if fault == RawFails(k) {
            return false, attached;
          }
          tree := tree[dir := tree[dir][DiskFile(k) := Raw(c.size, [])]];
        }
        attached := attached + [DiskFile(k)];
      }
      return true, attached;
    }

    /** The overlay, unless it is there and may stay. */
    method ProvideSystem(dir: string, index: nat, c: Config, fault: Fault, ghost m: Option<Machine>) returns (ok: bool)
      requires dir in tree
      modifies this`tree
      ensures dir in tree && tree == old(tree)[dir := tree[dir]]
      ensures BootDir(old(tree)[dir], m, index, c, fault) ==
              if c.Image(index) !in c.images then Ended(tree[dir], m, Failed(ImageMissing))
              else if ok then FromDisk(tree[dir], m, 1, c, fault)
              else Ended(tree[dir], m, Failed(ToolFailed))
      ensures c.Image(index) !in c.images ==> !ok
    {
      if c.Image(index) !in c.images {
        return false;
      }
      if !c.reuse {
        DropDisks(dir);
      }
      ghost var start := tree[dir];
      ok := true;
      if SYSTEM !in tree[dir] {
        if fault.OverlayFails? {
          ok := false;
        } else {
          tree := tree[dir := tree[dir][SYSTEM := Overlay(c.Image(index), [])]];
        }
      }
      assert FromSystem(start, m, index, c, fault) ==
        if ok then FromDisk(tree[dir], m, 1, c, fault) else Ended(tree[dir], m, Failed(ToolFailed));
    }

    /** Steps that only wrote to the node's directory add up to one. */
    static lemma Gather(t0: Tree, t1: Tree, t2: Tree, dir: string)
      requires dir in t1 && dir in t2
      requires t1 == t0[dir := t1[dir]] && t2 == t1[dir := t2[dir]]
      ensures t2 == t0[dir := t2[dir]]
    {
    }

    method BootNode(index: nat, c: Config, fault: Fault) returns (o: Outcome)
      requires Valid() && present
      modifies this`tree, this`machines
      ensures Valid()
      ensures State(tree, machines) == WithEnd(State(old(tree), old(machines)), index,
                                               EndOf(State(old(tree), old(machines)), index, c, fault))
      ensures o == EndOf(State(old(tree), old(machines)), index, c, fault).outcome
    {
      var dir := DirName(index);
      ghost var m := MachineOf(machines, index);
      ghost var e := EndOf(State(tree, machines), index, c, fault);
      o := BootInto(dir, index, c, fault, m, e);
      assert m.Some? ==> machines == old(machines)[dir := machines[dir]];
    }

    /** The thread's body, told by what it does to one directory and its machine. */
    method BootInto(dir: string, index: nat, c: Config, fault: Fault, ghost m: Option<Machine>, ghost e: Ended)
        returns (o: Outcome)
      requires e == BootDir(if dir in tree then tree[dir] else map[], m, index, c, fault)
      modifies this`tree, this`machines
      ensures o == e.outcome && tree == old(tree)[dir := e.dir]
      ensures
        || (e.machine == m && machines == old(machines))
        || (e.machine.Some? && machines == old(machines)[dir := e.machine.value])
    {
      if dir !in tree {
        tree := tree[dir := map[]];
      }
      ghost var t1 := tree;
      var ready := ProvideSystem(dir, index, c, fault, m);
      ghost var t2 := tree;
      Gather(old(tree), t1, t2, dir);
      if !ready {
        return Failed(if c.Image(index) in c.images then ToolFailed else ImageMissing);
      }
      var provided, attached := ProvideDisks(dir, c, fault, m);
      Gather(old(tree), t2, tree, dir);
      if !provided {
        return Failed(ToolFailed);
      }
      if fault.StartRefused? {
        return Failed(Refused);
      }
      machines := machines[dir := Machine(SYSTEM, attached)];
      return if fault.NoAnswer? then Failed(Unreachable) else Up;
    }

    /** The boot threads, one after another: BootThreads shows that their order does not matter. */
    method BootNodes(count: nat, c: Config, faults: nat -> Fault) returns (allUp: bool)
      requires Valid() && present
      modifies this`tree, this`machines
      ensures Valid()
      ensures State(tree, machines) == BootAll(State(old(tree), old(machines)), count, c, faults)
      ensures allUp <==> AllComeUp(State(old(tree), old(machines)), count, c, faults)
    {
      ghost var base := State(tree, machines);
      allUp := true;
      for i := 1 to count + 1
        invariant Valid() && State(tree, machines) == BootAll(base, i - 1, c, faults)
        invariant allUp <==> AllComeUp(base, i - 1, c, faults)
      {
        EarlierBootsDoNotShow(base, i, c, faults);
        var o := BootNode(i, c, faults(i));
        allUp := allUp && o.Up?;
      }
    }

    ghost predicate WantedRunning(count: nat)
      reads this
    {
      exists i | 1 <= i <= count :: DirName(i) in machines
    }

    ghost function Base(count: nat): State
      reads this
    {
      StartingPoint(Both(), count, WantedRunning(count))
    }

    method AnyRunning(count: nat) returns (running: bool)
      ensures running <==> WantedRunning(count)
    {
      running := false;
      for i := 1 to count + 1
        invariant running <==> exists j | 1 <= j < i :: DirName(j) in machines
      {
        running := running || DirName(i) in machines;
      }
    }

    /** The images are built one after another; the first that cannot be had ends it. */
    method PrepareEach(count: nat, prepared: nat -> bool) returns (ready: bool)
      ensures ready <==> forall i | 1 <= i <= count :: prepared(i)
    {
      for i := 1 to count + 1
        invariant forall j | 1 <= j < i :: prepared(j)
      {
        if !prepared(i) {
          return false;
        }
      }
      return true;
    }

    /** `prepared` says which node images can be had; `c.images` are those on disk once that is done. */
    method BringUp(count: nat, c: Config, startFresh: bool, version: string, prepared: nat -> bool, faults: nat -> Fault)
        returns (r: UpResult)
      requires Valid()
      modifies this
      ensures Valid()
      // A running lab is left alone, unless a fresh one is wanted.
      ensures old(WantedRunning(count)) && !startFresh ==>
        && Both() == old(Both()) && env == old(env)
        && r == if env.Some? then AlreadyRunning else NotUp(NoEnvironment)
      ensures !old(WantedRunning(count)) || startFresh ==> !r.AlreadyRunning?
      // No node boots before every image is there.
      ensures (!old(WantedRunning(count)) || startFresh) && (exists i | 1 <= i <= count :: !prepared(i)) ==>
        r == NotUp(ImageBuildFailed) && Both() == old(Base(count))
      // Otherwise all boot, and the lab is up exactly if all came up.
      ensures (!old(WantedRunning(count)) || startFresh) && (forall i | 1 <= i <= count :: prepared(i)) ==>
        && Both() == BootAll(old(Base(count)), count, c, faults)
        && (r.Booted? <==> count >= 1 && AllComeUp(old(Base(count)), count, c, faults))
      ensures env == match r
        case Booted => Some(EnvText(count, c, version))
        case _ => if old(WantedRunning(count)) && startFresh then None else old(env)
    {
      var running := AnyRunning(count);
      if running && !startFresh {
        return if env.Some? then AlreadyRunning else NotUp(NoEnvironment);
      }
      if running {
        Down(true);
      }
      present := true;
      var ready := PrepareEach(count, prepared);
      if !ready {
        return NotUp(ImageBuildFailed);
      }
      var allUp := BootNodes(count, c, faults);
      if !allUp {
        return NotUp(NodesDidNotBoot);
      }
      if count == 0 {
        return NotUp(NoNodes);
      }
      env := Some(EnvText(count, c, version));
      return Booted;
    }

    function EnvText(count: nat, c: Config, version: string): string {
      EnvFile.Print(EnvFile.LabEnv(EnvFile.LabFacts(name, dir, count, offset, key, c.disks, c.size, version, c.variant)))
    }
  }

  /** Where the boots start from: what was there, unless a wanted node had to be stopped for it. */
  function StartingPoint(st: State, count: nat, running: bool): State {
    if running then State(ResetTree(st.tree), map[]) else st
  }

  /** The boots themselves, one after another: nothing old on a node not reused, everything on one that is. */
  lemma WhatBootsLeave(st: State, count: nat, running: bool, c: Config, faults: nat -> Fault, i: nat)
    requires 1 <= i <= count
    ensures var base := StartingPoint(st, count, running);
            var end := BootAll(base, count, c, faults);
            && (ComesUp(base, i, c, faults(i)) && (!c.reuse || running) ==>
                  && Pristine(DirOf(end.tree, i), i, c)
                  && MachineOf(end.machines, i) == Some(Machine(SYSTEM, AttachedDisks(c.disks))))
            && (c.reuse && !running ==> Keeps(DirOf(st.tree, i), DirOf(end.tree, i)))
  {
    var base := StartingPoint(st, count, running);
    var d, m := DirOf(base.tree, i), MachineOf(base.machines, i);
    EachAsIfAlone(base, count, c, faults, i);
    ResetIsBare(st.tree, i);
    if c.reuse {
      ReusingBootKeeps(d, m, i, c, faults(i));
    }
    if ComesUp(base, i, c, faults(i)) && (!c.reuse || running) {
      FreshBootIsPristine(d, m, i, c, faults(i));
    }
  }

  /** An untouched overlay and untouched disks, but for what this run's own guest wrote. */
  ghost predicate PristineButFor(d: Dir, index: nat, c: Config, turns: seq<BootGuests.Turn>) {
    && SYSTEM in d && d[SYSTEM] == Overlay(c.Image(index), BootGuests.Log(turns, DirName(index), SYSTEM))
    && forall n | IsDiskFile(n) ::
         && (n in d <==> IsAttached(n, c))
         && (n in d ==> d[n] == Raw(c.size, BootGuests.Log(turns, DirName(index), n)))
  }

  /** Every file there was, with what its guest wrote since behind it. */
  ghost predicate KeepsAndAdds(before: Dir, after: Dir, index: nat, turns: seq<BootGuests.Turn>) {
    forall n | n in before ::
      n in after && after[n] == BootGuests.Added(before[n], BootGuests.Log(turns, DirName(index), n))
  }

  /**
   What whoever brings a lab up gets, whatever the lab went through before, in whatever order
   its nodes boot, and whatever guests already up write meanwhile: on a node that was not to be
   reused or had to be stopped first, only what its own guest wrote since; on one that was
   reused, everything it had and that.
   */
  lemma WhatComesUp(st: State, count: nat, running: bool, turns: seq<BootGuests.Turn>, c: Config, faults: nat -> Fault, i: nat)
    requires 1 <= i <= count && (running || BootGuests.NoneRuns(st, count))
    requires var start := BootThreads.Started(StartingPoint(st, count, running), count);
             && BootGuests.Possible(start, turns, c, faults)
             && BootThreads.AllStopped(BootGuests.RunTurns(start, turns, c, faults))
    ensures var base := StartingPoint(st, count, running);
            var end := BootGuests.RunTurns(BootThreads.Started(base, count), turns, c, faults);
            var d := DirOf(end.tree, i);
            && i in end.pcs && (end.pcs[i].outcome.Up? <==> ComesUp(base, i, c, faults(i)))
            && (end.pcs[i].outcome.Up? && (!c.reuse || running) ==>
                  && PristineButFor(d, i, c, turns)
                  && MachineOf(end.machines, i) == Some(Machine(SYSTEM, AttachedDisks(c.disks))))
            && (c.reuse && !running ==> KeepsAndAdds(DirOf(st.tree, i), d, i, turns))
  {
    var base := StartingPoint(st, count, running);
    BootGuests.GuestsOnlyAdd(base, count, turns, c, faults, DirName(i));
    EachAsIfAlone(base, count, c, faults, i);
    WhatBootsLeave(st, count, running, c, faults, i);
    assert forall data: seq<int> :: [] + data == data;
  }
}
