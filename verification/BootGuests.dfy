/**
 Guests that are up write to their disks while other nodes still boot. Turns of the boot
 threads and writes of running guests come in any order here: the boots end as they would
 without the writes, and the files hold what they would hold and then what was written.
 */
module BootGuests {
  import opened Text
  import opened Wrappers
  import opened Boot
  import opened BootThreads

  datatype Turn = Boots(index: nat) | Writes(dir: string, file: string, data: seq<int>)

  ghost predicate CanWrite(w: World, dir: string, file: string) {
    && dir in w.machines && (file == w.machines[dir].system || file in w.machines[dir].attached)
    && dir in w.tree && file in w.tree[dir] && !w.tree[dir][file].Other?
  }

  function Added(f: File, data: seq<int>): File {
    if f.Other? then f else f.(writes := f.writes + data)
  }

  ghost function Act(w: World, t: Turn, c: Config, faults: nat -> Fault): World
    requires t.Boots? ==> t.index in w.pcs
    requires t.Writes? ==> CanWrite(w, t.dir, t.file)
  {
    match t
    case Boots(i) => Step(w, i, c, faults)
    case Writes(dir, file, data) => w.(tree := w.tree[dir := w.tree[dir][file := Added(w.tree[dir][file], data)]])
  }

  ghost predicate IsTurn(w: World, t: Turn) {
    if t.Boots? then t.index in w.pcs else CanWrite(w, t.dir, t.file)
  }

  /** Each thread is one of the n, and only guests that run write, to what they were started with. */
  ghost predicate Possible(w: World, turns: seq<Turn>, c: Config, faults: nat -> Fault)
    decreases |turns|
  {
    turns == [] || (IsTurn(w, turns[0]) && Possible(Act(w, turns[0], c, faults), turns[1..], c, faults))
  }

  ghost function RunTurns(w: World, turns: seq<Turn>, c: Config, faults: nat -> Fault): World
    requires Possible(w, turns, c, faults)
    decreases |turns|
  {
    if turns == [] then w else RunTurns(Act(w, turns[0], c, faults), turns[1..], c, faults)
  }

  /** What was written to one file, in order. */
  function Log(turns: seq<Turn>, dir: string, file: string): seq<int> {
    if turns == [] then []
    else
      (if turns[0].Writes? && turns[0].dir == dir && turns[0].file == file then turns[0].data else []) +
      Log(turns[1..], dir, file)
  }

  function Plus(d: Dir, dir: string, turns: seq<Turn>): Dir {
    map n | n in d :: Added(d[n], Log(turns, dir, n))
  }

  function PlusEnd(e: Ended, dir: string, turns: seq<Turn>): Ended {
    e.(dir := Plus(e.dir, dir, turns))
  }

  /** A thread whose node runs has launched it. */
  ghost predicate Quiet(l: Local) {
    l.machine.Some? ==> l.pc.Await? || l.pc.Stopped?
  }

  ghost predicate Ready(w: World, n: nat, c: Config) {
    Shaped(w, n, c) && forall i | i in w.pcs :: Quiet(View(w, i))
  }

  // ----- what a turn does not change

  lemma NothingAdded(d: Dir, dir: string, turns: seq<Turn>)
    requires forall n | n in d :: Log(turns, dir, n) == []
    ensures Plus(d, dir, turns) == d
  {
    forall n | n in d ensures Added(d[n], []) == d[n] {
      assert !d[n].Other? ==> d[n].writes + [] == d[n].writes;
    }
  }

  /** A thread's turn adds to no log. */
  lemma BootIsNoWrite(d: Dir, dir: string, turns: seq<Turn>)
    requires turns != [] && (turns[0].Writes? ==> turns[0].dir != dir)
    ensures Plus(d, dir, turns) == Plus(d, dir, turns[1..])
  {
    forall n | n in d ensures Log(turns, dir, n) == Log(turns[1..], dir, n) {
      assert [] + Log(turns[1..], dir, n) == Log(turns[1..], dir, n);
    }
  }

  /** A write made first shows before the others. */
  lemma WriteComesFirst(d: Dir, turns: seq<Turn>)
    requires turns != [] && turns[0].Writes? && turns[0].file in d
    ensures var t := turns[0];
            Plus(d[t.file := Added(d[t.file], t.data)], t.dir, turns[1..]) == Plus(d, t.dir, turns)
  {
    var t := turns[0];
    var after := d[t.file := Added(d[t.file], t.data)];
    forall n | n in d ensures Added(after[n], Log(turns[1..], t.dir, n)) == Added(d[n], Log(turns, t.dir, n)) {
      if n == t.file && !d[n].Other? {
        assert d[n].writes + t.data + Log(turns[1..], t.dir, n) == d[n].writes + (t.data + Log(turns[1..], t.dir, n));
      } else {
        assert [] + Log(turns[1..], t.dir, n) == Log(turns[1..], t.dir, n);
      }
    }
  }

  lemma StepKeepsQuiet(l: Local, index: nat, c: Config, fault: Fault)
    requires Quiet(l)
    ensures Quiet(LocalStep(l, index, c, fault))
  {
  }

  lemma BootKeepsReady(w: World, n: nat, i: nat, c: Config, faults: nat -> Fault)
    requires Ready(w, n, c) && i in w.pcs
    ensures Ready(Step(w, i, c, faults), n, c)
  {
    StepKeepsShape(w, n, i, c, faults);
    StepKeepsQuiet(View(w, i), i, c, faults(i));
    forall j | j in w.pcs ensures Quiet(View(Step(w, i, c, faults), j)) {
      StepIsLocal(w, i, c, faults, j);
    }
  }

  /** A write changes a launched thread's files, and nothing else of any thread. */
  lemma WriteIsSeen(w: World, n: nat, t: Turn, c: Config, faults: nat -> Fault, j: nat)
    requires Ready(w, n, c) && t.Writes? && IsTurn(w, t) && j in w.pcs
    ensures Sound(View(Act(w, t, c, faults), j), c) && Quiet(View(Act(w, t, c, faults), j))
    ensures var l, after := View(w, j), View(Act(w, t, c, faults), j);
            if t.dir != DirName(j) then after == l
            else
              && t.file in l.Files()
              && Ahead(l, j, c, faults(j)).dir == l.Files()
              && Ahead(after, j, c, faults(j)) ==
                 Ahead(l, j, c, faults(j)).(dir := l.Files()[t.file := Added(l.Files()[t.file], t.data)])
  {
  }

  lemma WriteKeepsReady(w: World, n: nat, t: Turn, c: Config, faults: nat -> Fault)
    requires Ready(w, n, c) && t.Writes? && IsTurn(w, t)
    ensures Ready(Act(w, t, c, faults), n, c)
  {
    forall j | j in w.pcs ensures Sound(View(Act(w, t, c, faults), j), c) && Quiet(View(Act(w, t, c, faults), j)) {
      WriteIsSeen(w, n, t, c, faults, j);
    }
  }

  // ----- whole runs

  /** How a thread will end, writes and all, is settled by where it is and what is still to be written. */
  lemma TurnKeepsEnd(w: World, n: nat, turns: seq<Turn>, c: Config, faults: nat -> Fault, j: nat)
    requires Ready(w, n, c) && turns != [] && IsTurn(w, turns[0]) && j in w.pcs
    ensures Ready(Act(w, turns[0], c, faults), n, c) && j in Act(w, turns[0], c, faults).pcs
    ensures PlusEnd(Ahead(View(Act(w, turns[0], c, faults), j), j, c, faults(j)), DirName(j), turns[1..]) ==
            PlusEnd(Ahead(View(w, j), j, c, faults(j)), DirName(j), turns)
  {
    var t, e := turns[0], Ahead(View(w, j), j, c, faults(j));
    if t.Boots? {
      BootKeepsReady(w, n, t.index, c, faults);
      StepKeepsShape(w, n, t.index, c, faults);
      BootIsNoWrite(e.dir, DirName(j), turns);
    } else {
      WriteKeepsReady(w, n, t, c, faults);
      WriteIsSeen(w, n, t, c, faults, j);
      if t.dir == DirName(j) {
        WriteComesFirst(e.dir, turns);
      } else {
        BootIsNoWrite(e.dir, DirName(j), turns);
      }
    }
  }

  lemma {:induction false} RunKeepsEnd(w: World, n: nat, turns: seq<Turn>, c: Config, faults: nat -> Fault, j: nat)
    requires Ready(w, n, c) && Possible(w, turns, c, faults) && j in w.pcs
    ensures var r := RunTurns(w, turns, c, faults);
            && j in r.pcs && Ready(r, n, c)
            && Ahead(View(r, j), j, c, faults(j)) == PlusEnd(Ahead(View(w, j), j, c, faults(j)), DirName(j), turns)
    decreases |turns|
  {
    var e := Ahead(View(w, j), j, c, faults(j));
    if turns == [] {
      NothingAdded(e.dir, DirName(j), turns);
    } else {
      TurnKeepsEnd(w, n, turns, c, faults, j);
      RunKeepsEnd(Act(w, turns[0], c, faults), n, turns[1..], c, faults, j);
    }
  }

  /** Another lab directory only sees its own guest's writes. */
  ghost predicate OnlyWritten(before: State, after: State, dir: string, turns: seq<Turn>) {
    && (dir in after.tree <==> dir in before.tree)
    && (dir in before.tree ==> after.tree[dir] == Plus(before.tree[dir], dir, turns))
    && MachineAt(after, dir) == MachineAt(before, dir)
  }

  function MachineAt(st: State, dir: string): Option<Machine> {
    if dir in st.machines then Some(st.machines[dir]) else None
  }

  ghost function StateOf(w: World): State {
    State(w.tree, w.machines)
  }

  lemma {:induction false} OtherDirs(w: World, n: nat, turns: seq<Turn>, c: Config, faults: nat -> Fault, dir: string)
    requires Ready(w, n, c) && Possible(w, turns, c, faults) && !IsWanted(dir, n)
    ensures OnlyWritten(StateOf(w), StateOf(RunTurns(w, turns, c, faults)), dir, turns)
    decreases |turns|
  {
    if turns == [] {
      if dir in w.tree {
        NothingAdded(w.tree[dir], dir, turns);
      }
    } else {
      var t, next := turns[0], Act(w, turns[0], c, faults);
      if t.Boots? {
        BootKeepsReady(w, n, t.index, c, faults);
        assert dir != DirName(t.index);
      } else {
        WriteKeepsReady(w, n, t, c, faults);
      }
      OtherDirs(next, n, turns[1..], c, faults, dir);
      if dir in w.tree {
        if t.Writes? && t.dir == dir {
          WriteComesFirst(w.tree[dir], turns);
        } else {
          BootIsNoWrite(w.tree[dir], dir, turns);
        }
      }
    }
  }

  // ----- the result

  /** None of the nodes to boot runs yet: bringing a lab up sees to that first. */
  ghost predicate NoneRuns(st: State, n: nat) {
    forall i | 1 <= i <= n :: DirName(i) !in st.machines
  }

  lemma StartIsReady(st: State, n: nat, c: Config)
    requires NoneRuns(st, n)
    ensures Ready(Started(st, n), n, c)
  {
  }

  lemma WantedDir(st: State, n: nat, turns: seq<Turn>, c: Config, faults: nat -> Fault, i: nat)
    requires NoneRuns(st, n) && Possible(Started(st, n), turns, c, faults) && 1 <= i <= n
    requires AllStopped(RunTurns(Started(st, n), turns, c, faults))
    ensures var r := RunTurns(Started(st, n), turns, c, faults);
            && i in r.pcs && r.pcs[i].outcome == EndOf(st, i, c, faults(i)).outcome
            && OnlyWritten(BootAll(st, n, c, faults), StateOf(r), DirName(i), turns)
  {
    StartIsReady(st, n, c);
    RunKeepsEnd(Started(st, n), n, turns, c, faults, i);
    EnteringView(st, n, i, c, faults(i));
    EachAsIfAlone(st, n, c, faults, i);
    StoppedView(RunTurns(Started(st, n), turns, c, faults), i, c, faults(i),
                PlusEnd(EndOf(st, i, c, faults(i)), DirName(i), turns));
  }

  /**
   In whatever order threads take their turns and running guests write, once all threads have
   ended every node came up or failed as it would have alone, the machines are those of booting
   one node after another, and each file is the one of that account with what its guest wrote
   since, in order, behind it.
   */
  lemma GuestsOnlyAdd(st: State, n: nat, turns: seq<Turn>, c: Config, faults: nat -> Fault, dir: string)
    requires NoneRuns(st, n) && Possible(Started(st, n), turns, c, faults)
    requires AllStopped(RunTurns(Started(st, n), turns, c, faults))
    ensures OnlyWritten(BootAll(st, n, c, faults), StateOf(RunTurns(Started(st, n), turns, c, faults)), dir, turns)
    ensures forall i | 1 <= i <= n ::
      && i in RunTurns(Started(st, n), turns, c, faults).pcs
      && RunTurns(Started(st, n), turns, c, faults).pcs[i].outcome == EndOf(st, i, c, faults(i)).outcome
  {
    forall i | 1 <= i <= n
      ensures i in RunTurns(Started(st, n), turns, c, faults).pcs
      ensures RunTurns(Started(st, n), turns, c, faults).pcs[i].outcome == EndOf(st, i, c, faults(i)).outcome
    {
      WantedDir(st, n, turns, c, faults, i);
    }
    if IsWanted(dir, n) {
      var i :| 1 <= i <= n && dir == DirName(i);
      WantedDir(st, n, turns, c, faults, i);
    } else {
      StartIsReady(st, n, c);
      OtherDirs(Started(st, n), n, turns, c, faults, dir);
      OthersUntouched(st, n, c, faults, dir);
    }
  }
}
