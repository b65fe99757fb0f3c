/**
 The prepare phase from profiles to running nodes: the bakes, the node images and the lab
 brought up on them, and what each node then shows.
 */
module Prepare {
  import opened Wrappers
  import opened Images
  import Boot
  import Lab

  datatype Prepared = NoProfiles | BakeStopped | LabNotUp(error: Lab.LabError) | Ready(variant: string)

  /** What a node whose guest has written nothing yet shows: its image's contents. */
  function Shows(files: Files, d: Boot.Dir): Option<seq<Layer>> {
    if Boot.SYSTEM in d && d[Boot.SYSTEM].Overlay? && d[Boot.SYSTEM].writes == [] then Contents(files, d[Boot.SYSTEM].image)
    else None
  }

  ghost predicate NothingFails(bakeFaults: nat -> BakeFault, nodeFaults: nat -> NodeFault, faults: nat -> Boot.Fault) {
    && (forall k :: bakeFaults(k).Completes?) && (forall k :: nodeFaults(k).NodeCompletes?)
    && (forall k :: faults(k).NoFault?)
  }

  /** A node runs, on blank disks. */
  ghost predicate RunsFresh(st: Boot.State, i: nat, disks: nat, size: string) {
    && Boot.MachineOf(st.machines, i) == Some(Boot.Machine(Boot.SYSTEM, Boot.AttachedDisks(disks)))
    && forall d | 1 <= d <= disks ::
         && Boot.DiskFile(d) in Boot.DirOf(st.tree, i)
         && Boot.DirOf(st.tree, i)[Boot.DiskFile(d)] == Boot.Raw(size, [])
  }

  /** It shows exactly its profiles' bakes, in order, under its own identity. */
  ghost predicate ShowsBakes(files: Files, st: Boot.State, i: nat, bakes: seq<string>) {
    Shows(files, Boot.DirOf(st.tree, i)) == Some(Layers(bakes) + [Identity(i)])
  }

  /** prepare, up to the point where the nodes are up; a lab that runs is stopped and reset for it. */
  method Prepare(store: ImageStore, lab: Lab.LabState, profiles: seq<ProfileSpec>, nodes: nat,
                 disks: nat, size: string, version: string, bakeFaults: nat -> BakeFault, cuts: string -> bool,
                 nodeFaults: nat -> NodeFault, nodeCuts: nat -> NodeCuts, faults: nat -> Boot.Fault)
      returns (r: Prepared)
    requires !store.building && lab.Valid()
    modifies store, lab
    ensures !store.building && lab.Valid()
    ensures r.NoProfiles? <==> profiles == []
    ensures Nameable(Bakes(profiles)) && Keyed(old(store.files)) ==>
      && Keyed(store.files)
      && (r.Ready? ==> r.variant == VariantName(Bakes(profiles)))
      && (r.Ready? ==> forall i | 1 <= i <= nodes :: RunsFresh(lab.Both(), i, disks, size))
      // A node shows its profiles' bakes under its own identity exactly if no build that the
      // variant or the node's image came from was cut off or, for the node, left unfinished.
      && (r.Ready? ==> forall i | 1 <= i <= nodes ::
            ShowsBakes(store.files, lab.Both(), i, Bakes(profiles)) <==>
            StaysWhole(old(store.files), Bakes(profiles), cuts) && EndsComplete(old(store.files), r.variant, i, nodeCuts(i)))
      && (profiles != [] && nodes >= 1 && Key([]) in old(store.files) && NothingFails(bakeFaults, nodeFaults, faults) ==> r.Ready?)
  {
    if profiles == [] {
      return NoProfiles;
    }
    var baked := store.BakeChain(profiles, bakeFaults, cuts);
    if baked.Failure? {
      return BakeStopped;
    }
    ghost var mid := store.files;
    if SameNodes(old(store.files), mid) {
      NodesEndAlike(old(store.files), mid, baked.value, nodeCuts);
    }
    var up := RaiseLab(store, lab, baked.value, nodes, disks, size, version, nodeFaults, nodeCuts, faults, Bakes(profiles));
    match up
    case Booted => return Ready(baked.value);
    case NotUp(e) => return LabNotUp(e);
  }

  /** lab_up, called for a fresh lab, with node_image to have each node's image. */
  method RaiseLab(store: ImageStore, lab: Lab.LabState, variant: string, nodes: nat, disks: nat, size: string, version: string,
                  nodeFaults: nat -> NodeFault, nodeCuts: nat -> NodeCuts, faults: nat -> Boot.Fault, ghost bakes: seq<string>)
      returns (up: Lab.UpResult)
    requires !store.building && lab.Valid()
    modifies store, lab
    ensures !store.building && lab.Valid() && !up.AlreadyRunning?
    ensures Keyed(old(store.files)) && Nameable(bakes) && variant == VariantName(bakes) ==>
      && Keyed(store.files) && SameAt(old(store.files), store.files, Key(bakes))
      && (up.Booted? ==> forall i | 1 <= i <= nodes ::
            && RunsFresh(lab.Both(), i, disks, size)
            && (ShowsBakes(store.files, lab.Both(), i, bakes) <==>
                  EndsComplete(old(store.files), variant, i, nodeCuts(i)) && Whole(store.files, bakes)))
      && (up.Booted? && nodes >= 1 ==> Key(bakes) in store.files)
    ensures up.Booted? ==> nodes >= 1
    ensures nodes >= 1 && VariantPath(variant) in old(store.files) ==>
      (forall k :: nodeFaults(k).NodeCompletes?) && (forall k :: faults(k).NoFault?) ==> up.Booted?
  {
    var derived := store.DeriveNodes(variant, nodes, nodeFaults, nodeCuts);
    var c := Boot.Config(variant, disks, size, false, store.files.Keys);
    ghost var st, running := lab.Both(), lab.WantedRunning(nodes);
    var ready := derived.Success?;
    var prepared := (i: nat) => ready;
    up := lab.BringUp(nodes, c, true, version, prepared, faults);
    if ready {
      AllUpWhenNothingFails(Lab.StartingPoint(st, nodes, running), nodes, c, faults);
    } else {
      assert nodes >= 1 && !prepared(1);
    }
    if Keyed(store.files) && Nameable(bakes) && variant == VariantName(bakes) && up.Booted? {
      NodesShow(store.files, bakes, st, nodes, running, c, faults);
    }
  }

  lemma NodesEndAlike(start: Files, mid: Files, variant: string, cuts: nat -> NodeCuts)
    requires SameNodes(start, mid)
    ensures forall i :: EndsComplete(mid, variant, i, cuts(i)) <==> EndsComplete(start, variant, i, cuts(i))
  {
    forall i: nat ensures EndsComplete(mid, variant, i, cuts(i)) <==> EndsComplete(start, variant, i, cuts(i)) {
      assert SameAt(start, mid, NodePath(variant, i));
    }
  }

  lemma AllUpWhenNothingFails(base: Boot.State, nodes: nat, c: Boot.Config, faults: nat -> Boot.Fault)
    ensures (forall k :: faults(k).NoFault?) && (forall i | 1 <= i <= nodes :: c.Image(i) in c.images) ==>
      Boot.AllComeUp(base, nodes, c, faults)
  {
    if (forall k :: faults(k).NoFault?) && (forall i | 1 <= i <= nodes :: c.Image(i) in c.images) {
      forall i: nat | 1 <= i <= nodes ensures Boot.ComesUp(base, i, c, faults(i)) {
        Boot.BootSucceeds(Boot.DirOf(base.tree, i), Boot.MachineOf(base.machines, i), i, c, faults(i));
      }
      Boot.AllMeansEach(base, nodes, c, faults);
    }
  }

  /** Nodes that come up fresh show what their images hold: all of it exactly if variant and image are whole. */
  lemma NodesShow(files: Files, bakes: seq<string>, st: Boot.State, nodes: nat, running: bool,
                  c: Boot.Config, faults: nat -> Boot.Fault)
    requires Keyed(files) && Nameable(bakes) && Key(bakes) in files && c.variant == VariantName(bakes) && !c.reuse
    requires forall i | 1 <= i <= nodes :: NodePath(c.variant, i) in files
    requires Boot.AllComeUp(Lab.StartingPoint(st, nodes, running), nodes, c, faults)
    ensures var end := Boot.BootAll(Lab.StartingPoint(st, nodes, running), nodes, c, faults);
            forall i | 1 <= i <= nodes ::
              && RunsFresh(end, i, c.disks, c.size)
              && (ShowsBakes(files, end, i, bakes) <==> NodeComplete(files, c.variant, i) && Whole(files, bakes))
  {
    var base := Lab.StartingPoint(st, nodes, running);
    Boot.AllMeansEach(base, nodes, c, faults);
    forall i: nat | 1 <= i <= nodes
      ensures var end := Boot.BootAll(base, nodes, c, faults);
              && RunsFresh(end, i, c.disks, c.size)
              && (ShowsBakes(files, end, i, bakes) <==> NodeComplete(files, c.variant, i) && Whole(files, bakes))
    {
      Lab.WhatBootsLeave(st, nodes, running, c, faults, i);
      NodeShowsItsVariant(files, bakes, i);
      PristineRuns(Boot.BootAll(base, nodes, c, faults), i, c);
    }
  }

  lemma PristineRuns(st: Boot.State, i: nat, c: Boot.Config)
    requires Boot.Pristine(Boot.DirOf(st.tree, i), i, c)
    requires Boot.MachineOf(st.machines, i) == Some(Boot.Machine(Boot.SYSTEM, Boot.AttachedDisks(c.disks)))
    ensures RunsFresh(st, i, c.disks, c.size)
  {
    forall d: nat | 1 <= d <= c.disks
      ensures Boot.DiskFile(d) in Boot.DirOf(st.tree, i) && Boot.DirOf(st.tree, i)[Boot.DiskFile(d)] == Boot.Raw(c.size, [])
    {
      Boot.DiskFileIsDisk(d);
      assert Boot.IsAttached(Boot.DiskFile(d), c);
    }
  }
}
