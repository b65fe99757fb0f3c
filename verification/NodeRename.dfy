/**
 Giving a node image its own name: the guest configs move to the directory of the new name,
 and every node but the first sheds its guests. What the checks afterwards vouch for is
 stated with it.
 */
module NodeRename {
  import opened Wrappers

  datatype Kind = Qemu | Lxc

  /** A guest config's place under /etc/pve/nodes. */
  datatype Place = Place(node: string, kind: Kind, vmid: nat)

  type Configs = map<Place, int>

  /** What pmxcfs keeps: a VMID is in one place only. */
  ghost predicate Unique(configs: Configs) {
    forall p, q | p in configs && q in configs && p.vmid == q.vmid :: p == q
  }

  function To(p: Place, node: string): Place {
    p.(node := node)
  }

  ghost predicate SameAt(a: Configs, b: Configs, p: Place) {
    (p in a <==> p in b) && (p in a ==> a[p] == b[p])
  }

  /** The config at p, if any, has gone to q: unless one is there already, which then stays. */
  ghost predicate HasMoved(start: Configs, now: Configs, p: Place, q: Place) {
    if p in start && q !in start then p !in now && q in now && now[q] == start[p]
    else SameAt(start, now, p) && SameAt(start, now, q)
  }

  ghost predicate HasStayed(start: Configs, now: Configs, p: Place, q: Place) {
    SameAt(start, now, p) && SameAt(start, now, q)
  }

  ghost predicate IsOld(p: Place, former: string) {
    p.node == former
  }

  /** Part of the way from one name to the other: every config is at one end of its move. */
  ghost predicate Underway(start: Configs, now: Configs, former: string, node: string) {
    && (forall p: Place | p.node != former && p.node != node :: SameAt(start, now, p))
    && (forall p | IsOld(p, former) :: HasMoved(start, now, p, To(p, node)) || HasStayed(start, now, p, To(p, node)))
  }

  ghost predicate KindMoved(start: Configs, now: Configs, former: string, node: string, kind: Kind) {
    forall p | IsOld(p, former) && p.kind == kind :: HasMoved(start, now, p, To(p, node))
  }

  ghost predicate KindUntouched(start: Configs, now: Configs, kind: Kind) {
    forall p: Place | p.kind == kind :: SameAt(start, now, p)
  }

  /** On the way, no VMID comes to be in two places, and none is lost. */
  lemma UnderwayIsSafe(start: Configs, now: Configs, former: string, node: string)
    requires former != node && Unique(start) && Underway(start, now, former, node)
    ensures Unique(now)
    ensures forall p | p in start :: (p in now && now[p] == start[p]) || (To(p, node) in now && now[To(p, node)] == start[p])
    ensures forall q | q in now :: (q in start && start[q] == now[q]) || (To(q, former) in start && start[To(q, former)] == now[q])
  {
    forall q | q in now
      ensures (q in start && start[q] == now[q]) || (q.node == node && To(q, former) in start && start[To(q, former)] == now[q] && To(q, former) !in now)
    {
      if q.node == former {
        assert IsOld(q, former);
      } else if q.node == node {
        assert IsOld(To(q, former), former) && To(To(q, former), node) == q;
      }
    }
    forall p | p in start
      ensures (p in now && now[p] == start[p]) || (To(p, node) in now && now[To(p, node)] == start[p])
    {
      if p.node == former {
        assert IsOld(p, former);
      } else if p.node == node {
        assert IsOld(To(p, former), former) && To(To(p, former), node) == p;
      }
    }
    forall p, q | p in now && q in now && p.vmid == q.vmid ensures p == q {
      var p0 := if p in start then p else To(p, former);
      var q0 := if q in start then q else To(q, former);
      assert p0 in start && q0 in start && p0 == q0;
    }
  }

  /**
   Every config of the former name under the new one, where there was none yet. Of those that
   found one there, the removal takes what it can.
   */
  function Renamed(configs: Configs, former: string, node: string, removes: Place -> bool): Configs {
    map p | p in configs.Keys + (set q | q in configs && q.node == former :: To(q, node))
            && (p.node == former ==> To(p, node) in configs && !removes(p)) ::
      if p in configs then configs[p] else configs[To(p, former)]
  }

  datatype Renaming = Complete | MoveFailed(place: Place)

  class Pmxcfs {
    var configs: Configs

    constructor (configs: Configs)
      ensures this.configs == configs
    {
      this.configs := configs;
    }

    /** The loop over the files of one kind. */
    method MoveKind(former: string, node: string, kind: Kind, moves: Place -> bool) returns (failed: Option<Place>)
      requires former != node
      modifies this
      ensures Underway(old(configs), configs, former, node)
      ensures forall other | other != kind :: KindUntouched(old(configs), configs, other)
      ensures failed.None? ==> KindMoved(old(configs), configs, former, node, kind)
      ensures failed.Some? ==> failed.value in configs && failed.value.node == former && !moves(failed.value)
    {
      var left := set p | p in configs && p.node == former && p.kind == kind;
      ghost var start := configs;
      while left != {}
        invariant left <= (set p | p in start && p.node == former && p.kind == kind)
        invariant forall p: Place | (p.node != former && p.node != node) || p.kind != kind :: SameAt(start, configs, p)
        invariant forall p | IsOld(p, former) && p.kind == kind ::
          if p in left then HasStayed(start, configs, p, To(p, node)) else HasMoved(start, configs, p, To(p, node))
        decreases left
      {
        var f :| f in left;
        var dest := To(f, node);
        if dest !in configs {
          if !moves(f) {
            return Some(f);
          }
          configs := (configs - {f})[dest := configs[f]];
        }
        left := left - {f};
      }
      return None;
    }

    /** Both kinds, then rm -rf of the former directory, which may fail for any file without notice. */
    method Rename(former: string, node: string, moves: Place -> bool, removes: Place -> bool) returns (r: Renaming)
      requires former != node
      modifies this
      ensures r.Complete? ==> configs == Renamed(old(configs), former, node, removes)
      ensures (forall p :: moves(p)) ==> r.Complete?
      ensures r.MoveFailed? ==> r.place in configs && r.place.node == former && !moves(r.place)
      ensures r.MoveFailed? ==> Underway(old(configs), configs, former, node)
    {
      var failed := MoveKind(former, node, Qemu, moves);
      if failed.Some? {
        return MoveFailed(failed.value);
      }
      ghost var half := configs;
      failed := MoveKind(former, node, Lxc, moves);
      BothUnderway(old(configs), half, configs, former, node);
      if failed.Some? {
        return MoveFailed(failed.value);
      }
      ghost var moved := configs;
      configs := map p | p in configs && (p.node == former ==> !removes(p)) :: configs[p];
      AllMovedIsRenamed(old(configs), half, moved, configs, former, node, removes);
      return Complete;
    }
  }

  lemma BothUnderway(start: Configs, half: Configs, now: Configs, former: string, node: string)
    requires former != node
    requires Underway(start, half, former, node) && KindUntouched(start, half, Lxc)
    requires Underway(half, now, former, node) && KindUntouched(half, now, Qemu)
    ensures Underway(start, now, former, node)
  {
    forall p: Place | p.node != former && p.node != node ensures SameAt(start, now, p) {
      assert SameAt(start, half, p) && SameAt(half, now, p);
    }
    forall p | IsOld(p, former)
      ensures HasMoved(start, now, p, To(p, node)) || HasStayed(start, now, p, To(p, node))
    {
      match p.kind
      case Qemu => assert SameAt(half, now, p) && SameAt(half, now, To(p, node));
      case Lxc => assert SameAt(start, half, p) && SameAt(start, half, To(p, node));
    }
  }

  lemma AllMovedIsRenamed(start: Configs, half: Configs, moved: Configs, after: Configs,
                          former: string, node: string, removes: Place -> bool)
    requires former != node
    requires Underway(start, half, former, node) && KindMoved(start, half, former, node, Qemu) && KindUntouched(start, half, Lxc)
    requires Underway(half, moved, former, node) && KindMoved(half, moved, former, node, Lxc) && KindUntouched(half, moved, Qemu)
    requires after == map p | p in moved && (p.node == former ==> !removes(p)) :: moved[p]
    ensures after == Renamed(start, former, node, removes)
  {
    var renamed := Renamed(start, former, node, removes);
    forall o | IsOld(o, former) ensures HasMoved(start, moved, o, To(o, node)) {
      var p := To(o, node);
      match o.kind
      case Qemu => assert SameAt(half, moved, o) && SameAt(half, moved, p) && HasMoved(start, half, o, p);
      case Lxc => assert SameAt(start, half, p) && SameAt(start, half, o) && HasMoved(half, moved, o, p);
    }
    forall p ensures SameAt(after, renamed, p) {
      if p.node == node {
        var o := To(p, former);
        assert IsOld(o, former) && To(o, node) == p;
      } else if p.node == former {
        assert IsOld(p, former);
      } else {
        assert SameAt(start, half, p) && SameAt(half, moved, p);
      }
    }
    assert forall p | p in after || p in renamed :: SameAt(after, renamed, p);
  }

  /** No config of the former name finds another one in its place. */
  ghost predicate NoCollision(configs: Configs, former: string, node: string) {
    forall p | p in configs && p.node == former && To(p, node) in configs :: configs[To(p, node)] == configs[p]
  }

  /**
   The finished rename loses no config exactly when none finds another in its place; where a
   VMID has one place only, none ever does, and nothing is left under the former name even if
   the removal does not work.
   */
  lemma RenameConserves(configs: Configs, former: string, node: string, removes: Place -> bool)
    requires former != node
    ensures var renamed := Renamed(configs, former, node, removes);
            (forall p | p in configs && p.node == former :: To(p, node) in renamed && renamed[To(p, node)] == configs[p]) <==>
            NoCollision(configs, former, node)
    ensures Unique(configs) ==>
      && NoCollision(configs, former, node) && Unique(Renamed(configs, former, node, removes))
      && forall p | p in Renamed(configs, former, node, removes) :: p.node != former
    ensures forall p | p in Renamed(configs, former, node, removes) && p.node == former ::
      p in configs && To(p, node) in configs && !removes(p)
  {
    var renamed := Renamed(configs, former, node, removes);
    forall p | p in configs && p.node == former
      ensures To(p, node) in renamed
      ensures renamed[To(p, node)] == if To(p, node) in configs then configs[To(p, node)] else configs[p]
    {
      assert To(To(p, node), former) == p;
    }
    if Unique(configs) {
      forall p, q | p in renamed && q in renamed && p.vmid == q.vmid ensures p == q {
        var p0 := if p in configs then p else To(p, former);
        var q0 := if q in configs then q else To(q, former);
        assert p0 in configs && q0 in configs;
      }
    }
  }

  // ----- shedding guests, and what the checks see of it

  /** qm list or pct list: the guests of one kind, or nothing when the command fails. */
  function Listed(configs: Configs, node: string, kind: Kind, works: bool): set<Place> {
    if works then set p | p in configs && p.node == node && p.kind == kind else {}
  }

  datatype Host = Host(qmListsBefore: bool, pctLists: bool, qmListsAfter: bool, destroys: Place -> bool)

  /** What is left when every listed guest has been asked to go, failures ignored. */
  function Shed(configs: Configs, node: string, kind: Kind, works: bool, destroys: Place -> bool): Configs {
    map p | p in configs && !(p in Listed(configs, node, kind, works) && destroys(p)) :: configs[p]
  }

  method ShedKind(configs: Configs, node: string, kind: Kind, works: bool, destroys: Place -> bool) returns (after: Configs)
    ensures after == Shed(configs, node, kind, works, destroys)
  {
    var left := Listed(configs, node, kind, works);
    after := configs;
    while left != {}
      invariant left <= Listed(configs, node, kind, works)
      invariant after == map p | p in configs &&
        !(p in Listed(configs, node, kind, works) && p !in left && destroys(p)) :: configs[p]
      decreases left
    {
      var p :| p in left;
      if destroys(p) {
        after := after - {p};
      }
      left := left - {p};
    }
  }

  /** The part of the identity script after the rename, and of the checks, that concerns guests. */
  method ShedAndVerify(configs: Configs, node: string, index: nat, template: Place, host: Host)
      returns (after: Configs, passed: bool)
    requires template.node == node && template.kind == Qemu
    ensures index == 1 ==> after == configs && (passed <==> template in configs && host.qmListsAfter)
    ensures index != 1 ==>
      after == Shed(Shed(configs, node, Qemu, host.qmListsBefore, host.destroys), node, Lxc, host.pctLists, host.destroys)
    ensures index != 1 ==> (passed <==> Listed(after, node, Qemu, host.qmListsAfter) == {})
  {
    after := configs;
    if index != 1 {
      after := ShedKind(after, node, Qemu, host.qmListsBefore, host.destroys);
      after := ShedKind(after, node, Lxc, host.pctLists, host.destroys);
      passed := Listed(after, node, Qemu, host.qmListsAfter) == {};
    } else {
      passed := template in Listed(after, node, Qemu, host.qmListsAfter);
    }
  }

  /** What a node that is not the first has left once it was told to shed its guests. */
  function AfterShedding(configs: Configs, node: string, host: Host): Configs {
    Shed(Shed(configs, node, Qemu, host.qmListsBefore, host.destroys), node, Lxc, host.pctLists, host.destroys)
  }

  predicate PassesAsEmpty(configs: Configs, node: string, host: Host) {
    Listed(AfterShedding(configs, node, host), node, Qemu, host.qmListsAfter) == {}
  }

  ghost predicate HasNoGuest(configs: Configs, node: string) {
    forall p | p in configs :: p.node != node
  }

  /** One node: what it has left if it passes, by what could be listed and what went. */
  lemma PassedNodeIsEmpty(configs: Configs, node: string, host: Host)
    requires PassesAsEmpty(configs, node, host)
    ensures HasNoGuest(AfterShedding(configs, node, host), node) <==>
            && (host.qmListsAfter || forall p | p in configs && p.node == node && p.kind == Qemu :: host.qmListsBefore && host.destroys(p))
            && (forall p | p in configs && p.node == node && p.kind == Lxc :: host.pctLists && host.destroys(p))
  {
    var half, after := Shed(configs, node, Qemu, host.qmListsBefore, host.destroys), AfterShedding(configs, node, host);
    forall p
      ensures p in after && p.node == node && p.kind == Qemu <==>
              p in configs && p.node == node && p.kind == Qemu && !(host.qmListsBefore && host.destroys(p))
      ensures p in after && p.node == node && p.kind == Lxc <==>
              p in configs && p.node == node && p.kind == Lxc && !(host.pctLists && host.destroys(p))
    {
      assert p in half <==> p in configs && !(p in Listed(configs, node, Qemu, host.qmListsBefore) && host.destroys(p));
      assert p in after <==> p in half && !(p in Listed(half, node, Lxc, host.pctLists) && host.destroys(p));
    }
    assert host.qmListsAfter ==>
      forall p :: p in Listed(after, node, Qemu, true) <==> p in after && p.node == node && p.kind == Qemu;
  }

  /** Every VM goes, qm works, pct does not: a node that passes and keeps its containers. */
  const CONTAINERS_STAY: Host := Host(true, false, true, _ => true)

  /** Neither command works, so nothing is listed and nothing goes. */
  const NOTHING_LISTED: Host := Host(false, false, false, _ => false)

  lemma ContainersStay(configs: Configs, node: string)
    ensures PassesAsEmpty(configs, node, CONTAINERS_STAY)
    ensures HasNoGuest(AfterShedding(configs, node, CONTAINERS_STAY), node) <==>
            forall p | p in configs && p.node == node :: p.kind == Qemu
  {
    var after := AfterShedding(configs, node, CONTAINERS_STAY);
    assert forall p :: p in after <==> p in configs && !(p.node == node && p.kind == Qemu);
  }

  /**
   Passing the check means an empty node, whatever the host does, exactly if the node had no
   container to begin with, provided the check itself could list VMs; and if it might not
   have, exactly if the node had no guest at all.
   */
  lemma WhatPassingVouchesFor(configs: Configs, node: string)
    ensures (forall host: Host | host.qmListsAfter && PassesAsEmpty(configs, node, host) ::
               HasNoGuest(AfterShedding(configs, node, host), node)) <==>
            forall p | p in configs && p.node == node :: p.kind == Qemu
    ensures (forall host: Host | PassesAsEmpty(configs, node, host) ::
               HasNoGuest(AfterShedding(configs, node, host), node)) <==>
            HasNoGuest(configs, node)
  {
    forall host: Host | PassesAsEmpty(configs, node, host)
      ensures (host.qmListsAfter && forall p | p in configs && p.node == node :: p.kind == Qemu) || HasNoGuest(configs, node) ==>
                HasNoGuest(AfterShedding(configs, node, host), node)
    {
      PassedNodeIsEmpty(configs, node, host);
    }
    ContainersStay(configs, node);
    assert PassesAsEmpty(configs, node, NOTHING_LISTED);
    assert AfterShedding(configs, node, NOTHING_LISTED) == configs;
  }

  // ----- the whole of it

  datatype Personalised = Checked(passed: bool) | StoppedAt(place: Place)

  /**
   The identity script and the check after it, for guests: the rename, if the name is a new
   one, then shedding. `template` is where the VM template is once the node has its name.
   */
  method Personalise(fs: Pmxcfs, former: string, node: string, index: nat, template: Place,
                     moves: Place -> bool, removes: Place -> bool, host: Host)
      returns (r: Personalised)
    requires template.node == node && template.kind == Qemu
    modifies fs
    ensures (former == node || forall p :: moves(p)) ==> r.Checked?
    // Node 1 keeps the template it had under its former name, and is known to exactly if qm lists.
    ensures index == 1 && r.Checked? && Unique(old(fs.configs)) && To(template, former) in old(fs.configs) ==>
      && template in fs.configs && fs.configs[template] == old(fs.configs)[To(template, former)]
      && (r.passed <==> host.qmListsAfter)
    // It keeps every other guest as well.
    ensures index == 1 && r.Checked? && Unique(old(fs.configs)) ==>
      forall p | p in old(fs.configs) && p.node == former :: To(p, node) in fs.configs && fs.configs[To(p, node)] == old(fs.configs)[p]
    // And a node without its template never passes.
    ensures index == 1 && r.Checked? && template !in old(fs.configs) && To(template, former) !in old(fs.configs) ==> !r.passed
    ensures r.StoppedAt? ==> former != node && Underway(old(fs.configs), fs.configs, former, node) && r.place in fs.configs
    ensures index != 1 && r.Checked? ==>
      var renamed := if former == node then old(fs.configs) else Renamed(old(fs.configs), former, node, removes);
      fs.configs == AfterShedding(renamed, node, host) && (r.passed <==> PassesAsEmpty(renamed, node, host))
  {
    if former != node {
      var renaming := fs.Rename(former, node, moves, removes);
      if renaming.MoveFailed? {
        return StoppedAt(renaming.place);
      }
      RenameConserves(old(fs.configs), former, node, removes);
      assert To(To(template, former), node) == template;
    } else {
      assert forall p: Place | p.node == former :: To(p, node) == p;
    }
    var after, passed := ShedAndVerify(fs.configs, node, index, template, host);
    fs.configs := after;
    return Checked(passed);
  }
}
