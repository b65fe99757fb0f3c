/**
 The image cache: a base image, variants baked on top of it one profile at a time, and
 node images derived from a variant. A file is found by its name alone, so the name has
 to determine what is in it, over every sequence of builds and whatever step each build
 stops at.
 */
module Images {
  import opened Text
  import opened Wrappers

  type Path = string

  /**
   What one step left on a disk: finished, not finished, or finished in a machine that was
   still running when it was killed, so that any part of it may be missing.
   */
  datatype Layer =
    | Baked(profile: string)
    | CutOff(profile: string)
    | Unverified(index: nat)
    | Identity(index: nat)
    | Torn

  datatype Image =
    | Flat(layers: seq<Layer>)
    | Overlay(backing: Path, own: seq<Layer>)

  type Files = map<Path, Image>

  /** What a machine booted from p sees: its own layers over those of its backing chain. */
  function Contents(files: Files, p: Path): Option<seq<Layer>>
    decreases |files|
  {
    if p !in files then None
    else match files[p]
      case Flat(layers) => Some(layers)
      case Overlay(backing, own) =>
        match Contents(files - {p}, backing)
        case None => None
        case Some(below) => Some(below + own)
  }

  // ----- names

  const VERSION := "9.2-1"

  function ImageFile(variant: string, suffix: string): Path {
    "images/pve-" + VERSION + "-" + variant + suffix
  }

  function NodeSuffix(variant: string, index: nat): string {
    variant + "-node" + Decimal(index)
  }

  function VariantPath(variant: string): Path {
    ImageFile(variant, ".qcow2")
  }

  function NodePath(variant: string, index: nat): Path {
    ImageFile(NodeSuffix(variant, index), ".qcow2")
  }

  function TmpPath(variant: string): Path {
    ImageFile(variant, ".tmp")
  }

  function ScratchPath(variant: string): Path {
    "build/bake-" + variant + "/node.qcow2"
  }

  /** The variant reached by baking these profiles, in order, on top of the base image. */
  function VariantName(bakes: seq<string>): string {
    if bakes == [] then "base" else Join(bakes, '+')
  }

  function Key(bakes: seq<string>): Path {
    VariantPath(VariantName(bakes))
  }

  ghost predicate NodeLike(name: string) {
    exists a, i :: name == NodeSuffix(a, i)
  }

  /** The profile names under which a file name is a key; each clause is needed, see below. */
  ghost predicate Nameable(bakes: seq<string>) {
    && (forall b | b in bakes :: '+' !in b && !NodeLike(b))
    && (bakes != [] ==> bakes[0] != "base")
  }

  function Layers(bakes: seq<string>): seq<Layer> {
    seq(|bakes|, k requires 0 <= k < |bakes| => Baked(bakes[k]))
  }

  lemma ImageFileInjective(v: string, v': string, suffix: string)
    requires ImageFile(v, suffix) == ImageFile(v', suffix)
    ensures v == v'
  {
    var head := "images/pve-" + VERSION + "-";
    var p, p' := ImageFile(v, suffix), ImageFile(v', suffix);
    assert v == p[|head|..|p| - |suffix|] && v' == p'[|head|..|p'| - |suffix|];
  }

  /** The name spells the bakes: different ordered bake lists get different files. */
  lemma KeyInjective(bakes: seq<string>, bakes': seq<string>)
    requires Nameable(bakes) && Nameable(bakes')
    requires Key(bakes) == Key(bakes')
    ensures bakes == bakes'
  {
    ImageFileInjective(VariantName(bakes), VariantName(bakes'), ".qcow2");
    NameSpellsBakes(bakes);
    NameSpellsBakes(bakes');
  }

  /** Reading a variant name back. */
  function BakesOf(variant: string): seq<string> {
    if variant == "base" then [] else Split(variant, '+')
  }

  lemma NameSpellsBakes(bakes: seq<string>)
    requires Nameable(bakes)
    ensures BakesOf(VariantName(bakes)) == bakes
  {
    if bakes != [] {
      SplitJoin(bakes, '+');
      if Join(bakes, '+') == "base" {
        SplitNone("base", '+');
        assert false;
      }
    }
  }

  /** The other direction, for every variant string at all. */
  lemma BakesSpellName(variant: string)
    ensures VariantName(BakesOf(variant)) == variant
  {
    JoinSplit(variant, '+');
  }

  lemma NodeSuffixInjective(v: string, i: nat, v': string, i': nat)
    requires NodeSuffix(v, i) == NodeSuffix(v', i')
    ensures v == v' && i == i'
  {
    assert NodeSuffix(v, i) == (v + "-nod") + ['e'] + Decimal(i);
    assert NodeSuffix(v', i') == (v' + "-nod") + ['e'] + Decimal(i');
    TrailingNumberUnique(v + "-nod", 'e', Decimal(i), v' + "-nod", Decimal(i'));
    assert v == (v + "-nod")[..|v|] && v' == (v' + "-nod")[..|v'|];
    DecimalInjective(i, i');
  }

  /** Every node of every variant has a file of its own. */
  lemma NodePathInjective(v: string, i: nat, v': string, i': nat)
    requires NodePath(v, i) == NodePath(v', i')
    ensures v == v' && i == i'
  {
    ImageFileInjective(NodeSuffix(v, i), NodeSuffix(v', i'), ".qcow2");
    NodeSuffixInjective(v, i, v', i');
  }

  lemma VariantIsNotItsNode(v: string, i: nat)
    ensures VariantPath(v) != NodePath(v, i)
  {
    assert |NodeSuffix(v, i)| > |v|;
    if VariantPath(v) == NodePath(v, i) {
      ImageFileInjective(v, NodeSuffix(v, i), ".qcow2");
    }
  }

  lemma {:induction false} JoinEndsInLast(bakes: seq<string>) returns (front: string)
    requires bakes != []
    ensures Join(bakes, '+') == front + bakes[|bakes| - 1]
    ensures front == "" || front[|front| - 1] == '+'
  {
    if |bakes| == 1 {
      front := "";
    } else {
      assert bakes == bakes[..|bakes| - 1] + [bakes[|bakes| - 1]];
      JoinSnoc(bakes[..|bakes| - 1], bakes[|bakes| - 1], '+');
      front := Join(bakes[..|bakes| - 1], '+') + ['+'];
    }
  }

  lemma TailInLastPart(front: string, last: string, a: string, tail: string)
    requires front + last == a + tail
    requires front == "" || front[|front| - 1] == '+'
    requires '+' !in tail
    ensures |front| <= |a| && last == a[|front|..] + tail
  {
    var s := a + tail;
    assert forall k | |a| <= k < |s| :: s[k] == tail[k - |a|] && s[k] != '+';
    assert front != "" ==> (front + last)[|front| - 1] == '+';
    assert last == s[|front|..];
  }

  lemma NodeSuffixAssociates(a: string, i: nat)
    ensures NodeSuffix(a, i) == a + ("-node" + Decimal(i))
  {
  }

  /** A joined name only ends like a node's file if its last part does. */
  lemma NodeLikeInLast(bakes: seq<string>, a: string, i: nat)
    requires bakes != [] && Join(bakes, '+') == NodeSuffix(a, i)
    ensures NodeLike(bakes[|bakes| - 1])
  {
    var tail, last := "-node" + Decimal(i), bakes[|bakes| - 1];
    var front := JoinEndsInLast(bakes);
    NodeSuffixAssociates(a, i);
    assert '+' !in "-node" && '+' !in Decimal(i);
    TailInLastPart(front, last, a, tail);
    NodeSuffixAssociates(a[|front|..], i);
    assert last == NodeSuffix(a[|front|..], i);
  }

  lemma VariantNotNodeLike(bakes: seq<string>, a: string, i: nat)
    requires Nameable(bakes)
    ensures VariantName(bakes) != NodeSuffix(a, i)
  {
    var s := NodeSuffix(a, i);
    assert IsDigit(s[|s| - 1]);
    if bakes != [] && Join(bakes, '+') == s {
      NodeLikeInLast(bakes, a, i);
    }
  }

  lemma KeyIsNoOtherFile(bakes: seq<string>, v: string, i: nat)
    requires Nameable(bakes)
    ensures Key(bakes) != NodePath(v, i)
    ensures Key(bakes) != TmpPath(v) && Key(bakes) != ScratchPath(v)
  {
    VariantNotNodeLike(bakes, v, i);
    if Key(bakes) == NodePath(v, i) {
      ImageFileInjective(VariantName(bakes), NodeSuffix(v, i), ".qcow2");
    }
    assert Key(bakes)[0] == 'i' && ScratchPath(v)[0] == 'b';
    assert Key(bakes)[|Key(bakes)| - 1] == '2' && TmpPath(v)[|TmpPath(v)| - 1] == 'p';
  }

  // Each clause of Nameable is needed: here are the whole families that break it.

  lemma PlusInNameCollides(a: string, b: string)
    ensures Key([a + "+" + b]) == Key([a, b]) && [a + "+" + b] != [a, b]
  {
    assert [a, b][1..] == [b];
    assert Join([a, b], '+') == a + ['+'] + Join([b], '+') == a + "+" + b;
    assert |[a + "+" + b]| == 1 && |[a, b]| == 2;
  }

  lemma BaseAsFirstNameCollides()
    ensures Key(["base"]) == Key([])
  {
  }

  lemma NodeLikeNameCollides(a: string, i: nat)
    ensures Key([NodeSuffix(a, i)]) == NodePath(a, i)
  {
  }

  // ----- one bake

  /**
   Where a bake stops: qemu-img, qemu, ssh, the profile's script or the host itself. That the
   machine has not powered off in time is none of these: nobody looks.
   */
  datatype BakeFault =
    | Completes
    | OverlayFails
    | StartFails
    | Unreachable
    | BakeIncomplete
    | ConvertFails
    | ReplaceFails
    | DiesBeforeCleanup

  datatype Error = ImageMissing(path: Path) | BuildFailed

  ghost predicate SameOutside(before: Files, after: Files, touched: set<Path>) {
    forall p | p !in touched :: (p in before <==> p in after) && (p in before ==> before[p] == after[p])
  }

  ghost predicate SameAt(before: Files, after: Files, p: Path) {
    (p in before <==> p in after) && (p in before ==> before[p] == after[p])
  }

  /** No node's image is touched. */
  ghost predicate SameNodes(before: Files, after: Files) {
    forall v, i :: SameAt(before, after, NodePath(v, i))
  }

  /** The contents a bake for `out` starts from: its own old scratch overlay is gone by then. */
  function Lower(files: Files, base: string, out: string): Option<seq<Layer>> {
    Contents(files - {ScratchPath(out)}, VariantPath(base))
  }

  /** The bake looks nothing up and nothing stops it early: it boots a build machine. */
  predicate BakeRuns(files: Files, base: string, out: string, force: bool) {
    VariantPath(base) in files && (VariantPath(out) in files ==> force)
  }

  function BakeLayer(name: string, cut: bool): Layer {
    if cut then CutOff(name) else Baked(name)
  }

  ghost predicate Published(before: Files, after: Files, name: string, base: string, out: string, cut: bool) {
    && VariantPath(out) in after
    && Lower(before, base, out).Some?
    && after[VariantPath(out)] == Flat(Lower(before, base, out).value + [BakeLayer(name, cut)])
  }

  ghost predicate BakeDoes(before: Files, after: Files, name: string, base: string, out: string, cut: bool, published: bool) {
    && SameOutside(before, after, {VariantPath(out), TmpPath(out), ScratchPath(out)})
    && if published then Published(before, after, name, base, out, cut) else SameAt(before, after, VariantPath(out))
  }

  /**
   What a bake may do to the image store, stopped anywhere: the published image is either
   as it was or the base variant's whole contents plus this bake, and nothing else but the
   bake's own scratch files is touched. `cut` is whether its machine was killed while running.
   */
  ghost predicate BakeEffect(before: Files, after: Files, name: string, base: string, out: string, cut: bool) {
    BakeDoes(before, after, name, base, out, cut, false) || BakeDoes(before, after, name, base, out, cut, true)
  }

  ghost predicate NodeComplete(files: Files, variant: string, index: nat) {
    && NodePath(variant, index) in files
    && files[NodePath(variant, index)] == Overlay(VariantPath(variant), [Identity(index)])
  }

  /** A node's image, if it is there, is an overlay over its variant. */
  ghost predicate IsOverlay(files: Files, variant: string, index: nat) {
    NodePath(variant, index) in files ==>
      files[NodePath(variant, index)].Overlay? && files[NodePath(variant, index)].backing == VariantPath(variant)
  }

  /** Whether the machine was still running when it was killed, after either boot. */
  datatype NodeCuts = NodeCuts(first: bool, second: bool) {
    predicate Any() {
      first || second
    }
  }

  datatype NodeEnd = Untouched | Rebuilt(returned: bool, cut: bool)

  /** A node image is built in place, so a build that stops leaves whatever it had written. */
  ghost predicate NodeDoes(before: Files, after: Files, variant: string, index: nat, end: NodeEnd) {
    && SameOutside(before, after, {NodePath(variant, index)})
    && match end
       case Untouched => SameAt(before, after, NodePath(variant, index))
       case Rebuilt(returned, cut) =>
         && IsOverlay(after, variant, index)
         && (NodeComplete(after, variant, index) <==> returned && !cut)
  }

  ghost predicate NodeEffect(before: Files, after: Files, variant: string, index: nat) {
    exists end :: NodeDoes(before, after, variant, index, end)
  }

  datatype NodeFault =
    | NodeCompletes
    | NodeOverlayFails
    | FirstBootFails
    | IdentityIncomplete
    | SecondBootFails
    | VerifyFails

  /** The bakes a name spells, in order, each as its machine was left. */
  predicate Spells(layers: seq<Layer>, bakes: seq<string>) {
    |layers| == |bakes| && forall k | 0 <= k < |bakes| :: layers[k] == Baked(bakes[k]) || layers[k] == CutOff(bakes[k])
  }

  /** What the store always keeps: a variant on disk holds what its name spells, a node's image lies over its variant. */
  ghost predicate Keyed(files: Files) {
    && (forall bakes | Nameable(bakes) && Key(bakes) in files ::
          files[Key(bakes)].Flat? && Spells(files[Key(bakes)].layers, bakes))
    && forall v, i :: IsOverlay(files, v, i)
  }

  /** What its owner is promised of a variant: nothing of any bake is missing. */
  ghost predicate Whole(files: Files, bakes: seq<string>) {
    Key(bakes) in files && files[Key(bakes)] == Flat(Layers(bakes))
  }

  lemma OneMoreBake(layers: seq<Layer>, bakes: seq<string>, name: string, cut: bool)
    ensures layers + [BakeLayer(name, cut)] == Layers(bakes + [name]) <==> layers == Layers(bakes) && !cut
    ensures Spells(layers, bakes) ==> Spells(layers + [BakeLayer(name, cut)], bakes + [name])
  {
    var all := layers + [BakeLayer(name, cut)];
    assert Layers(bakes + [name]) == Layers(bakes) + [Baked(name)];
    assert all[..|all| - 1] == layers && all[|all| - 1] == BakeLayer(name, cut);
    var want := Layers(bakes) + [Baked(name)];
    assert want[..|want| - 1] == Layers(bakes) && want[|want| - 1] == Baked(name);
  }

  lemma FilesApart(v: string)
    ensures VariantPath(v) != TmpPath(v) && VariantPath(v) != ScratchPath(v) && TmpPath(v) != ScratchPath(v)
  {
    assert VariantPath(v)[0] == 'i' && TmpPath(v)[0] == 'i' && ScratchPath(v)[0] == 'b';
    assert VariantPath(v)[|VariantPath(v)| - 1] == '2' && TmpPath(v)[|TmpPath(v)| - 1] == 'p';
  }

  /** Publishing from scratch files: the result does not depend on what scratch held before. */
  lemma ScratchContents(files: Files, base: Path, scratch: Path, own: seq<Layer>)
    requires scratch !in files
    ensures Contents(files[scratch := Overlay(base, own)], scratch) ==
            match Contents(files, base) case None => None case Some(below) => Some(below + own)
  {
    assert files[scratch := Overlay(base, own)] - {scratch} == files;
  }

  /** Flattening the scratch overlay publishes the bake, also once the overlay is gone. */
  lemma FlattenedIsPublished(before: Files, scratched: Files, after: Files, name: string, base: string, out: string, cut: bool)
    requires scratched == (before - {ScratchPath(out)})[ScratchPath(out) := Overlay(VariantPath(base), [BakeLayer(name, cut)])]
    requires Contents(scratched, ScratchPath(out)).Some?
    requires after == (scratched - {TmpPath(out)})[VariantPath(out) := Flat(Contents(scratched, ScratchPath(out)).value)]
    ensures BakeDoes(before, after, name, base, out, cut, true)
    ensures BakeDoes(before, after - {ScratchPath(out)}, name, base, out, cut, true)
  {
    FilesApart(out);
    ScratchContents(before - {ScratchPath(out)}, VariantPath(base), ScratchPath(out), [BakeLayer(name, cut)]);
  }

  /**
   Whether a chain leaves its variant whole: the longest part of it that was there already
   was, and no machine of the rest is killed while it runs.
   */
  ghost predicate StaysWhole(start: Files, bakes: seq<string>, cuts: string -> bool)
    decreases |bakes|
  {
    if Key(bakes) in start then start[Key(bakes)] == Flat(Layers(bakes))
    else bakes != [] && !cuts(VariantName(bakes)) && StaysWhole(start, bakes[..|bakes| - 1], cuts)
  }

  /** How far a chain of bakes has come, from a store that kept its promise. */
  ghost predicate ChainHolds(start: Files, files: Files, bakes: seq<string>, variant: string, cuts: string -> bool) {
    && Nameable(bakes) && Keyed(files) && SameNodes(start, files)
    && variant == VariantName(bakes)
    && (bakes != [] || Key([]) in start ==> VariantPath(variant) in files)
    && (forall b | Nameable(b) && |b| > |bakes| :: SameAt(start, files, Key(b)))
    && (Key(bakes) in files ==> (Whole(files, bakes) <==> StaysWhole(start, bakes, cuts)))
  }

  class ImageStore {
    var files: Files
    var building: bool  // a build machine is running

    constructor ()
      ensures files == map[Key([]) := Flat([])] && !building
    {
      files := map[Key([]) := Flat([])];
      building := false;
    }

    method BakeProfile(name: string, base: string, out: string, hasBake: bool, force: bool, fault: BakeFault, cut: bool)
        returns (r: Result<string, Error>)
      requires !building
      modifies this
      ensures !building
      ensures !hasBake ==> r == Success(base) && files == old(files)
      ensures hasBake && VariantPath(base) !in old(files) ==>
        r == Failure(ImageMissing(VariantPath(base))) && files == old(files)
      ensures hasBake && VariantPath(base) in old(files) && VariantPath(out) in old(files) && !force ==>
        r == Success(out) && files == old(files)
      ensures hasBake ==> BakeEffect(old(files), files, name, base, out, cut)
      ensures hasBake && BakeRuns(old(files), base, out, force) ==>
        && (r.Success? <==> fault.Completes? && Lower(old(files), base, out).Some?)
        && (r.Success? ==> r.value == out && BakeDoes(old(files), files, name, base, out, cut, true))
        && (r.Success? ==> TmpPath(out) !in files && ScratchPath(out) !in files)
        && (r.Failure? && !fault.DiesBeforeCleanup? ==> SameAt(old(files), files, VariantPath(out)))
    {
      var target := VariantPath(out);
      if !hasBake {
        return Success(base);
      }
      if VariantPath(base) !in files {
        return Failure(ImageMissing(VariantPath(base)));
      }
      if target in files && !force {
        return Success(out);
      }
      r := RunBake(name, base, out, fault, cut);
    }

    /** The bake itself: on a scratch overlay, in a machine, then flattened into place. */
    method RunBake(name: string, base: string, out: string, fault: BakeFault, cut: bool)
        returns (r: Result<string, Error>)
      requires !building && VariantPath(base) in files
      modifies this
      ensures !building
      ensures BakeEffect(old(files), files, name, base, out, cut)
      ensures r.Success? <==> fault.Completes? && Lower(old(files), base, out).Some?
      ensures r.Success? ==> r.value == out && BakeDoes(old(files), files, name, base, out, cut, true)
      ensures r.Success? ==> TmpPath(out) !in files && ScratchPath(out) !in files
      ensures r.Failure? ==> r.error == BuildFailed
      ensures r.Failure? && !fault.DiesBeforeCleanup? ==> SameAt(old(files), files, VariantPath(out))
    {
      var scratch := ScratchPath(out);
      FilesApart(out);
      var baked := BakeScratch(name, base, out, fault, cut);
      if !baked {
        return Failure(BuildFailed);
      }
      ghost var scratched := files;
      ScratchContents(old(files) - {scratch}, VariantPath(base), scratch, [BakeLayer(name, cut)]);
      var published := Flatten(out, fault);
      if !published {
        return Failure(BuildFailed);
      }
      FlattenedIsPublished(old(files), scratched, files, name, base, out, cut);
      if fault.DiesBeforeCleanup? {
        return Failure(BuildFailed);
      }
      files := files - {scratch};
      return Success(out);
    }

    /** Up to killing the machine: the profile's script runs on a fresh overlay, in a machine of its own. */
    method BakeScratch(name: string, base: string, out: string, fault: BakeFault, cut: bool) returns (baked: bool)
      requires !building
      modifies this
      ensures !building && SameOutside(old(files), files, {ScratchPath(out)})
      ensures !baked <==> fault.OverlayFails? || fault.StartFails? || fault.Unreachable? || fault.BakeIncomplete?
      ensures baked ==>
        files == (old(files) - {ScratchPath(out)})[ScratchPath(out) := Overlay(VariantPath(base), [BakeLayer(name, cut)])]
    {
      var scratch := ScratchPath(out);
      files := files - {scratch};
      if fault.OverlayFails? {
        return false;
      }
      files := files[scratch := Overlay(VariantPath(base), [])];
      if fault.StartFails? {
        return false;
      }
      building := true;
      if fault.Unreachable? {
        building := false;
        return false;
      }
      if fault.BakeIncomplete? {
        files := files[scratch := Overlay(VariantPath(base), [Torn])];
        building := false;
        return false;
      }
      // The power-off is asked for and waited for, but whether it happened is not looked at.
      files := files[scratch := Overlay(VariantPath(base), [BakeLayer(name, cut)])];
      building := false;
      return true;
    }

    /** _flatten: convert to a temporary file, then put it in place in one step. */
    method Flatten(out: string, fault: BakeFault) returns (published: bool)
      modifies this`files
      ensures published <==> !fault.ConvertFails? && !fault.ReplaceFails? && Contents(old(files), ScratchPath(out)).Some?
      ensures published ==>
        files == (old(files) - {TmpPath(out)})[VariantPath(out) := Flat(Contents(old(files), ScratchPath(out)).value)]
      ensures !published ==> SameOutside(old(files), files, {TmpPath(out)})
    {
      var target, tmp := VariantPath(out), TmpPath(out);
      var whole := Contents(files, ScratchPath(out));
      if fault.ConvertFails? || whole.None? {
        files := files[tmp := Flat([Torn])];
        return false;
      }
      files := files[tmp := Flat(whole.value)];
      if fault.ReplaceFails? {
        return false;
      }
      files := (files - {tmp})[target := files[tmp]];
      return true;
    }

    method NodeImage(variant: string, index: nat, force: bool, fault: NodeFault, cuts: NodeCuts)
        returns (r: Result<Path, Error>)
      requires !building
      modifies this
      ensures !building
      ensures VariantPath(variant) !in old(files) ==>
        r == Failure(ImageMissing(VariantPath(variant))) && files == old(files)
      ensures VariantPath(variant) in old(files) && NodePath(variant, index) in old(files) && !force ==>
        r == Success(NodePath(variant, index)) && files == old(files)
      ensures VariantPath(variant) in old(files) && (NodePath(variant, index) in old(files) ==> force) ==>
        && (r.Success? <==> fault.NodeCompletes?)
        && (r.Success? ==> r.value == NodePath(variant, index))
        && NodeDoes(old(files), files, variant, index, Rebuilt(r.Success?, cuts.Any()))
        && (NodePath(variant, index) !in files <==> fault.NodeOverlayFails?)
      ensures NodeEffect(old(files), files, variant, index)
    {
      var base, target := VariantPath(variant), NodePath(variant, index);
      if base !in files || (target in files && !force) {
        assert NodeDoes(old(files), files, variant, index, Untouched);
        return if base !in files then Failure(ImageMissing(base)) else Success(target);
      }
      r := RebuildNode(variant, index, fault, cuts);
    }

    /** Two boots: the identity is written in the first and checked in the second. */
    method RebuildNode(variant: string, index: nat, fault: NodeFault, cuts: NodeCuts) returns (r: Result<Path, Error>)
      requires !building
      modifies this
      ensures !building
      ensures r.Success? <==> fault.NodeCompletes?
      ensures r.Success? ==> r.value == NodePath(variant, index)
      ensures NodeDoes(old(files), files, variant, index, Rebuilt(r.Success?, cuts.Any()))
      ensures NodePath(variant, index) !in files <==> fault.NodeOverlayFails?
    {
      var base, target := VariantPath(variant), NodePath(variant, index);
      files := files - {target};
      if fault.NodeOverlayFails? {
        return Failure(BuildFailed);
      }
      files := files[target := Overlay(base, [])];
      // First boot, on the base image's own addresses: write the identity.
      building := true;
      if fault.FirstBootFails? {
        building := false;
        return Failure(BuildFailed);
      }
      if fault.IdentityIncomplete? {
        files := files[target := Overlay(base, [Torn])];
        building := false;
        return Failure(BuildFailed);
      }
      files := files[target := Overlay(base, [if cuts.first then Torn else Unverified(index)])];
      building := false;
      // Second boot, on the node's addresses: check that the identity took.
      building := true;
      if fault.SecondBootFails? || fault.VerifyFails? {
        building := false;
        return Failure(BuildFailed);
      }
      files := files[target := Overlay(base, [if cuts.Any() then Torn else Identity(index)])];
      building := false;
      return Success(target);
    }

    /** Every bake the profiles ask for, each on the one before. */
    method BakeChain(profiles: seq<ProfileSpec>, faults: nat -> BakeFault, cuts: string -> bool)
        returns (r: Result<string, Error>)
      requires !building
      modifies this
      ensures !building
      ensures Nameable(Bakes(profiles)) && Keyed(old(files)) ==>
        && Keyed(files)
        && SameNodes(old(files), files)
        && (r.Success? ==> ChainHolds(old(files), files, Bakes(profiles), r.value, cuts))
        && (Key([]) in old(files) && (forall k :: faults(k).Completes?) ==> r.Success?)
    {
      ghost var ok := Nameable(Bakes(profiles)) && Keyed(files);
      var variant := "base";
      for k := 0 to |profiles|
        invariant !building
        invariant ok ==> ChainHolds(old(files), files, Bakes(profiles[..k]), variant, cuts)
      {
        BakesGrow(profiles, k);
        BakesPrefix(profiles, k + 1);
        if profiles[k].hasBake {
          if ok {
            PartNameable(Bakes(profiles[..k + 1]), Bakes(profiles));
          }
          var baked := BakeNext(profiles[k].name, variant, faults(k), cuts, old(files), Bakes(profiles[..k]));
          match baked
          case Failure(e) => return Failure(e);
          case Success(v) => variant := v;
        }
      }
      assert profiles[..|profiles|] == profiles;
      return Success(variant);
    }

    /** The loop's body: the next bake, on the variant the chain has reached. */
    method BakeNext(name: string, variant: string, fault: BakeFault, cuts: string -> bool,
                    ghost start: Files, ghost bakes: seq<string>)
        returns (r: Result<string, Error>)
      requires !building
      modifies this
      ensures !building
      ensures ChainHolds(start, old(files), bakes, variant, cuts) && Nameable(bakes + [name]) ==>
        && Keyed(files) && SameNodes(start, files)
        && (r.Success? ==> ChainHolds(start, files, bakes + [name], r.value, cuts))
        && (Key([]) in start && fault.Completes? ==> r.Success?)
    {
      var next := if variant == "base" then name else variant + "+" + name;
      ghost var ok := ChainHolds(start, files, bakes, variant, cuts) && Nameable(bakes + [name]);
      if ok {
        NextVariant(bakes, name);
        if Key(bakes) in files {
          LowerOfKeyed(files, bakes, next);
        }
      }
      r := BakeProfile(name, variant, next, true, false, fault, cuts(next));
      if ok {
        BakeKeepsBoth(start, old(files), files, bakes, name, cuts(next));
        if r.Success? {
          ChainGrows(start, old(files), files, bakes, variant, name, cuts);
        }
      }
    }

    /** A node image for each node: those already there are taken as they are. */
    method DeriveNodes(variant: string, nodes: nat, faults: nat -> NodeFault, cuts: nat -> NodeCuts)
        returns (r: Result<string, Error>)
      requires !building
      modifies this
      ensures !building
      ensures Keyed(old(files)) ==> Keyed(files)
      ensures SameAt(old(files), files, VariantPath(variant))
      ensures VariantPath(variant) in old(files) && (forall k :: faults(k).NodeCompletes?) ==> r.Success?
      ensures r.Success? ==> r.value == variant
      ensures r.Failure? ==> nodes >= 1
      ensures r.Success? && nodes > 0 ==> VariantPath(variant) in files
      ensures r.Success? ==> forall i | 1 <= i <= nodes ::
        && NodePath(variant, i) in files
        && (NodeComplete(files, variant, i) <==> EndsComplete(old(files), variant, i, cuts(i)))
    {
      for i := 1 to nodes + 1
        invariant !building
        invariant Keyed(old(files)) ==> Keyed(files)
        invariant SameAt(old(files), files, VariantPath(variant))
        invariant i > 1 ==> VariantPath(variant) in files
        invariant forall j | 1 <= j < i ::
          && NodePath(variant, j) in files
          && (NodeComplete(files, variant, j) <==> EndsComplete(old(files), variant, j, cuts(j)))
        invariant forall j | i <= j :: SameAt(old(files), files, NodePath(variant, j))
      {
        ghost var before := files;
        var built := NodeImage(variant, i, false, faults(i), cuts(i));
        if Keyed(before) {
          NodeKeepsKeyed(before, files, variant, i);
        }
        VariantIsNotItsNode(variant, i);
        forall j | j != i ensures SameAt(before, files, NodePath(variant, j)) {
          if NodePath(variant, j) == NodePath(variant, i) {
            NodePathInjective(variant, j, variant, i);
          }
        }
        match built
        case Failure(e) => return Failure(e);
        case Success(_) =>
      }
      return Success(variant);
    }

    /** The images half of the prepare phase: chain the bakes, then derive every node's image. */
    method PrepareImages(profiles: seq<ProfileSpec>, nodes: nat, bakeFaults: nat -> BakeFault, cuts: string -> bool,
                         nodeFaults: nat -> NodeFault, nodeCuts: nat -> NodeCuts)
        returns (r: Result<string, Error>)
      requires !building
      modifies this
      ensures !building
      ensures Nameable(Bakes(profiles)) && Keyed(old(files)) ==>
        && Keyed(files)
        && (Key([]) in old(files) && (forall k :: bakeFaults(k).Completes?) && (forall k :: nodeFaults(k).NodeCompletes?)
            ==> r.Success?)
        && (r.Success? ==> r.value == VariantName(Bakes(profiles)))
        && (r.Success? && (Bakes(profiles) != [] || nodes > 0) ==>
              && Key(Bakes(profiles)) in files
              && (Contents(files, Key(Bakes(profiles))) == Some(Layers(Bakes(profiles))) <==>
                    StaysWhole(old(files), Bakes(profiles), cuts)))
        && (r.Success? ==> forall i | 1 <= i <= nodes ::
              && NodePath(r.value, i) in files
              && (NodeComplete(files, r.value, i) <==> EndsComplete(old(files), r.value, i, nodeCuts(i))))
    {
      var baked := BakeChain(profiles, bakeFaults, cuts);
      if baked.Failure? {
        return baked;
      }
      ghost var mid := files;
      r := DeriveNodes(baked.value, nodes, nodeFaults, nodeCuts);
      if SameNodes(old(files), mid) {
        forall i: nat ensures EndsComplete(mid, baked.value, i, nodeCuts(i)) <==> EndsComplete(old(files), baked.value, i, nodeCuts(i)) {
          assert SameAt(old(files), mid, NodePath(baked.value, i));
        }
      }
    }
  }

  /** A node's image that is there is left as it is; one that is built is complete if no machine of its was cut off. */
  ghost predicate EndsComplete(start: Files, variant: string, index: nat, cuts: NodeCuts) {
    if NodePath(variant, index) in start then NodeComplete(start, variant, index) else !cuts.Any()
  }

  datatype ProfileSpec = ProfileSpec(name: string, hasBake: bool)

  /** The names of the profiles that bake, in the order they were given. */
  function Bakes(profiles: seq<ProfileSpec>): seq<string> {
    if profiles == [] then []
    else
      var last := profiles[|profiles| - 1];
      Bakes(profiles[..|profiles| - 1]) + (if last.hasBake then [last.name] else [])
  }

  lemma {:induction false} BakesPrefix(profiles: seq<ProfileSpec>, k: nat)
    requires k <= |profiles|
    ensures Bakes(profiles[..k]) <= Bakes(profiles)
  {
    if k < |profiles| {
      BakesPrefix(profiles[..|profiles| - 1], k);
      assert profiles[..|profiles| - 1][..k] == profiles[..k];
    } else {
      assert profiles[..k] == profiles;
    }
  }

  lemma BakesGrow(profiles: seq<ProfileSpec>, k: nat)
    requires k < |profiles|
    ensures Bakes(profiles[..k + 1]) ==
            if profiles[k].hasBake then Bakes(profiles[..k]) + [profiles[k].name] else Bakes(profiles[..k])
  {
    var longer := profiles[..k + 1];
    assert longer[..|longer| - 1] == profiles[..k] && longer[|longer| - 1] == profiles[k];
    assert Bakes(profiles[..k]) + [] == Bakes(profiles[..k]);
  }

  lemma PartNameable(part: seq<string>, whole: seq<string>)
    requires part <= whole && Nameable(whole)
    ensures Nameable(part)
  {
    assert forall b | b in part :: b in whole;
    assert part != [] ==> part[0] == whole[0];
  }

  /** The loop's next variant name is the name of the longer bake list. */
  lemma NextVariant(bakes: seq<string>, name: string)
    requires Nameable(bakes)
    ensures VariantName(bakes + [name]) ==
            if VariantName(bakes) == "base" then name else VariantName(bakes) + "+" + name
  {
    if bakes == [] {
      assert bakes + [name] == [name];
    } else {
      NameSpellsBakes(bakes);
      JoinSnoc(bakes, name, '+');
    }
  }

  // ----- what every build keeps

  lemma LowerOfKeyed(files: Files, bakes: seq<string>, out: string)
    requires Nameable(bakes) && Keyed(files) && Key(bakes) in files
    ensures Lower(files, VariantName(bakes), out) == Some(files[Key(bakes)].layers)
  {
    KeyIsNoOtherFile(bakes, out, 0);
  }

  lemma BakeKeepsKeyed(before: Files, after: Files, bakes: seq<string>, name: string, cut: bool)
    requires Nameable(bakes + [name]) && Keyed(before)
    requires BakeEffect(before, after, name, VariantName(bakes), VariantName(bakes + [name]), cut)
    ensures Keyed(after)
  {
    var out := VariantName(bakes + [name]);
    PartNameable(bakes, bakes + [name]);
    forall other | Nameable(other) && Key(other) in after
      ensures after[Key(other)].Flat? && Spells(after[Key(other)].layers, other)
    {
      KeyIsNoOtherFile(other, out, 0);
      if Key(other) == VariantPath(out) {
        KeyInjective(other, bakes + [name]);
        if !SameAt(before, after, VariantPath(out)) {
          LowerOfKeyed(before, bakes, out);
          OneMoreBake(before[Key(bakes)].layers, bakes, name, cut);
        }
      }
    }
    BakeKeepsNodes(before, before, after, bakes, name, cut);
    forall v, i ensures IsOverlay(after, v, i) {
      assert SameAt(before, after, NodePath(v, i)) && IsOverlay(before, v, i);
    }
  }

  lemma BakeKeepsNodes(start: Files, before: Files, after: Files, bakes: seq<string>, name: string, cut: bool)
    requires Nameable(bakes + [name])
    requires BakeEffect(before, after, name, VariantName(bakes), VariantName(bakes + [name]), cut)
    requires SameNodes(start, before)
    ensures SameNodes(start, after)
  {
    var out := VariantName(bakes + [name]);
    forall v, i ensures SameAt(start, after, NodePath(v, i)) {
      KeyIsNoOtherFile(bakes + [name], v, i);
      assert NodePath(v, i)[0] == 'i' && ScratchPath(out)[0] == 'b';
      assert NodePath(v, i)[|NodePath(v, i)| - 1] == '2' && TmpPath(out)[|TmpPath(out)| - 1] == 'p';
      assert SameAt(start, before, NodePath(v, i));
    }
  }

  lemma BakeKeepsBoth(start: Files, before: Files, after: Files, bakes: seq<string>, name: string, cut: bool)
    requires Nameable(bakes + [name]) && Keyed(before) && SameNodes(start, before)
    requires BakeEffect(before, after, name, VariantName(bakes), VariantName(bakes + [name]), cut)
    ensures Keyed(after) && SameNodes(start, after)
  {
    BakeKeepsKeyed(before, after, bakes, name, cut);
    BakeKeepsNodes(start, before, after, bakes, name, cut);
  }

  /** A bake touches the variant it is for and no other. */
  lemma BakeKeepsOthers(before: Files, after: Files, bakes: seq<string>, name: string, cut: bool, other: seq<string>)
    requires Nameable(bakes + [name]) && Nameable(other) && other != bakes + [name]
    requires BakeEffect(before, after, name, VariantName(bakes), VariantName(bakes + [name]), cut)
    ensures SameAt(before, after, Key(other))
  {
    KeyIsNoOtherFile(other, VariantName(bakes + [name]), 0);
    if Key(other) == Key(bakes + [name]) {
      KeyInjective(other, bakes + [name]);
    }
  }

  lemma ChainGrows(start: Files, before: Files, after: Files, bakes: seq<string>, variant: string, name: string, cuts: string -> bool)
    requires Nameable(bakes + [name]) && ChainHolds(start, before, bakes, variant, cuts)
    requires Keyed(after) && SameNodes(start, after)
    requires var out := VariantName(bakes + [name]);
             && Key(bakes) in before
             && if Key(bakes + [name]) in before then after == before
                else BakeDoes(before, after, name, variant, out, cuts(out), true)
    ensures ChainHolds(start, after, bakes + [name], VariantName(bakes + [name]), cuts)
  {
    var all, out := bakes + [name], VariantName(bakes + [name]);
    assert all[..|all| - 1] == bakes && SameAt(start, before, Key(all));
    forall b | Nameable(b) && |b| > |all| ensures SameAt(start, after, Key(b)) {
      assert SameAt(start, before, Key(b));
      if Key(all) !in before {
        BakeKeepsOthers(before, after, bakes, name, cuts(out), b);
      }
    }
    if Key(all) !in before {
      LowerOfKeyed(before, bakes, out);
      OneMoreBake(before[Key(bakes)].layers, bakes, name, cuts(out));
    }
  }

  lemma NodeKeepsKeyed(before: Files, after: Files, variant: string, index: nat)
    requires Keyed(before) && NodeEffect(before, after, variant, index)
    ensures Keyed(after)
  {
    forall bakes | Nameable(bakes) && Key(bakes) in after
      ensures after[Key(bakes)].Flat? && Spells(after[Key(bakes)].layers, bakes)
    {
      KeyIsNoOtherFile(bakes, variant, index);
    }
    forall v, i ensures IsOverlay(after, v, i) {
      assert IsOverlay(before, v, i);
      if NodePath(v, i) == NodePath(variant, index) {
        NodePathInjective(v, i, variant, index);
      }
    }
  }

  /**
   A node image, booted, shows its variant's bakes under its own identity exactly if it is
   complete and the variant is whole.
   */
  lemma NodeShowsItsVariant(files: Files, bakes: seq<string>, index: nat)
    requires Keyed(files) && Nameable(bakes) && Key(bakes) in files && NodePath(VariantName(bakes), index) in files
    ensures Contents(files, NodePath(VariantName(bakes), index)) == Some(Layers(bakes) + [Identity(index)]) <==>
            NodeComplete(files, VariantName(bakes), index) && Whole(files, bakes)
  {
    var p := NodePath(VariantName(bakes), index);
    KeyIsNoOtherFile(bakes, VariantName(bakes), index);
    assert IsOverlay(files, VariantName(bakes), index);
    assert (files - {p})[Key(bakes)] == files[Key(bakes)];
    SplitAt(files[Key(bakes)].layers, files[p].own, Layers(bakes), [Identity(index)]);
  }

  lemma SplitAt(a: seq<Layer>, b: seq<Layer>, a': seq<Layer>, b': seq<Layer>)
    requires |a| == |a'|
    ensures a + b == a' + b' <==> a == a' && b == b'
  {
    assert (a + b)[..|a|] == a && (a' + b')[..|a'|] == a';
    assert (a + b)[|a|..] == b && (a' + b')[|a'|..] == b';
  }

  /**
   A node build is not atomic: one that stops while writing the identity leaves a file
   that the next, unforced call takes for a finished image.
   */
  method TornNodeImageIsServed(index: nat) returns (store: ImageStore, r: Result<Path, Error>)
    ensures r == Success(NodePath("base", index)) && !NodeComplete(store.files, "base", index)
  {
    store := new ImageStore();
    KeyIsNoOtherFile([], "base", index);
    var first := store.NodeImage("base", index, false, IdentityIncomplete, NodeCuts(false, false));
    r := store.NodeImage("base", index, false, NodeCompletes, NodeCuts(false, false));
  }

  /**
   Nor does a bake look whether its machine powered off: one killed while it ran is flattened
   and published as a success, and served from then on.
   */
  method CutOffBakeIsServed(name: string) returns (store: ImageStore, first: Result<string, Error>, again: Result<string, Error>)
    requires Nameable([name])
    ensures first == again == Success(name)
    ensures Key([name]) in store.files && !Whole(store.files, [name])
  {
    store := new ImageStore();
    if Key([name]) == Key([]) {
      KeyInjective([name], []);
    }
    KeyIsNoOtherFile([], name, 0);
    assert [] + [name] == [name] && Key([name]) == VariantPath(name);
    first := store.BakeProfile(name, "base", name, true, false, Completes, true);
    OneMoreBake([], [], name, true);
    again := store.BakeProfile(name, "base", name, true, false, Completes, false);
  }
}
