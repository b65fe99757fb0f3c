/**
 Every sequence of builds from a store that holds only the base: bakes and node builds,
 forced or not, stopped at any step, their machines powered off or cut off. What an image
 then holds can be told from the sequence alone.
 */
module ImageHistory {
  import opened Wrappers
  import opened Images

  /** One build: a bake on the variant of these bakes, or a node's image; and what came of it. */
  datatype Build =
    | BakeOf(bakes: seq<string>, name: string, published: bool, cut: bool)
    | NodeOf(variant: string, index: nat, end: NodeEnd)

  ghost predicate BuildStep(before: Files, after: Files, build: Build) {
    match build
    case BakeOf(bakes, name, published, cut) =>
      && Nameable(bakes + [name])
      && BakeDoes(before, after, name, VariantName(bakes), VariantName(bakes + [name]), cut, published)
    case NodeOf(variant, index, end) => NodeDoes(before, after, variant, index, end)
  }

  ghost predicate History(states: seq<Files>, builds: seq<Build>) {
    && |states| == |builds| + 1
    && states[0] == map[Key([]) := Flat([])]
    && forall k | 0 <= k < |builds| :: BuildStep(states[k], states[k + 1], builds[k])
  }

  lemma LastStep(states: seq<Files>, builds: seq<Build>)
    requires History(states, builds) && builds != []
    ensures var n := |builds| - 1;
            History(states[..n + 1], builds[..n]) && BuildStep(states[n], states[n + 1], builds[n])
  {
    var n := |builds| - 1;
    assert BuildStep(states[n], states[n + 1], builds[n]);
  }

  /** The store keeps its promise over every history. */
  lemma {:induction false} HistoryKeyed(states: seq<Files>, builds: seq<Build>)
    requires History(states, builds)
    ensures Keyed(states[|builds|])
  {
    if builds == [] {
      OnlyTheBase();
    } else {
      var n := |builds| - 1;
      LastStep(states, builds);
      HistoryKeyed(states[..n + 1], builds[..n]);
      match builds[n]
      case BakeOf(bakes, name, _, cut) => BakeKeepsKeyed(states[n], states[n + 1], bakes, name, cut);
      case NodeOf(variant, index, end) => NodeKeepsKeyed(states[n], states[n + 1], variant, index);
    }
  }

  lemma OnlyTheBase()
    ensures var files: Files := map[Key([]) := Flat([])];
            && Keyed(files)
            && (forall bakes | Nameable(bakes) && Key(bakes) in files :: bakes == [])
            && (forall v, i :: NodePath(v, i) !in files)
  {
    var files: Files := map[Key([]) := Flat([])];
    forall bakes | Nameable(bakes) && Key(bakes) in files ensures bakes == [] {
      KeyInjective(bakes, []);
    }
    forall v, i ensures NodePath(v, i) !in files {
      KeyIsNoOtherFile([], v, i);
    }
  }

  // ----- variants

  /**
   No build that went into this variant was cut off: the last that published it was not, nor
   was, at that time, the last that published the one it was baked on, and so on down.
   */
  predicate Clean(builds: seq<Build>, bakes: seq<string>)
    decreases |builds|
  {
    if builds == [] then bakes == []
    else
      var front, last := builds[..|builds| - 1], builds[|builds| - 1];
      if Publishes(last, bakes) then !last.cut && Clean(front, last.bakes) else Clean(front, bakes)
  }

  predicate Publishes(build: Build, bakes: seq<string>) {
    build.BakeOf? && build.published && build.bakes + [build.name] == bakes
  }

  /** What a variant holds, by the builds that went into it. */
  function Held(builds: seq<Build>, bakes: seq<string>): seq<Layer>
    decreases |builds|
  {
    if builds == [] then []
    else
      var front, last := builds[..|builds| - 1], builds[|builds| - 1];
      if Publishes(last, bakes) then Held(front, last.bakes) + [BakeLayer(last.name, last.cut)] else Held(front, bakes)
  }

  lemma {:induction false} VariantHolds(states: seq<Files>, builds: seq<Build>, bakes: seq<string>)
    requires History(states, builds) && Nameable(bakes) && Key(bakes) in states[|builds|]
    ensures states[|builds|][Key(bakes)] == Flat(Held(builds, bakes))
    decreases |builds|
  {
    if builds == [] {
      OnlyTheBase();
    } else {
      var n := |builds| - 1;
      LastStep(states, builds);
      if Publishes(builds[n], bakes) {
        HistoryKeyed(states[..n + 1], builds[..n]);
        PublishedOnPresent(states[n], states[n + 1], builds[n], bakes);
        VariantHolds(states[..n + 1], builds[..n], builds[n].bakes);
        LowerOfKeyed(states[n], builds[n].bakes, VariantName(bakes));
      } else {
        UnpublishedStays(states[n], states[n + 1], builds[n], bakes);
        VariantHolds(states[..n + 1], builds[..n], bakes);
      }
    }
  }

  lemma UnpublishedStays(before: Files, after: Files, build: Build, bakes: seq<string>)
    requires BuildStep(before, after, build) && Nameable(bakes) && !Publishes(build, bakes)
    ensures SameAt(before, after, Key(bakes))
  {
    match build
    case BakeOf(b, name, published, cut) =>
      if b + [name] != bakes {
        BakeKeepsOthers(before, after, b, name, cut, bakes);
      }
    case NodeOf(variant, index, end) => KeyIsNoOtherFile(bakes, variant, index);
  }

  /** What is published lies on a variant that was there. */
  lemma PublishedOnPresent(before: Files, after: Files, build: Build, bakes: seq<string>)
    requires BuildStep(before, after, build) && Publishes(build, bakes)
    ensures Nameable(build.bakes) && Key(build.bakes) in before
  {
    PartNameable(build.bakes, bakes);
  }

  lemma {:induction false} HeldIsWhole(builds: seq<Build>, bakes: seq<string>)
    ensures Held(builds, bakes) == Layers(bakes) <==> Clean(builds, bakes)
    decreases |builds|
  {
    if builds != [] {
      var front, last := builds[..|builds| - 1], builds[|builds| - 1];
      if Publishes(last, bakes) {
        HeldIsWhole(front, last.bakes);
        OneMoreBake(Held(front, last.bakes), last.bakes, last.name, last.cut);
      } else {
        HeldIsWhole(front, bakes);
      }
    }
  }

  /**
   Over every history of builds, finished or not: a variant on disk holds exactly the bakes its
   name spells, in order, if and only if no machine of its chain was killed while it ran.
   */
  lemma {:induction false} EveryVariantHoldsItsBakes(states: seq<Files>, builds: seq<Build>, bakes: seq<string>)
    requires History(states, builds)
    requires Nameable(bakes) && Key(bakes) in states[|builds|]
    ensures Contents(states[|builds|], Key(bakes)) == Some(Layers(bakes)) <==> Clean(builds, bakes)
  {
    VariantHolds(states, builds, bakes);
    HeldIsWhole(builds, bakes);
  }

  predicate NoneCut(builds: seq<Build>) {
    forall k | 0 <= k < |builds| && builds[k].BakeOf? :: !builds[k].cut
  }

  lemma {:induction false} UncutLayers(builds: seq<Build>, bakes: seq<string>)
    requires NoneCut(builds)
    ensures forall k | 0 <= k < |Held(builds, bakes)| :: Held(builds, bakes)[k].Baked?
    decreases |builds|
  {
    if builds != [] {
      var front, last := builds[..|builds| - 1], builds[|builds| - 1];
      UncutLayers(front, if Publishes(last, bakes) then last.bakes else bakes);
    }
  }

  /** In particular, where every machine powers off in time every variant is whole. */
  lemma {:induction false} UncutIsClean(states: seq<Files>, builds: seq<Build>, bakes: seq<string>)
    requires History(states, builds) && Nameable(bakes) && Key(bakes) in states[|builds|] && NoneCut(builds)
    ensures Clean(builds, bakes)
  {
    HistoryKeyed(states, builds);
    VariantHolds(states, builds, bakes);
    UncutLayers(builds, bakes);
    assert Spells(Held(builds, bakes), bakes);
    assert Held(builds, bakes) == Layers(bakes);
    HeldIsWhole(builds, bakes);
  }

  // ----- node images

  /** The last build that rewrote this node's image returned, and neither of its machines was cut off. */
  predicate LastIsGood(builds: seq<Build>, variant: string, index: nat) {
    if builds == [] then false
    else
      var front, last := builds[..|builds| - 1], builds[|builds| - 1];
      if last.NodeOf? && last.variant == variant && last.index == index && last.end.Rebuilt?
      then last.end.returned && !last.end.cut
      else LastIsGood(front, variant, index)
  }

  /** Over every history a node's image is complete exactly if the last build that rewrote it went well. */
  lemma {:induction false} NodeIsAsLastBuilt(states: seq<Files>, builds: seq<Build>, variant: string, index: nat)
    requires History(states, builds)
    ensures NodeComplete(states[|builds|], variant, index) <==> LastIsGood(builds, variant, index)
  {
    if builds == [] {
      OnlyTheBase();
    } else {
      var n := |builds| - 1;
      LastStep(states, builds);
      NodeIsAsLastBuilt(states[..n + 1], builds[..n], variant, index);
      match builds[n]
      case BakeOf(bakes, name, published, cut) =>
        BakeKeepsNodes(states[n], states[n], states[n + 1], bakes, name, cut);
        assert SameAt(states[n], states[n + 1], NodePath(variant, index));
      case NodeOf(v, i, end) =>
        if NodePath(v, i) == NodePath(variant, index) {
          NodePathInjective(v, i, variant, index);
        }
    }
  }

  /**
   What a node boots, over every history: its profiles' bakes in order under its own identity,
   exactly if nothing that went into the variant was cut off and the node's own last build went well.
   */
  lemma {:induction false} EveryNodeShowsItsBakes(states: seq<Files>, builds: seq<Build>, bakes: seq<string>, index: nat)
    requires History(states, builds) && Nameable(bakes)
    requires Key(bakes) in states[|builds|] && NodePath(VariantName(bakes), index) in states[|builds|]
    ensures Contents(states[|builds|], NodePath(VariantName(bakes), index)) == Some(Layers(bakes) + [Identity(index)]) <==>
            Clean(builds, bakes) && LastIsGood(builds, VariantName(bakes), index)
  {
    HistoryKeyed(states, builds);
    NodeShowsItsVariant(states[|builds|], bakes, index);
    NodeIsAsLastBuilt(states, builds, VariantName(bakes), index);
    VariantHolds(states, builds, bakes);
    HeldIsWhole(builds, bakes);
  }
}
