/**
  Layered filesystem (internal/image/layer/walker.go).

  An image is a stack of tar layers, bottom first. Walking it folds every tar entry
  into a map from path to the index of the layer that last wrote the path.
*/
module Layers {
  import opened Wrappers
  import opened Paths

  type Body = seq<bv8>

  datatype Kind = Regular | Directory | OtherKind

  datatype TarEntry = TarEntry(name: RawName, kind: Kind, body: Body)

  /** digest is None where the manifest gave none. */
  datatype Layer = Layer(digest: Option<string>, entries: seq<TarEntry>)

  datatype Info = Info(index: nat, digest: Option<string>)

  type Image = seq<Layer>

  type PathMap = map<Path, nat>

  // ----- What one tar entry asks for -----

  datatype Effect =
    | Ignore
    | Add(path: Path)
    | Remove(path: Path)  // "<dir>/.wh.<name>"
    | Evict(dir: Path)    // "<dir>/.wh..wh..opq"

  const OPAQUE_MARKER := ".wh..wh..opq"
  const WHITEOUT_PREFIX := ".wh."

  function EffectOf(entry: TarEntry): Effect {
    var name := NormalizePath(entry.name);
    if name == [] then Ignore
    else
      var base, dir := name[|name| - 1], name[..|name| - 1];
      if base == OPAQUE_MARKER then Evict(dir)
      else if WHITEOUT_PREFIX <= base then Remove(Clean(false, dir + [base[|WHITEOUT_PREFIX|..]]))
      else if entry.kind == Directory then Ignore
      else Add(name)
  }

  function Effects(entries: seq<TarEntry>): (es: seq<Effect>)
    ensures |es| == |entries|
    ensures forall k :: 0 <= k < |es| ==> es[k] == EffectOf(entries[k])
  {
    seq(|entries|, k requires 0 <= k < |entries| => EffectOf(entries[k]))
  }

  /** An opaque marker in the root has the prefix "./", which no canonical path starts with. */
  predicate Covers(dir: Path, p: Path) {
    dir != [] && dir < p
  }

  function Step(paths: PathMap, layer: nat, e: Effect): PathMap {
    match e
    case Ignore => paths
    case Add(p) => paths[p := layer]
    case Remove(p) => paths - {p}
    case Evict(dir) => map k | k in paths && !(paths[k] < layer && Covers(dir, k)) :: paths[k]
  }

  function ApplyLayer(paths: PathMap, layer: nat, es: seq<Effect>): PathMap {
    if es == [] then paths
    else Step(ApplyLayer(paths, layer, es[..|es| - 1]), layer, es[|es| - 1])
  }

  function WalkLayers(image: Image): PathMap {
    if image == [] then map[]
    else
      var top := |image| - 1;
      ApplyLayer(WalkLayers(image[..top]), top, Effects(image[top].entries))
  }

  // ----- The walker itself -----

  function Infos(image: Image): (infos: seq<Info>)
    ensures |infos| == |image|
  {
    seq(|image|, k requires 0 <= k < |image| => Info(k, image[k].digest))
  }

  class FileMap {
    var paths: PathMap
    const layers: seq<Info>

    constructor (layers: seq<Info>)
      ensures this.layers == layers && paths == map[]
    {
      this.layers := layers;
      paths := map[];
    }

    function Lookup(raw: RawName): Option<Info>
      reads this
    {
      var key := NormalizePath(raw);
      if key in paths && paths[key] < |layers| then Some(layers[paths[key]]) else None
    }

    method RemovePrefixFromPriorLayers(dir: Path, currentLayer: nat)
      modifies this
      ensures paths == Step(old(paths), currentLayer, Evict(dir))
    {
      var todo := paths.Keys;
      while todo != {}
        invariant todo <= old(paths).Keys
        invariant paths.Keys <= old(paths).Keys
        invariant forall k :: k in paths ==> paths[k] == old(paths)[k]
        invariant forall k :: k in todo ==> k in paths
        invariant forall k :: k in old(paths) && k !in todo ==>
          (k in paths <==> !(old(paths)[k] < currentLayer && Covers(dir, k)))
        decreases |todo|
      {
        var k :| k in todo;
        if paths[k] < currentLayer && Covers(dir, k) {
          paths := paths - {k};
        }
        todo := todo - {k};
      }
    }

    method WalkLayer(index: nat, layer: Layer)
      modifies this
      ensures paths == ApplyLayer(old(paths), index, Effects(layer.entries))
    {
      var es := Effects(layer.entries);
      var i := 0;
      while i < |layer.entries|
        invariant 0 <= i <= |es|
        invariant paths == ApplyLayer(old(paths), index, es[..i])
      {
        match EffectOf(layer.entries[i]) {
          case Ignore =>
          case Add(p) => paths := paths[p := index];
          case Remove(p) => paths := paths - {p};
          case Evict(dir) => RemovePrefixFromPriorLayers(dir, index);
        }
        assert es[..i + 1][..i] == es[..i];
        i := i + 1;
      }
      assert es[..i] == es;
    }
  }

  method Walk(image: Image) returns (fm: FileMap)
    ensures fresh(fm)
    ensures fm.layers == Infos(image) && fm.paths == WalkLayers(image)
  {
    fm := new FileMap(Infos(image));
    var i := 0;
    while i < |image|
      invariant 0 <= i <= |image|
      invariant fm.layers == Infos(image) && fm.paths == WalkLayers(image[..i])
    {
      fm.WalkLayer(i, image[i]);
      assert image[..i + 1][..i] == image[..i];
      i := i + 1;
    }
    assert image[..i] == image;
  }

  // ----- Closed form: who owns a path -----

  /** Some entry adds p and no later entry of the same layer removes it. */
  ghost predicate WritesLast(es: seq<Effect>, p: Path) {
    exists a :: 0 <= a < |es| && es[a] == Add(p) && forall b :: a < b < |es| ==> es[b] != Remove(p)
  }

  ghost predicate EvictsBelow(es: seq<Effect>, p: Path) {
    exists dir :: Evict(dir) in es && Covers(dir, p)
  }

  ghost predicate Untouched(es: seq<Effect>, p: Path) {
    Add(p) !in es && Remove(p) !in es && !EvictsBelow(es, p)
  }

  ghost predicate Owns(image: Image, i: nat, p: Path) {
    && i < |image|
    && WritesLast(Effects(image[i].entries), p)
    && forall j :: i < j < |image| ==> Untouched(Effects(image[j].entries), p)
  }

  lemma UntouchedSnoc(front: seq<Effect>, e: Effect, p: Path)
    ensures Untouched(front + [e], p) <==> Untouched(front, p) && Untouched([e], p)
  {
    var es := front + [e];
    hide Covers;
    if EvictsBelow(front, p) || EvictsBelow([e], p) {
      var dir :| (Evict(dir) in front || Evict(dir) in [e]) && Covers(dir, p);
      assert Evict(dir) in es;
    }
  }

  lemma {:induction false} ApplyLayerOnPath(paths: PathMap, layer: nat, es: seq<Effect>, p: Path)
    requires forall k :: k in paths ==> paths[k] < layer
    ensures var r := ApplyLayer(paths, layer, es);
      if WritesLast(es, p) then p in r && r[p] == layer
      else if Untouched(es, p) then (p in r <==> p in paths) && (p in r ==> r[p] == paths[p])
      else p !in r
  {
    if es != [] {
      var n := |es| - 1;
      var front, e := es[..n], es[n];
      ApplyLayerOnPath(paths, layer, front, p);
      assert es == front + [e];
      UntouchedSnoc(front, e, p);
      WritesLastSnoc(front, e, p);
      if e == Add(p) {
        assert WritesLast(es, p);
      } else {
        assert e.Evict? && Covers(e.dir, p) ==> EvictsBelow([e], p) by { assert e in [e]; }
        assert forall d :: Evict(d) in [e] ==> e == Evict(d);
      }
    }
  }

  lemma WritesLastSnoc(front: seq<Effect>, e: Effect, p: Path)
    ensures WritesLast(front + [e], p) <==> e == Add(p) || (WritesLast(front, p) && e != Remove(p))
  {
    var es := front + [e];
    if e == Add(p) {
      assert es[|front|] == Add(p);
    } else {
      assert es[|front|] == e;
      forall a | 0 <= a < |front|
        ensures (es[a] == Add(p) && forall b :: a < b < |es| ==> es[b] != Remove(p)) <==>
                (front[a] == Add(p) && (forall b :: a < b < |front| ==> front[b] != Remove(p)) && e != Remove(p))
      {
        assert forall b :: a < b < |front| ==> front[b] == es[b];
      }
    }
  }

  /** The map never points outside the image, so Lookup finds exactly the paths of the map. */
  lemma {:induction false} OwnersAreLayers(image: Image)
    ensures forall p :: p in WalkLayers(image) ==> p != [] && WalkLayers(image)[p] < |image|
  {
    if image != [] {
      var top := |image| - 1;
      var below := image[..top];
      var es := Effects(image[top].entries);
      OwnersAreLayers(below);
      forall p | p in WalkLayers(image) ensures p != [] && WalkLayers(image)[p] < |image| {
        ApplyLayerOnPath(WalkLayers(below), top, es, p);
      }
    }
  }

  lemma OwnsBelowTop(image: Image, i: nat, p: Path)
    requires i < |image| - 1
    ensures Owns(image, i, p) <==>
      Owns(image[..|image| - 1], i, p) && Untouched(Effects(image[|image| - 1].entries), p)
  {
    var below := image[..|image| - 1];
    assert forall j :: 0 <= j < |below| ==> below[j] == image[j];
  }

  /** Latest layer wins, for every image: p belongs to layer i exactly when i writes p last and no later layer touches p. */
  lemma {:induction false} OwnedByEffects(image: Image, p: Path, i: nat)
    ensures Owns(image, i, p) <==> p in WalkLayers(image) && WalkLayers(image)[p] == i
  {
    if image != [] {
      var top := |image| - 1;
      var below := image[..top];
      OwnersAreLayers(image);
      OwnersAreLayers(below);
      ApplyLayerOnPath(WalkLayers(below), top, Effects(image[top].entries), p);
      if i < top {
        OwnedByEffects(below, p, i);
        OwnsBelowTop(image, i, p);
      }
    }
  }

  // ----- Tar order inside a layer -----

  /** A layer that whites out a path it also adds. */
  ghost predicate WhitesOutOwnPath(es: seq<Effect>) {
    exists p :: Add(p) in es && Remove(p) in es
  }

  ghost predicate OrderIrrelevant(es: seq<Effect>) {
    forall other: seq<Effect>, paths: PathMap, layer: nat ::
      multiset(other) == multiset(es) && (forall k :: k in paths ==> paths[k] < layer) ==>
        ApplyLayer(paths, layer, other) == ApplyLayer(paths, layer, es)
  }

  lemma SameEffects(es: seq<Effect>, other: seq<Effect>)
    requires multiset(other) == multiset(es)
    ensures forall e :: e in es <==> e in other
  {
    forall e ensures e in es <==> e in other {
      assert e in es <==> e in multiset(es);
      assert e in other <==> e in multiset(other);
    }
  }

  lemma WritesLastWithoutConflict(es: seq<Effect>, p: Path)
    requires !(Add(p) in es && Remove(p) in es)
    ensures WritesLast(es, p) <==> Add(p) in es
  {
    if Add(p) in es {
      var a :| 0 <= a < |es| && es[a] == Add(p);
    }
  }

  lemma ConflictFreeLayersCommute(es: seq<Effect>, other: seq<Effect>, paths: PathMap, layer: nat)
    requires !WhitesOutOwnPath(es)
    requires multiset(other) == multiset(es)
    requires forall k :: k in paths ==> paths[k] < layer
    ensures ApplyLayer(paths, layer, other) == ApplyLayer(paths, layer, es)
  {
    var a, b := ApplyLayer(paths, layer, other), ApplyLayer(paths, layer, es);
    SameEffects(es, other);
    forall p
      ensures (p in a <==> p in b) && (p in a ==> a[p] == b[p])
    {
      ApplyLayerOnPath(paths, layer, es, p);
      ApplyLayerOnPath(paths, layer, other, p);
      WritesLastWithoutConflict(es, p);
      WritesLastWithoutConflict(other, p);
      assert EvictsBelow(es, p) <==> EvictsBelow(other, p);
    }
  }

  /** The entries of es with the one at index k moved to the end. */
  function MoveToEnd(es: seq<Effect>, k: nat): (r: seq<Effect>)
    requires k < |es|
    ensures multiset(r) == multiset(es)
  {
    assert es == es[..k] + [es[k]] + es[k + 1..];
    es[..k] + es[k + 1..] + [es[k]]
  }

  /** Tar order inside a layer is irrelevant exactly when the layer never whites out a path that it adds itself. */
  lemma OrderIrrelevantIffNoOwnWhiteout(es: seq<Effect>)
    ensures OrderIrrelevant(es) <==> !WhitesOutOwnPath(es)
  {
    if !WhitesOutOwnPath(es) {
      forall other: seq<Effect>, paths: PathMap, layer: nat |
        multiset(other) == multiset(es) && (forall k :: k in paths ==> paths[k] < layer)
        ensures ApplyLayer(paths, layer, other) == ApplyLayer(paths, layer, es)
      {
        ConflictFreeLayersCommute(es, other, paths, layer);
      }
    } else {
      var p :| Add(p) in es && Remove(p) in es;
      var a :| 0 <= a < |es| && es[a] == Add(p);
      var r :| 0 <= r < |es| && es[r] == Remove(p);
      var added, removed := MoveToEnd(es, a), MoveToEnd(es, r);
      assert p in ApplyLayer(map[], 0, added);
      assert p !in ApplyLayer(map[], 0, removed);
    }
  }

  // ----- The whiteout rules of the OCI image specification -----

  /** A whiteout hides its target with everything below it; an opaque marker hides all of its directory. */
  ghost predicate OciHides(es: seq<Effect>, p: Path) {
    || (exists t :: Remove(t) in es && t != [] && t <= p)
    || (exists dir :: Evict(dir) in es && dir < p)
  }

  /** Section "Whiteouts" of the OCI image-spec layer document: whiteouts reach lower layers only. */
  ghost predicate OciShows(paths: PathMap, layer: nat, es: seq<Effect>, p: Path, owner: nat) {
    if Add(p) in es then owner == layer
    else p in paths && owner == paths[p] && !OciHides(es, p)
  }

  ghost predicate FollowsOci(paths: PathMap, layer: nat, es: seq<Effect>) {
    forall p, owner: nat ::
      OciShows(paths, layer, es, p, owner) <==>
        p in ApplyLayer(paths, layer, es) && ApplyLayer(paths, layer, es)[p] == owner
  }

  /**
    The walker and the specification part ways exactly where a layer whites out its
    own last write of a path, or where a path survives below a whited-out directory
    or below an opaque marker in the root.
  */
  lemma FollowsOciIff(paths: PathMap, layer: nat, es: seq<Effect>)
    requires [] !in paths
    requires forall k :: k in paths ==> paths[k] < layer
    ensures FollowsOci(paths, layer, es) <==>
      && (forall p :: Add(p) in es ==> WritesLast(es, p))
      && (forall p :: p in paths && Untouched(es, p) ==> !OciHides(es, p))
  {
    var r := ApplyLayer(paths, layer, es);
    forall p
      ensures (forall owner: nat :: OciShows(paths, layer, es, p, owner) <==> p in r && r[p] == owner) <==>
        (Add(p) in es ==> WritesLast(es, p)) && (p in paths && Untouched(es, p) ==> !OciHides(es, p))
    {
      ApplyLayerOnPath(paths, layer, es, p);
      if p in paths && Remove(p) in es {
        assert OciHides(es, p);
      }
      if EvictsBelow(es, p) {
        assert OciHides(es, p);
      }
      assert OciShows(paths, layer, es, p, layer) <==> Add(p) in es;
      if p in paths {
        assert Add(p) !in es ==> (OciShows(paths, layer, es, p, paths[p]) <==> !OciHides(es, p));
      }
    }
  }
}
