/**
  Base-image classification: layer-prefix diff, content diff, and the layer
  attribution they depend on (internal/image/layer/diff.go,
  internal/enrich/basediff/enricher.go, internal/enrich/attribution/enricher.go).
*/
module BaseDiff {
  import opened Wrappers
  import opened Paths
  import opened Layers
  import opened Extract
  import opened ContentHash

  datatype Origin = Unset | BaseImage | Application | UnknownOrigin

  /**
    The fields that diffing reads and writes. locations are the evidence locations;
    syftPaths are the values of the syft:location:N:path properties, in the order in
    which the property map happens to be iterated.
  */
  datatype Component = Component(
    locations: seq<RawName>,
    syftPaths: seq<RawName>,
    layerInfo: Option<Info>,
    origin: Origin,
    matchedBasePath: Option<Path>,
    modified: bool)

  /** The raw name of the empty string. */
  const EMPTY: RawName := [""]

  function NonEmpty(names: seq<RawName>): (r: seq<RawName>)
    ensures forall n :: n in r <==> n in names && n != EMPTY
  {
    if names == [] then []
    else (if names[0] == EMPTY then [] else [names[0]]) + NonEmpty(names[1..])
  }

  function PathsForComponent(c: Component): seq<RawName> {
    NonEmpty(c.locations) + NonEmpty(c.syftPaths)
  }

  /** Exactly the non-empty names of the two lists. */
  lemma PathsAre(c: Component)
    ensures forall raw :: raw in PathsForComponent(c) <==> raw != [""] && (raw in c.locations || raw in c.syftPaths)
    ensures PathsForComponent(c) == [] <==> forall raw :: raw in c.locations || raw in c.syftPaths ==> raw == [""]
  {
    if PathsForComponent(c) != [] {
      var raw := PathsForComponent(c)[0];
      assert raw in PathsForComponent(c);
    }
  }

  lemma {:induction false} NothingEmpty(names: seq<RawName>)
    requires forall k :: 0 <= k < |names| ==> names[k] != [""]
    ensures NonEmpty(names) == names
  {
    if names != [] {
      assert names == [names[0]] + names[1..];
      NothingEmpty(names[1..]);
    }
  }

  lemma {:induction false} EmptyDrops(a: seq<RawName>, b: seq<RawName>)
    ensures NonEmpty(a + [[""]] + b) == NonEmpty(a + b)
  {
    if a == [] {
      assert [] + [[""]] + b == [[""]] + b && ([[""]] + b)[1..] == b && [] + b == b;
    } else {
      EmptyDrops(a[1..], b);
      assert (a + [[""]] + b)[1..] == a[1..] + [[""]] + b && (a + b)[1..] == a[1..] + b;
    }
  }

  /** The evidence locations come first, each list in its order; an empty name counts for nothing wherever it stands. */
  lemma PathsInOrder(c: Component, a: seq<RawName>, b: seq<RawName>)
    ensures [""] !in c.locations && [""] !in c.syftPaths ==> PathsForComponent(c) == c.locations + c.syftPaths
    ensures PathsForComponent(c.(locations := a + [[""]] + b)) == PathsForComponent(c.(locations := a + b))
    ensures PathsForComponent(c.(syftPaths := a + [[""]] + b)) == PathsForComponent(c.(syftPaths := a + b))
  {
    EmptyDrops(a, b);
    if [""] !in c.locations && [""] !in c.syftPaths {
      NothingEmpty(c.locations);
      NothingEmpty(c.syftPaths);
    }
  }

  // ----- Attribution -----

  /** The first location the file map knows decides. */
  function FirstKnown(locations: seq<RawName>, paths: PathMap): (p: Option<Path>)
    ensures p.Some? ==> p.value in paths
    ensures p.Some? ==>
      exists loc :: loc in locations && loc != EMPTY && NormalizePath(loc) == p.value
    ensures p.None? ==> forall loc :: loc in locations && loc != EMPTY ==> NormalizePath(loc) !in paths
  {
    if locations == [] then None
    else if locations[0] != EMPTY && NormalizePath(locations[0]) in paths then Some(NormalizePath(locations[0]))
    else FirstKnown(locations[1..], paths)
  }

  function Attributed(c: Component, image: Image): Component {
    if c.layerInfo.Some? then c
    else
      match FirstKnown(c.locations, WalkLayers(image))
      case None => c
      case Some(p) =>
        OwnersAreLayers(image);
        c.(layerInfo := Some(Infos(image)[WalkLayers(image)[p]]))
  }

  method Apply(c: Component, fm: FileMap, ghost image: Image) returns (r: Component)
    requires fm.paths == WalkLayers(image) && fm.layers == Infos(image)
    ensures r == Attributed(c, image)
  {
    if c.layerInfo.Some? || c.locations == [] {
      return c;
    }
    OwnersAreLayers(image);
    var i := 0;
    while i < |c.locations|
      invariant 0 <= i <= |c.locations|
      invariant FirstKnown(c.locations, fm.paths) == FirstKnown(c.locations[i..], fm.paths)
    {
      if c.locations[i] != EMPTY {
        var info := fm.Lookup(c.locations[i]);
        if info.Some? {
          return c.(layerInfo := info);
        }
      }
      i := i + 1;
    }
    return c;
  }

  /** The map knows one of the component's locations, and this is the first. */
  ghost predicate KnownFirst(c: Component, image: Image, i: nat) {
    && i < |c.locations| && c.locations[i] != [""] && NormalizePath(c.locations[i]) in WalkLayers(image)
    && forall k :: 0 <= k < i ==> c.locations[k] == [""] || NormalizePath(c.locations[k]) !in WalkLayers(image)
  }

  lemma {:induction false} FirstKnownIs(locations: seq<RawName>, paths: PathMap)
    ensures FirstKnown(locations, paths).Some? ==> exists i ::
      && 0 <= i < |locations| && locations[i] != [""] && NormalizePath(locations[i]) in paths
      && (forall k :: 0 <= k < i ==> locations[k] == [""] || NormalizePath(locations[k]) !in paths)
      && FirstKnown(locations, paths) == Some(NormalizePath(locations[i]))
  {
    hide NormalizePath;
    if locations != [] && (locations[0] == EMPTY || NormalizePath(locations[0]) !in paths) {
      FirstKnownIs(locations[1..], paths);
      if FirstKnown(locations, paths).Some? {
        var i :| && 0 <= i < |locations[1..]| && locations[1..][i] != [""] && NormalizePath(locations[1..][i]) in paths
                 && (forall k :: 0 <= k < i ==> locations[1..][k] == [""] || NormalizePath(locations[1..][k]) !in paths)
                 && FirstKnown(locations[1..], paths) == Some(NormalizePath(locations[1..][i]));
        forall k | 0 <= k < i + 1 ensures locations[k] == [""] || NormalizePath(locations[k]) !in paths {
          assert k > 0 ==> locations[k] == locations[1..][k - 1];
        }
        assert locations[i + 1] == locations[1..][i];
      }
    }
  }

  /** Attribution stamps the owner of the first known location, its index and its digest, and nothing else. */
  lemma AttributionIs(c: Component, image: Image)
    ensures var a := Attributed(c, image);
      && a == c.(layerInfo := a.layerInfo)
      && (c.layerInfo.Some? ==> a.layerInfo == c.layerInfo)
      && (c.layerInfo.None? ==> (a.layerInfo.Some? <==> exists i: nat :: KnownFirst(c, image, i)))
      && forall i: nat :: c.layerInfo.None? && KnownFirst(c, image, i) ==>
           var owner := WalkLayers(image)[NormalizePath(c.locations[i])];
           owner < |image| && a.layerInfo == Some(Info(owner, image[owner].digest))
  {
    OwnersAreLayers(image);
    FirstKnownIs(c.locations, WalkLayers(image));
    hide WalkLayers, NormalizePath;
    if c.layerInfo.None? {
      if FirstKnown(c.locations, WalkLayers(image)).Some? {
        var i :| && 0 <= i < |c.locations| && c.locations[i] != [""] && NormalizePath(c.locations[i]) in WalkLayers(image)
                 && (forall k :: 0 <= k < i ==> c.locations[k] == [""] || NormalizePath(c.locations[k]) !in WalkLayers(image))
                 && FirstKnown(c.locations, WalkLayers(image)) == Some(NormalizePath(c.locations[i]));
        assert KnownFirst(c, image, i);
        forall j: nat | KnownFirst(c, image, j) ensures j == i {
        }
      } else {
        forall i: nat ensures !KnownFirst(c, image, i) {
          if i < |c.locations| {
            assert c.locations[i] in c.locations;
          }
        }
      }
    }
  }

  // ----- Layer-prefix diff -----

  datatype Diff = Prefix(basePrefix: nat) | Fallback(basePaths: set<Path>)

  ghost predicate IsLayerPrefix(target: Image, base: Image) {
    && |base| <= |target|
    && forall i :: 0 <= i < |base| ==> base[i].digest.Some? && base[i].digest == target[i].digest
  }

  method LayerPrefix(target: Image, base: Image) returns (n: nat, ok: bool)
    ensures ok <==> IsLayerPrefix(target, base)
    ensures ok ==> n == |base|
  {
    if |base| == 0 {
      return 0, true;
    }
    if |target| < |base| {
      return 0, false;
    }
    var i := 0;
    while i < |base|
      invariant 0 <= i <= |base|
      invariant forall k :: 0 <= k < i ==> base[k].digest.Some? && base[k].digest == target[k].digest
    {
      if base[i].digest.None? || target[i].digest.None? || base[i].digest != target[i].digest {
        return 0, false;
      }
      i := i + 1;
    }
    return |base|, true;
  }

  ghost function DiffOf(target: Image, base: Image): Diff {
    if IsLayerPrefix(target, base) then Prefix(|base|) else Fallback(WalkLayers(base).Keys)
  }

  method ComputeDiff(target: Image, base: Image) returns (diff: Diff)
    ensures diff == DiffOf(target, base)
  {
    var n, ok := LayerPrefix(target, base);
    if ok {
      return Prefix(n);
    }
    var fm := Walk(base);
    return Fallback(fm.paths.Keys);
  }

  predicate IsBaseLayer(diff: Diff, index: nat) {
    diff.Prefix? && index < diff.basePrefix
  }

  predicate IsBasePath(diff: Diff, raw: RawName) {
    diff.Fallback? && NormalizePath(raw) in diff.basePaths
  }

  function OriginFor(c: Component, diff: Diff): Origin {
    match diff
    case Prefix(n) =>
      if c.layerInfo.None? then UnknownOrigin
      else if IsBaseLayer(diff, c.layerInfo.value.index) then BaseImage
      else Application
    case Fallback(_) =>
      if exists raw :: raw in PathsForComponent(c) && IsBasePath(diff, raw) then BaseImage else Application
  }

  // ----- Content diff -----

  /** What the base scan knows: the exact index and the set of indexed paths. */
  datatype BaseIndex = BaseIndex(exact: map<string, Evidence>, basePaths: set<Path>)

  predicate HashHit(raw: RawName, index: BaseIndex, targetHashes: map<Path, string>) {
    var key := NormalizePath(raw);
    key != [] && key in targetHashes && targetHashes[key] in index.exact
  }

  predicate PathHit(raw: RawName, index: BaseIndex) {
    var key := NormalizePath(raw);
    key != [] && key in index.basePaths
  }

  predicate ContentHit(raw: RawName, index: BaseIndex, targetHashes: map<Path, string>) {
    HashHit(raw, index, targetHashes) || PathHit(raw, index)
  }

  function ContentOrigin(names: seq<RawName>, index: BaseIndex, targetHashes: map<Path, string>): Origin {
    if names == [] then UnknownOrigin
    else if exists raw :: raw in names && (HashHit(raw, index, targetHashes) || PathHit(raw, index)) then BaseImage
    else Application
  }

  /**
    The verdict does not depend on the order of the paths. The first path with a hash hit records
    where the base keeps the bytes; "modified" is stamped only when no path has one.
  */
  method ClassifyComponent(c: Component, base: BaseSet, targetHashes: map<Path, string>) returns (r: Component)
    requires base.Valid()
    ensures var names, index := PathsForComponent(c), BaseIndex(base.exact, base.basePaths);
      && (r.origin == BaseImage <==>
          exists raw :: raw != [""] && (raw in c.locations || raw in c.syftPaths) && ContentHit(raw, index, targetHashes))
      && (r.origin == UnknownOrigin <==> forall raw :: raw in c.locations || raw in c.syftPaths ==> raw == [""])
      && r.origin in {BaseImage, UnknownOrigin, Application}
      && r.origin == ContentOrigin(names, index, targetHashes)
      && (if exists raw :: raw in names && HashHit(raw, index, targetHashes)
          then exists i ::
            && 0 <= i < |names| && HashHit(names[i], index, targetHashes)
            && (forall k :: 0 <= k < i ==> !HashHit(names[k], index, targetHashes))
            && r == c.(origin := BaseImage,
                       matchedBasePath := Some(base.exact[targetHashes[NormalizePath(names[i])]].basePath))
          else r == c.(origin := r.origin, modified := c.modified || r.origin == BaseImage))
  {
    hide NormalizePath, PathsForComponent;
    PathsAre(c);
    var names := PathsForComponent(c);
    if |names| == 0 {
      return c.(origin := UnknownOrigin);
    }
    ghost var index := BaseIndex(base.exact, base.basePaths);
    var pathInBase := false;
    var i := 0;
    while i < |names|
      invariant 0 <= i <= |names|
      invariant forall k :: 0 <= k < i ==> !HashHit(names[k], index, targetHashes)
      invariant pathInBase <==> exists k :: 0 <= k < i && PathHit(names[k], index)
    {
      var key := NormalizePath(names[i]);
      if key != [] {
        if key in targetHashes {
          var evidence := base.Contains(targetHashes[key]);
          if evidence.Some? {
            assert names[i] in names && HashHit(names[i], index, targetHashes) && ContentHit(names[i], index, targetHashes);
            return c.(origin := BaseImage, matchedBasePath := Some(evidence.value.basePath));
          }
        }
        if base.HasPath(key) {
          assert PathHit(names[i], index);
          pathInBase := true;
        }
      }
      i := i + 1;
    }
    if pathInBase {
      ghost var k :| 0 <= k < i && PathHit(names[k], index);
      assert names[k] in names && ContentHit(names[k], index, targetHashes);
      return c.(origin := BaseImage, modified := true);
    }
    return c.(origin := Application);
  }

  // ----- The two strategies agree -----

  ghost function IndexOf(base: Image, hash: Hasher): BaseIndex {
    var adds := Additions(Deliveries(base), hash);
    BaseIndex(FirstWins(adds), PathsAdded(adds))
  }

  /** The content verdict on c, from the two scans. */
  ghost function ContentVerdict(c: Component, target: Image, base: Image, hash: Hasher): Origin {
    ContentOrigin(PathsForComponent(c), IndexOf(base, hash), TargetHashes(Deliveries(target), hash))
  }

  /** Layers with the same digest have the same tar. */
  ghost predicate DigestsIdentify(target: Image, base: Image) {
    forall i :: 0 <= i < |base| && i < |target| && base[i].digest.Some? && base[i].digest == target[i].digest ==>
      base[i].entries == target[i].entries
  }

  /**
    A path whose owner in the target is a base layer is visible in the base with the
    same owner; a path of the base loses its owner only to a later target layer that touches it.
  */
  lemma OwnersCarryOver(target: Image, base: Image, p: Path)
    requires IsLayerPrefix(target, base) && DigestsIdentify(target, base)
    ensures forall i: nat :: i < |base| ==>
      (Owns(target, i, p) <==>
       Owns(base, i, p) && forall j :: |base| <= j < |target| ==> Untouched(Effects(target[j].entries), p))
    ensures p in WalkLayers(target) && WalkLayers(target)[p] < |base| ==>
      p in WalkLayers(base) && WalkLayers(base)[p] == WalkLayers(target)[p]
  {
    assert forall i :: 0 <= i < |base| ==> Effects(base[i].entries) == Effects(target[i].entries);
    if p in WalkLayers(target) && WalkLayers(target)[p] < |base| {
      OwnedByEffects(target, p, WalkLayers(target)[p]);
      OwnedByEffects(base, p, WalkLayers(target)[p]);
    }
  }

  /** Both images deliver the same bodies for a path that a base layer owns in the target. */
  lemma SameBodies(target: Image, base: Image, p: Path)
    requires IsLayerPrefix(target, base) && DigestsIdentify(target, base)
    requires p in WalkLayers(target) && WalkLayers(target)[p] < |base|
    ensures p != [] && BodiesFor(Deliveries(base), p) == BodiesFor(Deliveries(target), p)
    ensures BodiesFor(Deliveries(target), p) == RegularBodies(base[WalkLayers(target)[p]].entries, p)
  {
    OwnersAreLayers(target);
    OwnersAreLayers(base);
    OwnersCarryOver(target, base, p);
    DeliversOwnersContent(target, p);
    DeliversOwnersContent(base, p);
  }

  /** On a path owned by a base layer, both content tests amount to one: the owner lists a readable regular file there. */
  lemma BaseOwnedPathHits(target: Image, base: Image, hash: Hasher, raw: RawName)
    requires IsLayerPrefix(target, base) && DigestsIdentify(target, base)
    requires var p := NormalizePath(raw); p in WalkLayers(target) && WalkLayers(target)[p] < |base|
    ensures var p := NormalizePath(raw);
      var regular := LastHash(RegularBodies(base[WalkLayers(target)[p]].entries, p), hash).Some?;
      && (HashHit(raw, IndexOf(base, hash), TargetHashes(Deliveries(target), hash)) <==> regular)
      && (PathHit(raw, IndexOf(base, hash)) <==> regular)
      && (p in TargetHashes(Deliveries(target), hash) <==> regular)
  {
    var p := NormalizePath(raw);
    SameBodies(target, base, p);
    TargetHashesByPath(Deliveries(target), hash, p);
    BaseIndexByPath(base, hash, p);
  }

  /**
    The prefix diff never says "base" where the content diff says otherwise, for a component
    whose layer was stamped by attribution from a location that the target scan hashed.
  */
  lemma PrefixBaseImpliesContentBase(c: Component, target: Image, base: Image, hash: Hasher)
    requires IsLayerPrefix(target, base) && DigestsIdentify(target, base)
    requires c.layerInfo.None? && FirstKnown(c.locations, WalkLayers(target)).Some?
    requires FirstKnown(c.locations, WalkLayers(target)).value in TargetHashes(Deliveries(target), hash)
    requires OriginFor(Attributed(c, target), DiffOf(target, base)) == BaseImage
    ensures ContentVerdict(Attributed(c, target), target, base, hash) == BaseImage
  {
    OwnersAreLayers(target);
    var p := FirstKnown(c.locations, WalkLayers(target)).value;
    var raw :| raw in c.locations && raw != EMPTY && NormalizePath(raw) == p;
    BaseOwnedPathHits(target, base, hash, raw);
    assert raw in PathsForComponent(Attributed(c, target));
  }

  // ----- Exactly when the content diff says base -----

  /** The image delivers a readable body with this hash somewhere. */
  ghost predicate DeliversHash(image: Image, hash: Hasher, hex: string) {
    exists f :: f in Deliveries(image) && hash(f.body).Some? && hash(f.body).value.hex == hex
  }

  /** The base has a readable body at the path, or has the target's bytes of that path anywhere. */
  ghost predicate InBaseContent(p: Path, target: Image, base: Image, hash: Hasher) {
    var there, here := LastHash(BodiesFor(Deliveries(base), p), hash), LastHash(BodiesFor(Deliveries(target), p), hash);
    p != [] && (there.Some? || (here.Some? && DeliversHash(base, hash, here.value)))
  }

  lemma {:induction false} AdditionsAreDelivered(files: seq<FileEntry>, hash: Hasher, hex: string)
    ensures (exists a :: a in Additions(files, hash) && a.hex == hex) <==>
      exists f :: f in files && hash(f.body).Some? && hash(f.body).value.hex == hex
  {
    if files != [] {
      var front, last := files[..|files| - 1], files[|files| - 1];
      assert files == front + [last];
      AdditionsAreDelivered(front, hash, hex);
      if hash(last.body).Some? {
        var a := AdditionFor(last, hash(last.body).value);
        assert Additions(files, hash) == Additions(front, hash) + [a];
        assert a.hex == hash(last.body).value.hex;
      } else {
        assert Additions(files, hash) == Additions(front, hash);
      }
    }
  }

  lemma HitIff(raw: RawName, target: Image, base: Image, hash: Hasher)
    ensures HashHit(raw, IndexOf(base, hash), TargetHashes(Deliveries(target), hash)) || PathHit(raw, IndexOf(base, hash)) <==>
      InBaseContent(NormalizePath(raw), target, base, hash)
  {
    hide NormalizePath, Deliveries, LastHash, BodiesFor, Additions, FirstWins, PathsAdded, TargetHashes;
    var p, adds := NormalizePath(raw), Additions(Deliveries(base), hash);
    if p != [] {
      TargetHashesByPath(Deliveries(target), hash, p);
      BaseIndexByPath(base, hash, p);
      FirstWinsHasEveryHash(adds);
      var here := LastHash(BodiesFor(Deliveries(target), p), hash);
      if here.Some? {
        AdditionsAreDelivered(Deliveries(base), hash, here.value);
      }
    }
  }

  /** For any component: some non-empty location or syft path of it has content of the base. */
  ghost predicate HasBaseContent(c: Component, target: Image, base: Image, hash: Hasher) {
    exists raw :: raw != [""] && (raw in c.locations || raw in c.syftPaths) && InBaseContent(NormalizePath(raw), target, base, hash)
  }

  lemma ContentVerdictIff(c: Component, target: Image, base: Image, hash: Hasher)
    ensures ContentVerdict(c, target, base, hash) == BaseImage <==> HasBaseContent(c, target, base, hash)
    ensures ContentVerdict(c, target, base, hash) == UnknownOrigin <==>
      forall raw :: raw in c.locations || raw in c.syftPaths ==> raw == [""]
    ensures ContentVerdict(c, target, base, hash) in {BaseImage, UnknownOrigin, Application}
  {
    PathsAre(c);
    hide NormalizePath, InBaseContent, HashHit, PathHit, PathsForComponent, TargetHashes, IndexOf;
    forall raw | raw in PathsForComponent(c)
      ensures HashHit(raw, IndexOf(base, hash), TargetHashes(Deliveries(target), hash)) || PathHit(raw, IndexOf(base, hash)) <==>
        InBaseContent(NormalizePath(raw), target, base, hash)
    {
      HitIff(raw, target, base, hash);
    }
  }

  /** Without the base's layers in front, a visible path of the base at any non-empty location or syft path decides. */
  lemma FallbackVerdictIff(c: Component, target: Image, base: Image)
    requires !IsLayerPrefix(target, base)
    ensures OriginFor(c, DiffOf(target, base)) == BaseImage <==>
      exists raw :: raw != [""] && (raw in c.locations || raw in c.syftPaths) && NormalizePath(raw) in WalkLayers(base)
    ensures OriginFor(c, DiffOf(target, base)) in {BaseImage, Application}
  {
    PathsAre(c);
    hide NormalizePath, PathsForComponent, WalkLayers;
    var diff := DiffOf(target, base);
    forall raw ensures IsBasePath(diff, raw) <==> NormalizePath(raw) in WalkLayers(base) {
    }
  }

  /** With them in front, the layer index alone decides. */
  lemma PrefixVerdictIff(c: Component, target: Image, base: Image)
    requires IsLayerPrefix(target, base)
    ensures OriginFor(c, DiffOf(target, base)) == BaseImage <==> c.layerInfo.Some? && c.layerInfo.value.index < |base|
    ensures OriginFor(c, DiffOf(target, base)) == UnknownOrigin <==> c.layerInfo.None?
    ensures OriginFor(c, DiffOf(target, base)) in {BaseImage, Application, UnknownOrigin}
  {
  }

  /**
    The prefix diff says "base" where the content diff says otherwise exactly when the component's layer
    lies below the prefix and none of its paths has content of the base.
  */
  lemma DisagreementIff(c: Component, target: Image, base: Image, hash: Hasher)
    requires IsLayerPrefix(target, base)
    ensures var a := Attributed(c, target);
      OriginFor(a, DiffOf(target, base)) == BaseImage && ContentVerdict(a, target, base, hash) != BaseImage <==>
      a.layerInfo.Some? && a.layerInfo.value.index < |base| && !HasBaseContent(c, target, base, hash)
  {
    hide NormalizePath, InBaseContent, PathsForComponent, ContentVerdict, WalkLayers;
    AttributionIs(c, target);
    ContentVerdictIff(Attributed(c, target), target, base, hash);
    SameContent(c, Attributed(c, target), target, base, hash);
  }

  lemma SameContent(c: Component, d: Component, target: Image, base: Image, hash: Hasher)
    requires c.locations == d.locations && c.syftPaths == d.syftPaths
    ensures HasBaseContent(c, target, base, hash) == HasBaseContent(d, target, base, hash)
  {
    hide NormalizePath, InBaseContent;
  }

  /**
    Exactly when the strategies agree on a component with one path: its owner must list a
    readable regular file there. A symbolic link, a hard link or an unreadable body breaks it.
  */
  lemma SinglePathAgreement(c: Component, p: Path, target: Image, base: Image, hash: Hasher)
    requires IsLayerPrefix(target, base) && DigestsIdentify(target, base)
    requires |c.locations| == 1 && c.locations[0] != EMPTY && c.syftPaths == [] && c.layerInfo.None?
    requires p == NormalizePath(c.locations[0])
    requires OriginFor(Attributed(c, target), DiffOf(target, base)) == BaseImage
    ensures p in WalkLayers(target) && WalkLayers(target)[p] < |target|
    ensures ContentVerdict(Attributed(c, target), target, base, hash) == BaseImage <==>
      LastHash(RegularBodies(target[WalkLayers(target)[p]].entries, p), hash).Some?
  {
    OwnersAreLayers(target);
    SinglePath(c, target);
    BaseOwnedPathHits(target, base, hash, c.locations[0]);
  }

  lemma SinglePath(c: Component, image: Image)
    requires |c.locations| == 1 && c.locations[0] != EMPTY && c.syftPaths == [] && c.layerInfo.None?
    ensures PathsForComponent(Attributed(c, image)) == c.locations
    ensures forall raw :: raw in c.locations <==> raw == c.locations[0]
    ensures var p := NormalizePath(c.locations[0]);
      if p in WalkLayers(image)
      then WalkLayers(image)[p] < |image| &&
           Attributed(c, image).layerInfo == Some(Info(WalkLayers(image)[p], image[WalkLayers(image)[p]].digest))
      else Attributed(c, image) == c
  {
    hide NormalizePath, WalkLayers;
    OwnersAreLayers(image);
    var raw := c.locations[0];
    assert c.locations == [raw];
    assert NonEmpty([]) == [];
    assert NonEmpty([raw]) == [raw] + NonEmpty([]);
    assert FirstKnown([raw], WalkLayers(image)) ==
      if NormalizePath(raw) in WalkLayers(image) then Some(NormalizePath(raw)) else None;
  }

  /** A component on a symbolic link of the base: the prefix diff says base, the content diff says application. */
  lemma SymlinkDisagreement(hash: Hasher)
    ensures
      var image := [Layer(Some("sha256:1"), [TarEntry(["bin", "sh"], OtherKind, [])])];
      var c := Component([["bin", "sh"]], [], None, Unset, None, false);
      && OriginFor(Attributed(c, image), DiffOf(image, image)) == BaseImage
      && ContentVerdict(Attributed(c, image), image, image, hash) == Application
  {
    var raw := ["bin", "sh"];
    var entry := TarEntry(raw, OtherKind, []);
    var image := [Layer(Some("sha256:1"), [entry])];
    var c := Component([raw], [], None, Unset, None, false);
    assert Canonical(raw);
    CanonicalIsFixed(raw);
    assert EffectOf(entry) == Add(raw);
    var es := Effects(image[0].entries);
    assert es[0] == Add(raw);
    assert WritesLast(es, raw);
    assert Owns(image, 0, raw);
    OwnedByEffects(image, raw, 0);
    assert FirstKnown(c.locations, WalkLayers(image)) == Some(raw);
    assert RegularBodies([entry], raw) == [];
    SinglePathAgreement(c, raw, image, image, hash);
    SinglePath(c, image);
  }

  /** A content verdict of "base" without any hash hit is also the path fallback's verdict. */
  lemma FallbackCoversModified(c: Component, target: Image, base: Image, hash: Hasher)
    requires ContentVerdict(c, target, base, hash) == BaseImage
    requires forall raw :: raw in PathsForComponent(c) ==>
      !HashHit(raw, IndexOf(base, hash), TargetHashes(Deliveries(target), hash))
    ensures OriginFor(c, Fallback(WalkLayers(base).Keys)) == BaseImage
  {
    hide NormalizePath, PathsForComponent, TargetHashes, Deliveries, WalkLayers, LastHash, Additions, FirstWins, PathsAdded, HashHit, BodiesFor;
    var raw :| raw in PathsForComponent(c) && PathHit(raw, IndexOf(base, hash));
    var p := NormalizePath(raw);
    BaseIndexByPath(base, hash, p);
    DeliversOwnersContent(base, p);
    NoHash(hash);
    assert IsBasePath(Fallback(WalkLayers(base).Keys), raw);
  }
}
