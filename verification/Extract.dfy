/**
  Re-streaming an image through its file map (internal/image/layer/extract.go).

  The visitor is a function on the state it carries; what it answers decides whether
  the walk goes on.
*/
module Extract {
  import opened Wrappers
  import opened Paths
  import opened Layers

  datatype FileEntry = FileEntry(path: Path, layer: Info, body: Body)

  datatype Verdict = Continue | SkipFile | Halt

  type Visitor<!S> = (S, FileEntry) -> (S, Verdict)

  datatype Outcome<S> = Outcome(state: S, halted: bool)

  // ----- What the visitor is shown -----

  predicate Delivered(paths: PathMap, index: nat, entry: TarEntry) {
    var name := NormalizePath(entry.name);
    entry.kind == Regular && name != [] && name in paths && paths[name] == index
  }

  function LayerDeliveries(paths: PathMap, index: nat, digest: Option<string>, entries: seq<TarEntry>): seq<FileEntry> {
    if entries == [] then []
    else
      var last := entries[|entries| - 1];
      LayerDeliveries(paths, index, digest, entries[..|entries| - 1]) +
      if Delivered(paths, index, last)
      then [FileEntry(NormalizePath(last.name), Info(index, digest), last.body)]
      else []
  }

  function DeliveriesBelow(paths: PathMap, image: Image, n: nat): seq<FileEntry>
    requires n <= |image|
  {
    if n == 0 then []
    else DeliveriesBelow(paths, image, n - 1) +
         LayerDeliveries(paths, n - 1, image[n - 1].digest, image[n - 1].entries)
  }

  function Deliveries(image: Image): seq<FileEntry> {
    DeliveriesBelow(WalkLayers(image), image, |image|)
  }

  /** Showing the files to the visitor one by one until it halts. */
  function Visit<S>(start: S, files: seq<FileEntry>, visitor: Visitor<S>): Outcome<S> {
    if files == [] then Outcome(start, false)
    else
      var before := Visit(start, files[..|files| - 1], visitor);
      if before.halted then before
      else
        var (state, verdict) := visitor(before.state, files[|files| - 1]);
        Outcome(state, verdict == Halt)
  }

  lemma {:induction false} VisitConcat<S>(start: S, first: seq<FileEntry>, second: seq<FileEntry>, visitor: Visitor<S>)
    ensures var after := Visit(start, first, visitor);
      Visit(start, first + second, visitor) ==
      if after.halted then after else Visit(after.state, second, visitor)
  {
    if second == [] {
      assert first + second == first;
    } else {
      var front := second[..|second| - 1];
      assert (first + second)[..|first + second| - 1] == first + front;
      VisitConcat(start, first, front, visitor);
    }
  }

  // ----- The streaming loops -----

  method StreamLayer<S>(index: nat, layer: Layer, fm: FileMap, start: S, visitor: Visitor<S>)
    returns (state: S, halted: bool)
    requires index < |fm.layers| && fm.layers[index] == Info(index, layer.digest)
    requires forall k :: 0 <= k < |fm.layers| ==> fm.layers[k].index == k
    requires forall p :: p in fm.paths ==> fm.paths[p] < |fm.layers|
    requires forall p :: p in fm.paths ==> Canonical(p)
    ensures Outcome(state, halted) ==
      Visit(start, LayerDeliveries(fm.paths, index, layer.digest, layer.entries), visitor)
  {
    state, halted := start, false;
    var i := 0;
    while i < |layer.entries| && !halted
      invariant 0 <= i <= |layer.entries|
      invariant Outcome(state, halted) ==
        Visit(start, LayerDeliveries(fm.paths, index, layer.digest, layer.entries[..i]), visitor)
      decreases |layer.entries| - i, !halted
    {
      var entry := layer.entries[i];
      var path := NormalizePath(entry.name);
      NormalizePathIsIdempotent(entry.name);
      StreamOneMore(fm.paths, index, layer, i, start, visitor);
      i := i + 1;
      if entry.kind == Regular && path != [] {
        var owner := fm.Lookup(path);
        if owner.Some? && owner.value.index == index {
          var file := FileEntry(path, owner.value, entry.body);
          var (next, verdict) := visitor(state, file);
          state, halted := next, verdict == Halt;
        }
      }
    }
    if halted {
      HaltedStaysHalted(fm.paths, index, layer, i, start, visitor);
    }
    assert layer.entries[..|layer.entries|] == layer.entries;
  }

  lemma StreamOneMore<S>(paths: PathMap, index: nat, layer: Layer, i: nat, start: S, visitor: Visitor<S>)
    requires i < |layer.entries|
    ensures var entry := layer.entries[i];
      var before := Visit(start, LayerDeliveries(paths, index, layer.digest, layer.entries[..i]), visitor);
      Visit(start, LayerDeliveries(paths, index, layer.digest, layer.entries[..i + 1]), visitor) ==
      if before.halted || !Delivered(paths, index, entry) then before
      else
        var (state, verdict) :=
          visitor(before.state, FileEntry(NormalizePath(entry.name), Info(index, layer.digest), entry.body));
        Outcome(state, verdict == Halt)
  {
    hide NormalizePath, Delivered;
    var entry := layer.entries[i];
    assert layer.entries[..i + 1][..i] == layer.entries[..i];
    var shown := LayerDeliveries(paths, index, layer.digest, layer.entries[..i]);
    var file := FileEntry(NormalizePath(entry.name), Info(index, layer.digest), entry.body);
    assert LayerDeliveries(paths, index, layer.digest, layer.entries[..i + 1]) ==
      if Delivered(paths, index, entry) then shown + [file] else shown;
    assert (shown + [file])[..|shown|] == shown;
  }

  lemma HaltedStaysHalted<S>(paths: PathMap, index: nat, layer: Layer, i: nat, start: S, visitor: Visitor<S>)
    requires i <= |layer.entries|
    requires Visit(start, LayerDeliveries(paths, index, layer.digest, layer.entries[..i]), visitor).halted
    ensures Visit(start, LayerDeliveries(paths, index, layer.digest, layer.entries), visitor) ==
      Visit(start, LayerDeliveries(paths, index, layer.digest, layer.entries[..i]), visitor)
    decreases |layer.entries| - i
  {
    if i < |layer.entries| {
      StreamOneMore(paths, index, layer, i, start, visitor);
      HaltedStaysHalted(paths, index, layer, i + 1, start, visitor);
    } else {
      assert layer.entries[..i] == layer.entries;
    }
  }

  method WalkFiles<S>(image: Image, start: S, visitor: Visitor<S>) returns (state: S, halted: bool)
    ensures Outcome(state, halted) == Visit(start, Deliveries(image), visitor)
  {
    hide Visit, LayerDeliveries, WalkLayers, Canonical;
    var fm := Walk(image);
    OwnersAreLayers(image);
    OwnedPathsAreCanonical(image);
    state, halted := start, false;
    NothingVisited(start, visitor);
    var i := 0;
    while i < |image| && !halted
      invariant 0 <= i <= |image|
      invariant fm.paths == WalkLayers(image)
      invariant Outcome(state, halted) == Visit(start, DeliveriesBelow(fm.paths, image, i), visitor)
      decreases |image| - i, !halted
    {
      VisitConcat(start, DeliveriesBelow(fm.paths, image, i),
        LayerDeliveries(fm.paths, i, image[i].digest, image[i].entries), visitor);
      state, halted := StreamLayer(i, image[i], fm, state, visitor);
      i := i + 1;
    }
    if halted {
      HaltedWalk(fm.paths, image, i, start, visitor);
    }
  }

  lemma NothingVisited<S>(start: S, visitor: Visitor<S>)
    ensures Visit(start, [], visitor) == Outcome(start, false)
  {
  }

  lemma HaltedWalk<S>(paths: PathMap, image: Image, i: nat, start: S, visitor: Visitor<S>)
    requires i <= |image|
    requires Visit(start, DeliveriesBelow(paths, image, i), visitor).halted
    ensures Visit(start, DeliveriesBelow(paths, image, |image|), visitor) ==
      Visit(start, DeliveriesBelow(paths, image, i), visitor)
    decreases |image| - i
  {
    if i < |image| {
      VisitConcat(start, DeliveriesBelow(paths, image, i),
        LayerDeliveries(paths, i, image[i].digest, image[i].entries), visitor);
      HaltedWalk(paths, image, i + 1, start, visitor);
    }
  }

  lemma {:induction false} OwnedPathsAreCanonical(image: Image)
    ensures forall p :: p in WalkLayers(image) ==> Canonical(p)
  {
    forall p | p in WalkLayers(image) ensures Canonical(p) {
      AddedBy(image, p);
    }
  }

  /** A path of the map was added by its owner's tar, under a name that is no whiteout marker. */
  lemma AddedBy(image: Image, p: Path)
    requires p in WalkLayers(image)
    ensures Canonical(p) && p != [] && !(WHITEOUT_PREFIX <= p[|p| - 1])
  {
    hide NormalizePath, WalkLayers, Untouched;
    OwnersAreLayers(image);
    OwnedByEffects(image, p, WalkLayers(image)[p]);
    var entries := image[WalkLayers(image)[p]].entries;
    var es := Effects(entries);
    var a :| 0 <= a < |es| && es[a] == Add(p);
    NormalizePathIsIdempotent(entries[a].name);
    assert WHITEOUT_PREFIX <= OPAQUE_MARKER;
  }

  // ----- What is delivered -----

  function BodiesFor(files: seq<FileEntry>, p: Path): seq<Body> {
    if files == [] then []
    else
      var last := files[|files| - 1];
      BodiesFor(files[..|files| - 1], p) + if last.path == p then [last.body] else []
  }

  /** The regular entries that a tar lists under the name p, in tar order. */
  function RegularBodies(entries: seq<TarEntry>, p: Path): seq<Body> {
    if entries == [] then []
    else
      var last := entries[|entries| - 1];
      RegularBodies(entries[..|entries| - 1], p) +
      if last.kind == Regular && NormalizePath(last.name) == p then [last.body] else []
  }

  lemma {:induction false} BodiesForConcat(first: seq<FileEntry>, second: seq<FileEntry>, p: Path)
    ensures BodiesFor(first + second, p) == BodiesFor(first, p) + BodiesFor(second, p)
  {
    if second == [] {
      assert first + second == first;
    } else {
      var front := second[..|second| - 1];
      assert (first + second)[..|first + second| - 1] == first + front;
      BodiesForConcat(first, front, p);
    }
  }

  lemma OneMoreFile(files: seq<FileEntry>, file: FileEntry, p: Path)
    ensures BodiesFor(files + [file], p) == BodiesFor(files, p) + if file.path == p then [file.body] else []
  {
    assert (files + [file])[..|files|] == files;
  }

  lemma {:induction false} LayerDeliversOwned(paths: PathMap, index: nat, digest: Option<string>, entries: seq<TarEntry>, p: Path)
    requires p != []
    ensures BodiesFor(LayerDeliveries(paths, index, digest, entries), p) ==
      if p in paths && paths[p] == index then RegularBodies(entries, p) else []
  {
    if entries != [] {
      var front, last := entries[..|entries| - 1], entries[|entries| - 1];
      var before := LayerDeliveries(paths, index, digest, front);
      LayerDeliversOwned(paths, index, digest, front, p);
      hide NormalizePath;
      if Delivered(paths, index, last) {
        var file := FileEntry(NormalizePath(last.name), Info(index, digest), last.body);
        assert LayerDeliveries(paths, index, digest, entries) == before + [file];
        OneMoreFile(before, file, p);
      } else {
        assert LayerDeliveries(paths, index, digest, entries) == before;
      }
    }
  }

  lemma NoBodies(p: Path)
    ensures BodiesFor([], p) == []
  {
  }

  lemma {:induction false} DeliversOwnedBelow(paths: PathMap, image: Image, n: nat, p: Path)
    requires n <= |image| && p != []
    ensures BodiesFor(DeliveriesBelow(paths, image, n), p) ==
      if p in paths && paths[p] < n then RegularBodies(image[paths[p]].entries, p) else []
  {
    NoBodies(p);
    hide NormalizePath, RegularBodies, LayerDeliveries, BodiesFor;
    if n > 0 {
      var below := DeliveriesBelow(paths, image, n - 1);
      var top := LayerDeliveries(paths, n - 1, image[n - 1].digest, image[n - 1].entries);
      BodiesForConcat(below, top, p);
      DeliversOwnedBelow(paths, image, n - 1, p);
      LayerDeliversOwned(paths, n - 1, image[n - 1].digest, image[n - 1].entries, p);
      if p in paths && paths[p] == n - 1 {
        assert BodiesFor(below, p) == [];
      } else {
        assert BodiesFor(top, p) == [];
      }
    }
  }

  /**
    For every image and path, the visitor sees exactly the regular entries that the
    owning layer lists under that path, in tar order, and nothing for a hidden path;
    a path is delivered once when its owner lists it once.
  */
  lemma DeliversOwnersContent(image: Image, p: Path)
    requires p != []
    ensures BodiesFor(Deliveries(image), p) ==
      if p in WalkLayers(image) then
        OwnersAreLayers(image);
        RegularBodies(image[WalkLayers(image)[p]].entries, p)
      else []
  {
    OwnersAreLayers(image);
    DeliversOwnedBelow(WalkLayers(image), image, |image|, p);
  }

  lemma {:induction false} LayerDeliveriesAreOwned(paths: PathMap, index: nat, digest: Option<string>, entries: seq<TarEntry>)
    ensures forall f :: f in LayerDeliveries(paths, index, digest, entries) ==>
      f.path in paths && f.layer == Info(index, digest) && paths[f.path] == index
  {
    if entries != [] {
      LayerDeliveriesAreOwned(paths, index, digest, entries[..|entries| - 1]);
    }
  }

  lemma {:induction false} DeliveriesBelowAreOwned(paths: PathMap, image: Image, n: nat)
    requires n <= |image|
    ensures forall f :: f in DeliveriesBelow(paths, image, n) ==>
      f.path in paths && paths[f.path] < n && f.layer == Info(paths[f.path], image[paths[f.path]].digest)
  {
    if n > 0 {
      DeliveriesBelowAreOwned(paths, image, n - 1);
      LayerDeliveriesAreOwned(paths, n - 1, image[n - 1].digest, image[n - 1].entries);
    }
  }

  /** Every file delivered is visible, carries its owner's descriptor, and is never a whiteout marker. */
  lemma DeliveriesAreVisible(image: Image, f: FileEntry)
    requires f in Deliveries(image)
    ensures f.path in WalkLayers(image) && f.layer.index == WalkLayers(image)[f.path]
    ensures f.path != [] && Canonical(f.path) && !(WHITEOUT_PREFIX <= f.path[|f.path| - 1])
  {
    DeliveriesBelowAreOwned(WalkLayers(image), image, |image|);
    AddedBy(image, f.path);
  }

  // ----- The order of delivery -----

  datatype Spot = Spot(layer: nat, entry: nat)

  ghost predicate Earlier(a: Spot, b: Spot) {
    a.layer < b.layer || (a.layer == b.layer && a.entry < b.entry)
  }

  /** The spot holds a regular file under a name that its own layer owns. */
  ghost predicate Deliverable(image: Image, s: Spot) {
    && s.layer < |image| && s.entry < |image[s.layer].entries|
    && var e := image[s.layer].entries[s.entry]; var name := NormalizePath(e.name);
       e.kind == Regular && name != [] && name in WalkLayers(image) && WalkLayers(image)[name] == s.layer
  }

  ghost predicate From(image: Image, s: Spot, f: FileEntry)
    requires s.layer < |image| && s.entry < |image[s.layer].entries|
  {
    var e := image[s.layer].entries[s.entry];
    f == FileEntry(NormalizePath(e.name), Info(s.layer, image[s.layer].digest), e.body)
  }

  /** The files come from exactly the deliverable spots below layer n, base layer first and in tar order. */
  ghost predicate InImageOrder(image: Image, n: nat, spots: seq<Spot>, files: seq<FileEntry>) {
    && (forall s :: s in spots <==> s.layer < n && Deliverable(image, s))
    && (forall k, l :: 0 <= k < l < |spots| ==> Earlier(spots[k], spots[l]))
    && |files| == |spots|
    && forall k :: 0 <= k < |spots| ==> Deliverable(image, spots[k]) && From(image, spots[k], files[k])
  }

  /** The spots of one layer up to an entry. */
  ghost predicate InTarOrder(image: Image, i: nat, m: nat, spots: seq<Spot>, files: seq<FileEntry>) {
    && (forall s :: s in spots <==> s.layer == i && s.entry < m && Deliverable(image, s))
    && (forall k, l :: 0 <= k < l < |spots| ==> Earlier(spots[k], spots[l]))
    && |files| == |spots|
    && forall k :: 0 <= k < |spots| ==> Deliverable(image, spots[k]) && From(image, spots[k], files[k])
  }

  lemma {:induction false} LayerInOrder(image: Image, i: nat, m: nat) returns (spots: seq<Spot>)
    requires i < |image| && m <= |image[i].entries|
    ensures InTarOrder(image, i, m, spots, LayerDeliveries(WalkLayers(image), i, image[i].digest, image[i].entries[..m]))
  {
    hide WalkLayers, NormalizePath, InTarOrder;
    var entries := image[i].entries;
    if m == 0 {
      spots := [];
      NoSpots(image, i);
    } else {
      var before := LayerInOrder(image, i, m - 1);
      assert entries[..m][..m - 1] == entries[..m - 1];
      var files := LayerDeliveries(WalkLayers(image), i, image[i].digest, entries[..m - 1]);
      assert files + [] == files && before + [] == before;
      assert entries[..m][m - 1] == entries[m - 1];
      spots := before + if Deliverable(image, Spot(i, m - 1)) then [Spot(i, m - 1)] else [];
      NextSpot(image, i, m - 1, before, files);
    }
  }

  lemma NoSpots(image: Image, i: nat)
    ensures InTarOrder(image, i, 0, [], [])
  {
  }

  lemma NextSpot(image: Image, i: nat, m: nat, spots: seq<Spot>, files: seq<FileEntry>)
    requires i < |image| && m < |image[i].entries| && InTarOrder(image, i, m, spots, files)
    ensures var e, s := image[i].entries[m], Spot(i, m);
      if Deliverable(image, s)
      then InTarOrder(image, i, m + 1, spots + [s], files + [FileEntry(NormalizePath(e.name), Info(i, image[i].digest), e.body)])
      else InTarOrder(image, i, m + 1, spots, files)
  {
    hide WalkLayers, NormalizePath, Deliverable;
    assert forall k :: 0 <= k < |spots| ==> spots[k] in spots;
    assert Deliverable(image, Spot(i, m)) ==> From(image, Spot(i, m), FileEntry(NormalizePath(image[i].entries[m].name), Info(i, image[i].digest), image[i].entries[m].body));
  }

  lemma {:induction false} BelowInOrder(image: Image, n: nat) returns (spots: seq<Spot>)
    requires n <= |image|
    ensures InImageOrder(image, n, spots, DeliveriesBelow(WalkLayers(image), image, n))
  {
    hide WalkLayers, NormalizePath, LayerDeliveries, InImageOrder, InTarOrder;
    if n == 0 {
      spots := [];
      NothingBelow(image);
    } else {
      var entries := image[n - 1].entries;
      var before := BelowInOrder(image, n - 1);
      var more := LayerInOrder(image, n - 1, |entries|);
      assert entries[..|entries|] == entries;
      spots := before + more;
      NextLayer(image, n - 1, before, DeliveriesBelow(WalkLayers(image), image, n - 1), more,
        LayerDeliveries(WalkLayers(image), n - 1, image[n - 1].digest, entries));
    }
  }

  lemma NothingBelow(image: Image)
    ensures InImageOrder(image, 0, [], [])
  {
  }

  lemma NextLayer(image: Image, i: nat, spots: seq<Spot>, files: seq<FileEntry>, more: seq<Spot>, moreFiles: seq<FileEntry>)
    requires i < |image| && InImageOrder(image, i, spots, files) && InTarOrder(image, i, |image[i].entries|, more, moreFiles)
    ensures InImageOrder(image, i + 1, spots + more, files + moreFiles)
  {
    assert forall s :: Deliverable(image, s) && s.layer == i ==> s.entry < |image[i].entries|;
    hide WalkLayers, NormalizePath, Deliverable, From;
    var all := spots + more;
    forall k, l | 0 <= k < l < |all| ensures Earlier(all[k], all[l]) {
      if k < |spots| <= l {
        assert spots[k] in spots && more[l - |spots|] in more;
      }
    }
  }

  /** What is delivered, in which order: every deliverable entry once, base layer first and in tar order. */
  lemma DeliveredInOrder(image: Image)
    ensures exists spots: seq<Spot> :: InImageOrder(image, |image|, spots, Deliveries(image))
  {
    hide InImageOrder, WalkLayers, DeliveriesBelow;
    var spots := BelowInOrder(image, |image|);
    assert InImageOrder(image, |image|, spots, Deliveries(image));
  }
}
