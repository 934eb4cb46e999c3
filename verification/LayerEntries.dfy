/**
  The layer walk in terms of what stands in the tars (internal/image/layer/walker.go):
  which path each entry writes, whites out or makes opaque.
*/
module LayerEntries {
  import opened Wrappers
  import opened Paths
  import opened Layers

  // ----- What a tar entry is -----

  /** A regular file, a link or a device; markers and directories write nothing. */
  ghost predicate Writes(entry: TarEntry, p: Path) {
    && NormalizePath(entry.name) == p && p != []
    && !(".wh." <= p[|p| - 1]) && entry.kind != Directory
  }

  /** The directory d holds the marker for the name n; a marker without a proper name points at d or above it. */
  function Target(d: Path, n: string): Path {
    if n == "" || n == "." then d
    else if n == ".." && d != [] && d[|d| - 1] != ".." then d[..|d| - 1]
    else d + [n]
  }

  ghost predicate WhitesOut(entry: TarEntry, p: Path) {
    exists d, n :: NormalizePath(entry.name) == d + [".wh." + n] && ".wh." + n != ".wh..wh..opq" && Target(d, n) == p
  }

  /** In the root the marker has no effect. */
  ghost predicate MakesOpaque(entry: TarEntry, d: Path) {
    d != [] && NormalizePath(entry.name) == d + [".wh..wh..opq"]
  }

  lemma TargetIs(d: Path, n: string)
    requires Canonical(d)
    ensures Clean(false, d + [n]) == Target(d, n)
  {
    assert (d + [n])[..|d|] == d;
    CleanKeepsCanonical(d);
  }

  lemma {:induction false} CanonicalFront(p: Path)
    requires Canonical(p) && p != []
    ensures Canonical(p[..|p| - 1])
  {
  }

  lemma Snoc(d: Path, base: string)
    ensures var p := d + [base]; p[|p| - 1] == base && p[..|p| - 1] == d
  {
  }

  lemma Markers()
    ensures OPAQUE_MARKER == ".wh..wh..opq" && WHITEOUT_PREFIX == ".wh."
    ensures forall n: string :: ".wh." <= ".wh." + n && (".wh." + n)[4..] == n
    ensures forall s: string :: ".wh." <= s ==> s == ".wh." + s[4..]
    ensures ".wh." <= ".wh..wh..opq"
  {
  }

  /** What an entry asks for, whatever its name and kind. */
  lemma EffectIs(entry: TarEntry)
    ensures forall p :: EffectOf(entry) == Add(p) <==> Writes(entry, p)
    ensures forall p :: EffectOf(entry) == Remove(p) <==> WhitesOut(entry, p)
    ensures forall d :: d != [] ==> (EffectOf(entry) == Evict(d) <==> MakesOpaque(entry, d))
  {
    NormalizePathIsIdempotent(entry.name);
    Markers();
    var name := NormalizePath(entry.name);
    if name != [] {
      var base, dir := name[|name| - 1], name[..|name| - 1];
      assert name == dir + [base];
      CanonicalFront(name);
      forall d, b | name == d + [b] ensures d == dir && b == base {
        Snoc(d, b);
      }
      if ".wh." <= base {
        TargetIs(dir, base[4..]);
      }
      hide NormalizePath, Clean, Target, OPAQUE_MARKER, WHITEOUT_PREFIX, Canonical;
      WhiteoutIff(entry, dir, base);
    }
  }

  lemma WhiteoutIff(entry: TarEntry, dir: Path, base: string)
    requires NormalizePath(entry.name) == dir + [base]
    ensures forall p :: WhitesOut(entry, p) <==> ".wh." <= base && base != ".wh..wh..opq" && Target(dir, base[4..]) == p
  {
    hide NormalizePath, Target;
    Markers();
    forall d, b | dir + [base] == d + [b] ensures d == dir && b == base {
      Snoc(d, b);
      Snoc(dir, base);
    }
    forall p
      ensures WhitesOut(entry, p) <==> ".wh." <= base && base != ".wh..wh..opq" && Target(dir, base[4..]) == p
    {
      if WhitesOut(entry, p) {
        var d, n :| NormalizePath(entry.name) == d + [".wh." + n] && ".wh." + n != ".wh..wh..opq" && Target(d, n) == p;
        assert d == dir && base == ".wh." + n;
      }
      if ".wh." <= base && base != ".wh..wh..opq" && Target(dir, base[4..]) == p {
        assert NormalizePath(entry.name) == dir + [".wh." + base[4..]];
      }
    }
  }

  // ----- One entry on top of an image -----

  lemma OneEntry(image: Image, digest: Option<string>, entry: TarEntry)
    ensures WalkLayers(image + [Layer(digest, [entry])]) == Step(WalkLayers(image), |image|, EffectOf(entry))
  {
    var top := image + [Layer(digest, [entry])];
    assert top[..|image|] == image;
    var es := Effects([entry]);
    assert es == [EffectOf(entry)] && es[..0] == [];
    hide EffectOf, Step;
    assert ApplyLayer(WalkLayers(image), |image|, es[..0]) == WalkLayers(image);
  }

  /** A marker for the name n in d hides exactly d/n, whatever the entry's kind. */
  lemma WhiteoutHides(image: Image, digest: Option<string>, entry: TarEntry, d: Path, n: string)
    requires NormalizePath(entry.name) == d + [".wh." + n] && ".wh." + n != ".wh..wh..opq"
    requires Canonical(d + [n])
    ensures var after := WalkLayers(image + [Layer(digest, [entry])]);
      forall p :: (p in after <==> p in WalkLayers(image) && p != d + [n]) && (p in after ==> after[p] == WalkLayers(image)[p])
  {
    OneEntry(image, digest, entry);
    Snoc(d, n);
    assert (d + [n])[|d|] == n;
    assert n == ".." ==> d == [] || d[|d| - 1] == ".." by {
      assert d != [] ==> (d + [n])[|d| - 1] == d[|d| - 1];
    }
    assert Target(d, n) == d + [n];
    assert WhitesOut(entry, d + [n]);
    EffectIs(entry);
    hide EffectOf, WalkLayers, NormalizePath, Canonical;
  }

  /** An opaque marker in d hides exactly what earlier layers have strictly below d. */
  lemma OpaqueHides(image: Image, digest: Option<string>, entry: TarEntry, d: Path)
    requires NormalizePath(entry.name) == d + [".wh..wh..opq"]
    ensures var after := WalkLayers(image + [Layer(digest, [entry])]);
      forall p :: (p in after <==> p in WalkLayers(image) && !(d != [] && d < p)) && (p in after ==> after[p] == WalkLayers(image)[p])
  {
    OneEntry(image, digest, entry);
    OwnersAreLayers(image);
    RootOpaque(entry, d);
    hide EffectOf, WalkLayers, NormalizePath;
  }

  lemma RootOpaque(entry: TarEntry, d: Path)
    requires NormalizePath(entry.name) == d + [".wh..wh..opq"]
    ensures EffectOf(entry) == Evict(d)
  {
    Markers();
    Snoc(d, ".wh..wh..opq");
    hide NormalizePath;
  }

  /** A directory, and an entry for the root, changes nothing. */
  lemma DirectoryChangesNothing(image: Image, digest: Option<string>, entry: TarEntry)
    requires var name := NormalizePath(entry.name);
      name == [] || (entry.kind == Directory && !(".wh." <= name[|name| - 1]))
    ensures WalkLayers(image + [Layer(digest, [entry])]) == WalkLayers(image)
  {
    OneEntry(image, digest, entry);
    Markers();
    hide NormalizePath, WalkLayers;
  }

  /** Any other entry gives its path to its layer and leaves the rest alone. */
  lemma EntryTakesPath(image: Image, digest: Option<string>, entry: TarEntry, p: Path)
    requires Writes(entry, p)
    ensures WalkLayers(image + [Layer(digest, [entry])]) == WalkLayers(image)[p := |image|]
  {
    OneEntry(image, digest, entry);
    EffectIs(entry);
    hide EffectOf, WalkLayers, NormalizePath;
  }

  // ----- Who owns a path -----

  /** Some entry writes p and no later entry of the same tar whites it out. */
  ghost predicate LeavesWritten(entries: seq<TarEntry>, p: Path) {
    exists a :: 0 <= a < |entries| && Writes(entries[a], p) && forall b :: a < b < |entries| ==> !WhitesOut(entries[b], p)
  }

  /** No entry of the tar writes p, whites it out, or makes a directory above it opaque. */
  ghost predicate LeavesAlone(entries: seq<TarEntry>, p: Path) {
    forall a :: 0 <= a < |entries| ==>
      !Writes(entries[a], p) && !WhitesOut(entries[a], p) && forall d :: d < p ==> !MakesOpaque(entries[a], d)
  }

  lemma LeavesWrittenIs(entries: seq<TarEntry>, p: Path)
    ensures WritesLast(Effects(entries), p) <==> LeavesWritten(entries, p)
  {
    var es := Effects(entries);
    hide EffectOf, Writes, WhitesOut, MakesOpaque;
    forall k | 0 <= k < |entries|
      ensures es[k] == Add(p) <==> Writes(entries[k], p)
      ensures es[k] == Remove(p) <==> WhitesOut(entries[k], p)
    {
      EffectIs(entries[k]);
    }
    hide Effects;
    if WritesLast(es, p) {
      var a :| 0 <= a < |es| && es[a] == Add(p) && forall b :: a < b < |es| ==> es[b] != Remove(p);
      assert Writes(entries[a], p);
    }
    if LeavesWritten(entries, p) {
      var a :| 0 <= a < |entries| && Writes(entries[a], p) && forall b :: a < b < |entries| ==> !WhitesOut(entries[b], p);
      assert es[a] == Add(p);
    }
  }

  lemma LeavesAloneIs(entries: seq<TarEntry>, p: Path)
    ensures Untouched(Effects(entries), p) <==> LeavesAlone(entries, p)
  {
    var es := Effects(entries);
    hide EffectOf, Writes, WhitesOut, MakesOpaque;
    forall k | 0 <= k < |entries|
      ensures es[k] == Add(p) <==> Writes(entries[k], p)
      ensures es[k] == Remove(p) <==> WhitesOut(entries[k], p)
      ensures forall d :: d != [] ==> (es[k] == Evict(d) <==> MakesOpaque(entries[k], d))
    {
      EffectIs(entries[k]);
    }
    hide Effects, EvictsBelow;
    EvictsBelowIs(entries, p);
  }

  lemma EvictsBelowIs(entries: seq<TarEntry>, p: Path)
    ensures EvictsBelow(Effects(entries), p) <==>
      exists k, d :: 0 <= k < |entries| && d < p && MakesOpaque(entries[k], d)
  {
    var es := Effects(entries);
    hide EffectOf, NormalizePath, Effects;
    forall k | 0 <= k < |entries|
      ensures forall d :: d != [] ==> (es[k] == Evict(d) <==> MakesOpaque(entries[k], d))
    {
      EffectIs(entries[k]);
    }
    NoRootMarker(entries);
    if EvictsBelow(es, p) {
      var dir :| Evict(dir) in es && Covers(dir, p);
      var k :| 0 <= k < |es| && es[k] == Evict(dir);
      assert MakesOpaque(entries[k], dir);
    }
    if k, d :| 0 <= k < |entries| && d < p && MakesOpaque(entries[k], d) {
      assert es[k] == Evict(d) && Evict(d) in es && Covers(d, p);
    }
  }

  lemma NoRootMarker(entries: seq<TarEntry>)
    ensures forall a :: 0 <= a < |entries| ==> !MakesOpaque(entries[a], [])
  {
    hide NormalizePath;
  }

  /**
    Latest layer wins, for every image: p belongs to layer i exactly when i is a layer whose tar writes
    p without a later whiteout of it, and no tar of a later layer writes p, whites it out or makes a
    directory above it opaque.
  */
  lemma WalkClosedForm(image: Image, p: Path, i: nat)
    ensures p in WalkLayers(image) && WalkLayers(image)[p] == i <==>
      && i < |image| && LeavesWritten(image[i].entries, p)
      && forall j :: i < j < |image| ==> LeavesAlone(image[j].entries, p)
  {
    hide WalkLayers, LeavesWritten, LeavesAlone, WritesLast, Untouched, Effects;
    OwnedByEffects(image, p, i);
    forall j | 0 <= j < |image|
      ensures WritesLast(Effects(image[j].entries), p) <==> LeavesWritten(image[j].entries, p)
      ensures Untouched(Effects(image[j].entries), p) <==> LeavesAlone(image[j].entries, p)
    {
      LeavesWrittenIs(image[j].entries, p);
      LeavesAloneIs(image[j].entries, p);
    }
  }
}
