/**
  Path normalisation (internal/image/layer/walker.go).

  A raw name is what the tar header spells, split at '/' after every back slash
  became a slash: "./a//b" is [".", "a", "", "b"]. A canonical path is the list of
  its segments; [] stands for the "" and "." that callers ignore.
*/
module Paths {
  type RawName = seq<string>
  type Path = seq<string>

  /** What path.Clean does with one more segment on top of the segments kept so far. */
  function CleanStep(rooted: bool, kept: Path, segment: string): Path {
    if segment == "" || segment == "." then kept
    else if segment == ".." then
      if kept != [] && kept[|kept| - 1] != ".." then kept[..|kept| - 1]
      else if rooted then kept
      else kept + [".."]
    else kept + [segment]
  }

  function Clean(rooted: bool, segments: seq<string>): Path {
    if segments == [] then []
    else CleanStep(rooted, Clean(rooted, segments[..|segments| - 1]), segments[|segments| - 1])
  }

  /** One leading "./" goes, then one leading "/", then path.Clean; a slash left in front goes too. */
  function NormalizePath(raw: RawName): Path {
    var undotted := if |raw| >= 2 && raw[0] == "." then raw[1..] else raw;
    var relative := if |undotted| >= 2 && undotted[0] == "" then undotted[1..] else undotted;
    Clean(|relative| >= 2 && relative[0] == "", relative)
  }

  /** No empty or dot segment, and ".." only where nothing is left to climb out of. */
  ghost predicate Canonical(p: Path) {
    && (forall i :: 0 <= i < |p| ==> p[i] != "" && p[i] != ".")
    && (forall i, j :: 0 <= i < j < |p| && p[j] == ".." ==> p[i] == "..")
  }

  lemma {:induction false} CleanIsCanonical(rooted: bool, segments: seq<string>)
    ensures Canonical(Clean(rooted, segments))
  {
    if segments != [] {
      CleanIsCanonical(rooted, segments[..|segments| - 1]);
    }
  }

  lemma {:induction false} CleanKeepsCanonical(p: Path)
    requires Canonical(p)
    ensures Clean(false, p) == p
  {
    if p != [] {
      var front := p[..|p| - 1];
      assert Canonical(front);
      CleanKeepsCanonical(front);
      assert p == front + [p[|p| - 1]];
      if p[|p| - 1] == ".." && front != [] {
        assert p[|p| - 2] == "..";
      }
    }
  }

  /** Every spelling maps to a canonical key, canonical keys map to themselves, so normalising twice is normalising once. */
  lemma NormalizePathIsIdempotent(raw: RawName)
    ensures Canonical(NormalizePath(raw))
    ensures NormalizePath(NormalizePath(raw)) == NormalizePath(raw)
  {
    var undotted := if |raw| >= 2 && raw[0] == "." then raw[1..] else raw;
    var relative := if |undotted| >= 2 && undotted[0] == "" then undotted[1..] else undotted;
    CleanIsCanonical(|relative| >= 2 && relative[0] == "", relative);
    CanonicalIsFixed(NormalizePath(raw));
  }

  lemma CanonicalIsFixed(p: Path)
    requires Canonical(p)
    ensures NormalizePath(p) == p
  {
    CleanKeepsCanonical(p);
  }

  // ----- Spellings -----

  /** "./", "/" and ".//" in front of a path make no difference. */
  lemma PrefixesDrop(p: Path)
    requires Canonical(p) && p != []
    ensures NormalizePath(["."] + p) == p && NormalizePath([""] + p) == p && NormalizePath([".", ""] + p) == p
  {
    CleanKeepsCanonical(p);
    assert p[0] != "" && p[0] != ".";
    hide Clean, Canonical;
    assert (["."] + p)[1..] == p && ([""] + p)[1..] == p && ([".", ""] + p)[1..] == [""] + p;
    assert (["."] + p)[0] == "." && ([""] + p)[0] == "" && ([".", ""] + p)[0] == ".";
  }

  /** Nothing and "." spell the root, with or without a slash. */
  lemma RootSpellings()
    ensures NormalizePath([""]) == NormalizePath(["."]) == NormalizePath(["", ""]) == NormalizePath([".", ""]) == []
  {
    assert [""][..0] == [] && ["."][..0] == [];
    assert Clean(false, [""]) == [] && Clean(false, ["."]) == [];
    assert ["", ""][1..] == [""] && [".", ""][1..] == [""];
  }

  lemma {:induction false} CleanAppend(rooted: bool, a: seq<string>, b: seq<string>, c: seq<string>)
    requires Clean(rooted, a) == Clean(rooted, b)
    ensures Clean(rooted, a + c) == Clean(rooted, b + c)
    decreases |c|
  {
    hide Clean, CleanStep;
    if c == [] {
      assert a + c == a && b + c == b;
    } else {
      var n := |c| - 1;
      CleanAppend(rooted, a, b, c[..n]);
      CleanSnoc(rooted, a + c[..n], c[n]);
      CleanSnoc(rooted, b + c[..n], c[n]);
      assert a + c == a + c[..n] + [c[n]] && b + c == b + c[..n] + [c[n]];
    }
  }

  lemma CleanSnoc(rooted: bool, a: seq<string>, segment: string)
    ensures Clean(rooted, a + [segment]) == CleanStep(rooted, Clean(rooted, a), segment)
  {
    assert (a + [segment])[..|a|] == a;
  }

  /** An empty segment and "." can be left out anywhere. */
  lemma DotsDrop(rooted: bool, a: seq<string>, dot: string, c: seq<string>)
    requires dot == "" || dot == "."
    ensures Clean(rooted, a + [dot] + c) == Clean(rooted, a + c)
  {
    CleanSnoc(rooted, a, dot);
    CleanAppend(rooted, a + [dot], a, c);
  }

  /** ".." takes back the name in front of it, anywhere. */
  lemma ParentDrops(rooted: bool, a: seq<string>, name: string, c: seq<string>)
    requires name != "" && name != "." && name != ".."
    ensures Clean(rooted, a + [name, ".."] + c) == Clean(rooted, a + c)
  {
    CleanSnoc(rooted, a, name);
    CleanSnoc(rooted, a + [name], "..");
    assert a + [name] + [".."] == a + [name, ".."];
    CleanAppend(rooted, a + [name, ".."], a, c);
  }

  /** ".." in front of everything stays, but has nothing to climb out of where the path is rooted. */
  lemma LeadingParents(c: seq<string>)
    ensures Clean(true, [".."] + c) == Clean(true, c)
    ensures Clean(false, [".."]) == [".."]
  {
    CleanSnoc(true, [], "..");
    CleanSnoc(false, [], "..");
    assert [] + [".."] == [".."] && [] + c == c;
    CleanAppend(true, [".."], [], c);
  }
}
