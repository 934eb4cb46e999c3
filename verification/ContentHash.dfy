/**
  The content index of a base image and the hash scan of a target
  (internal/enrich/basediff/contenthash/baseset.go and scan.go).

  Hashing one body is a function; None stands for a body that could not be read.
*/
module ContentHash {
  import opened Wrappers
  import opened Paths
  import opened Layers
  import opened Extract
  import Bloom

  datatype Digested = Digested(hex: string, size: nat)

  type Hasher = Body -> Option<Digested>

  datatype Evidence = Evidence(basePath: Path, layerIndex: nat, size: nat)

  datatype Addition = Addition(hex: string, evidence: Evidence)

  // ----- What a sequence of Adds amounts to -----

  /** A plain map in which the first evidence for a hash stays. */
  function FirstWins(adds: seq<Addition>): map<string, Evidence> {
    if adds == [] then map[]
    else
      var before, last := FirstWins(adds[..|adds| - 1]), adds[|adds| - 1];
      if last.hex in before then before else before[last.hex := last.evidence]
  }

  function PathsAdded(adds: seq<Addition>): set<Path> {
    set a | a in adds && a.evidence.basePath != [] :: a.evidence.basePath
  }

  class BaseSet {
    const bloom: Bloom.Filter
    var exact: map<string, Evidence>
    var basePaths: set<Path>

    /** No false negatives: every indexed hash passes the filter. */
    ghost predicate Valid()
      reads this, bloom.bits
    {
      bloom.Valid() && forall hex :: hex in exact ==> bloom.MayContain(hex)
    }

    constructor (bitCount: nat, hashCount: int)
      ensures Valid() && fresh(bloom) && fresh(bloom.bits)
      ensures exact == FirstWins([]) && basePaths == PathsAdded([])
    {
      bloom := new Bloom.Filter(bitCount, hashCount);
      exact := map[];
      basePaths := {};
    }

    method Add(hex: string, evidence: Evidence)
      requires Valid()
      modifies this, bloom.bits
      ensures Valid()
      ensures exact == if hex in old(exact) then old(exact) else old(exact)[hex := evidence]
      ensures basePaths == old(basePaths) + if evidence.basePath != [] then {evidence.basePath} else {}
    {
      bloom.Add(hex);
      if hex !in exact {
        exact := exact[hex := evidence];
      }
      if evidence.basePath != [] {
        basePaths := basePaths + {evidence.basePath};
      }
    }

    /** The filter only ever shortcuts a miss: the answer is the exact map's. */
    method Contains(hex: string) returns (evidence: Option<Evidence>)
      requires Valid()
      ensures evidence == if hex in exact then Some(exact[hex]) else None
    {
      var maybe := bloom.Test(hex);
      if !maybe {
        return None;
      }
      return if hex in exact then Some(exact[hex]) else None;
    }

    predicate HasPath(p: Path)
      reads this
    {
      p in basePaths
    }
  }

  // ----- Scans over the delivered files -----

  function AdditionFor(file: FileEntry, digested: Digested): Addition {
    Addition(digested.hex, Evidence(file.path, file.layer.index, digested.size))
  }

  function Additions(files: seq<FileEntry>, hash: Hasher): seq<Addition> {
    if files == [] then []
    else
      var last := files[|files| - 1];
      Additions(files[..|files| - 1], hash) +
      match hash(last.body)
      case Some(d) => [AdditionFor(last, d)]
      case None => []
  }

  function TargetHashes(files: seq<FileEntry>, hash: Hasher): map<Path, string> {
    if files == [] then map[]
    else
      var before, last := TargetHashes(files[..|files| - 1], hash), files[|files| - 1];
      match hash(last.body)
      case Some(d) => before[last.path := d.hex]
      case None => before
  }

  lemma {:induction false} CollectingVisit(files: seq<FileEntry>, hash: Hasher, visitor: Visitor<seq<Addition>>)
    requires forall s, f :: visitor(s, f) == match hash(f.body)
      case Some(d) => (s + [AdditionFor(f, d)], Continue)
      case None => (s, SkipFile)
    ensures Visit([], files, visitor) == Outcome(Additions(files, hash), false)
  {
    if files != [] {
      var front := files[..|files| - 1];
      CollectingVisit(front, hash, visitor);
      assert Additions(front, hash) + [] == Additions(front, hash);
    }
  }

  lemma AddsOne(adds: seq<Addition>, a: Addition)
    ensures FirstWins(adds + [a]) == if a.hex in FirstWins(adds) then FirstWins(adds) else FirstWins(adds)[a.hex := a.evidence]
    ensures PathsAdded(adds + [a]) ==
      PathsAdded(adds) + if a.evidence.basePath != [] then {a.evidence.basePath} else {}
  {
    assert (adds + [a])[..|adds|] == adds;
  }

  method BuildBaseSet(image: Image, hash: Hasher, bitCount: nat, hashCount: int) returns (base: BaseSet)
    ensures base.Valid()
    ensures base.exact == FirstWins(Additions(Deliveries(image), hash))
    ensures base.basePaths == PathsAdded(Additions(Deliveries(image), hash))
  {
    hide FirstWins, PathsAdded, Visit, Deliveries, Additions;
    var visitor: Visitor<seq<Addition>> := (s: seq<Addition>, f: FileEntry) => match hash(f.body)
      case Some(d) => (s + [AdditionFor(f, d)], Continue)
      case None => (s, SkipFile);
    CollectingVisit(Deliveries(image), hash, visitor);
    var adds, halted := WalkFiles(image, [], visitor);
    base := new BaseSet(bitCount, hashCount);
    assert adds[..0] == [];
    var i := 0;
    while i < |adds|
      invariant 0 <= i <= |adds|
      invariant fresh(base) && fresh(base.bloom.bits) && base.Valid()
      invariant base.exact == FirstWins(adds[..i])
      invariant base.basePaths == PathsAdded(adds[..i])
    {
      base.Add(adds[i].hex, adds[i].evidence);
      assert adds[..i + 1] == adds[..i] + [adds[i]];
      AddsOne(adds[..i], adds[i]);
      i := i + 1;
    }
    assert adds[..i] == adds;
  }

  lemma {:induction false} HashingVisit(files: seq<FileEntry>, hash: Hasher, visitor: Visitor<map<Path, string>>)
    requires forall s, f :: visitor(s, f) == match hash(f.body)
      case Some(d) => (s[f.path := d.hex], Continue)
      case None => (s, SkipFile)
    ensures Visit(map[], files, visitor) == Outcome(TargetHashes(files, hash), false)
  {
    if files != [] {
      HashingVisit(files[..|files| - 1], hash, visitor);
    }
  }

  method ScanTarget(image: Image, hash: Hasher) returns (hashes: map<Path, string>)
    ensures hashes == TargetHashes(Deliveries(image), hash)
  {
    var visitor: Visitor<map<Path, string>> := (s: map<Path, string>, f: FileEntry) => match hash(f.body)
      case Some(d) => (s[f.path := d.hex], Continue)
      case None => (s, SkipFile);
    HashingVisit(Deliveries(image), hash, visitor);
    var halted: bool;
    hashes, halted := WalkFiles(image, map[], visitor);
  }

  // ----- The scans, path by path -----

  /** The hash of the last readable body. */
  function LastHash(bodies: seq<Body>, hash: Hasher): Option<string> {
    if bodies == [] then None
    else
      match hash(bodies[|bodies| - 1])
      case Some(d) => Some(d.hex)
      case None => LastHash(bodies[..|bodies| - 1], hash)
  }

  lemma {:induction false} TargetHashesByPath(files: seq<FileEntry>, hash: Hasher, p: Path)
    ensures var t := TargetHashes(files, hash);
      LastHash(BodiesFor(files, p), hash) == if p in t then Some(t[p]) else None
  {
    if files != [] {
      TargetHashesByPath(files[..|files| - 1], hash, p);
      var bodies := BodiesFor(files[..|files| - 1], p);
      assert (bodies + [files[|files| - 1].body])[..|bodies|] == bodies;
      assert bodies + [] == bodies;
    }
  }

  lemma {:induction false} FirstWinsHasEveryHash(adds: seq<Addition>)
    ensures forall hex :: hex in FirstWins(adds) <==> exists a :: a in adds && a.hex == hex
  {
    if adds != [] {
      FirstWinsHasEveryHash(adds[..|adds| - 1]);
      assert adds == adds[..|adds| - 1] + [adds[|adds| - 1]];
    }
  }

  /** File k is the first delivered one whose body has this hash. */
  ghost predicate FirstFileWith(files: seq<FileEntry>, hash: Hasher, hex: string, k: nat) {
    && k < |files| && hash(files[k].body).Some? && hash(files[k].body).value.hex == hex
    && forall l :: 0 <= l < k ==> hash(files[l].body).None? || hash(files[l].body).value.hex != hex
  }

  function EvidenceOf(f: FileEntry, hash: Hasher): Evidence
    requires hash(f.body).Some?
  {
    Evidence(f.path, f.layer.index, hash(f.body).value.size)
  }

  /** A hash is indexed exactly if some delivered file has it; its evidence is path, layer and size of the first of them. */
  lemma {:induction false} IndexedEvidence(files: seq<FileEntry>, hash: Hasher, hex: string)
    ensures var exact := FirstWins(Additions(files, hash));
      && (hex in exact <==> exists f :: f in files && hash(f.body).Some? && hash(f.body).value.hex == hex)
      && (hex in exact ==> exists k: nat :: FirstFileWith(files, hash, hex, k) && exact[hex] == EvidenceOf(files[k], hash))
  {
    hide Additions, FirstWins;
    AdditionsSnoc(files, hash);
    if files == [] {
      assert FirstWins([]) == map[] by { NothingWins(); }
    } else {
      var front, last := files[..|files| - 1], files[|files| - 1];
      assert files == front + [last];
      IndexedEvidence(front, hash, hex);
      var before, exact := FirstWins(Additions(front, hash)), FirstWins(Additions(files, hash));
      if hash(last.body).Some? {
        AddsOne(Additions(front, hash), AdditionFor(last, hash(last.body).value));
      }
      if hex in before {
        var k: nat :| FirstFileWith(front, hash, hex, k)
          && before[hex] == EvidenceOf(front[k], hash);
        assert FirstFileWith(files, hash, hex, k);
      } else if hex in exact {
        forall l | 0 <= l < |front| ensures hash(files[l].body).None? || hash(files[l].body).value.hex != hex {
          assert front[l] in front;
        }
        assert FirstFileWith(files, hash, hex, |front|);
      }
    }
  }

  lemma AdditionsSnoc(files: seq<FileEntry>, hash: Hasher)
    ensures files == [] ==> Additions(files, hash) == []
    ensures files != [] ==>
      var front, last := files[..|files| - 1], files[|files| - 1];
      Additions(files, hash) ==
        if hash(last.body).Some? then Additions(front, hash) + [AdditionFor(last, hash(last.body).value)] else Additions(front, hash)
  {
    if files != [] {
      var before := Additions(files[..|files| - 1], hash);
      assert before + [] == before;
    }
  }

  lemma NothingWins()
    ensures FirstWins([]) == map[]
  {
  }

  lemma NoHash(hash: Hasher)
    ensures LastHash([], hash) == None
  {
  }

  lemma LastHashSnoc(bodies: seq<Body>, body: Body, hash: Hasher)
    ensures LastHash(bodies + [body], hash) == if hash(body).Some? then Some(hash(body).value.hex) else LastHash(bodies, hash)
  {
    assert (bodies + [body])[..|bodies|] == bodies;
  }

  lemma {:induction false} AdditionsByPath(files: seq<FileEntry>, hash: Hasher, p: Path)
    requires p != []
    ensures p in PathsAdded(Additions(files, hash)) <==> LastHash(BodiesFor(files, p), hash).Some?
    ensures LastHash(BodiesFor(files, p), hash).Some? ==>
      exists a :: a in Additions(files, hash) && a.hex == LastHash(BodiesFor(files, p), hash).value
  {
    hide LastHash;
    if files == [] {
      NoHash(hash);
    } else {
      var front, last := files[..|files| - 1], files[|files| - 1];
      AdditionsByPath(front, hash, p);
      LastHashSnoc(BodiesFor(front, p), last.body, hash);
      var bodies := BodiesFor(front, p);
      assert bodies + [] == bodies;
      assert forall a :: a in Additions(front, hash) ==> a in Additions(files, hash);
      if hash(last.body).Some? {
        var a := AdditionFor(last, hash(last.body).value);
        assert Additions(files, hash) == Additions(front, hash) + [a];
        assert a in Additions(files, hash);
      } else {
        assert Additions(files, hash) == Additions(front, hash);
      }
    }
  }

  /** A path is in the base index exactly when the base delivers a readable body for it, and then that hash is indexed too. */
  lemma BaseIndexByPath(image: Image, hash: Hasher, p: Path)
    requires p != []
    ensures var adds := Additions(Deliveries(image), hash);
      var last := LastHash(BodiesFor(Deliveries(image), p), hash);
      && (p in PathsAdded(adds) <==> last.Some?)
      && (last.Some? ==> last.value in FirstWins(adds))
  {
    AdditionsByPath(Deliveries(image), hash, p);
    FirstWinsHasEveryHash(Additions(Deliveries(image), hash));
  }
}
