# Astinus: a Dafny model of its state machines and transformations

Astinus takes an SBOM and enriches it with facts read from the layered container image
that the SBOM describes. This project models the parts of it whose answer depends on a
whole run, a whole tree or a whole image, and proves what those parts guarantee.

| modules | what they model |
|---|---|
| `Paths`, `Layers`, `LayerEntries`, `Extract` | tar layers with whiteouts folded into a path-to-owner map, and the re-streaming of the layers through that map |
| `Bloom`, `ContentHash`, `BaseDiff` | the content index behind a Bloom filter, and the two strategies that tell base components from application components |
| `Ordering`, `OrderLevels` | enricher scheduling: Kahn's algorithm with lenient dependencies, a cycle report, and what the order means level by level |
| `Dedup`, `DedupMerge`, `DedupFold`, `DedupRun`, `DedupLaws`, `DedupTwice`, `DedupKeys`, `DedupIdentity` | merging duplicate components, and what that means for the fields of the components |
| `Lift`, `LiftLaws`, `LiftDocument` | promoting nested components to the top level, with dependency edges |
| `Spdx`, `SpdxTrees`, `SpdxLoss`, `SpdxFields` | component forests as SPDX packages, CONTAINS edges and annotations, and back; what is lost when ids collide; what is written and read entry by entry |
| `CycloneDxDeps`, `CycloneDx`, `CycloneDxFields` | relationships as CycloneDX dependencies, typed fields as properties, and back |
| `MatcherPool` | the matcher worker pool as a step relation over every interleaving |
| `TokenBucket`, `RateLimit`, `CachedMatcher` | two token buckets and the TTL and FIFO cache |
| `Candidates`, `CpeEnrich`, `MultiSource` | CPE candidates: resolving, collapsing, classifying, writing back |
| `CpeNames`, `Purls`, `JsonDetect` | CPE 2.3 names, package URLs, format detection over JSON tokens |
| `Strings`, `Texts`, `Positions`, `Sorting`, `Wrappers` | string operations and the stable sort of the Go library, what they mean character by character, positions in lists; `Option` |

Conventions. A path is a sequence of segments and a layer a sequence of tar entries. Code
that updates state in place is a class or a method with loops, tied to a specification
function; the laws are lemmas about that function. Where the source walks a Go map, the
walk's order is arbitrary and the laws hold for every order. Clocks, hash functions,
matchers, candidate sources and visitors are parameters. Times and token levels are reals.

Where code and documentation disagree, the model follows the code:

- A directory whiteout deletes the exact key only, and an opaque marker in the root evicts
  nothing; a whiteout also reaches an entry of its own layer. `FollowsOciIff` says exactly
  when a layer nevertheless follows section "Whiteouts" of the OCI image-spec layer document.
- Where two CPE candidates share the highest confidence, the one whose CPE is mentioned first wins,
  even if it is mentioned there with a lower confidence: `FirstHighestIff` says exactly when that is
  the first candidate of highest confidence, `WeakCopyWins` has a slate on which it is not.
- The first tie-break that the deduplication's comment names, the PURL, never decides: components
  with one key all have a PURL or all have none (`RunRepresents`, through `Weight`).
- The scheduler's comment promises input order within a level. The order is first in, first
  out: `Fifo` describes it and `OrderIsDetermined` shows that nothing else is left open.
  `InputOrderIff` says exactly for which graphs this is the comment's order, and
  `LevelsAreNotInInputOrder` has one for which it is not.
- The cycle report names what lies downstream of a cycle as well as the cycle
  (`DownstreamIsNamed`).
- The cache's entry limit does not hold once entries expire (`LimitCanBeExceeded`). It holds
  throughout a sequence of calls exactly if no call stores into a full cache whose first key in
  line has no entry any more (`LimitHoldsIff`); it is exceeded by at most one entry for each expiry
  deletion (`CallsSizeBound`).
- The matcher's rate limiter refills and takes in two critical sections. Its bound since
  construction always holds (`TotalBound`); the bound of a window can be broken exactly if, when
  the window opens, a goroutine stands between its refill and its take, a token is there, and the
  bucket would overflow by now (`WindowBoundIff`).
- The CycloneDX reader takes every property under `astinus:cpe:` for a CPE, also
  `astinus:cpe:source`; `FieldsReadBackIff` has the exact condition for a lossless trip.
- Merging can change a component's identity key when a hash of another algorithm, with a
  colon in its name, has the key of the SHA-256. `RunKeepsKeysIff` is the exact condition over
  a whole run; `RunLeavesKeyTwice` has a list on which a second run merges once more.
- Lifting looks one level deep; `LiftedKeys` says exactly which keys end up at the top.
- The cache of the CPE resolver joins four fields with `|` without escaping. It is safe for a
  sequence of requests exactly if requests that share a key are for the same package
  (`CacheIsSafeIff`), as they are without a `|` (`BarFreeIsTransparent`); otherwise it can answer
  with another package's candidates (`CacheCanAnswerWrongly`).
- References that differ can become the same SPDX id. A forest then keeps all its top-level
  components exactly if no top-level id is also a nested one (`NoTopLevelLossIff`).
- A marker key whose value is an object or an array lets nested content decide the format.
  `DocumentVerdictIs` gives the verdict on every document, `TopLevelDecidesIff` the exact
  condition for the top level to decide.

## Model

| member | source | states |
|---|---|---|
| Paths.NormalizePathIsIdempotent | internal/image/layer/walker.go:259-275 | every spelling of a path maps to a canonical key, and normalising twice is normalising once |
| Paths.CanonicalIsFixed | internal/image/layer/walker.go:259-275 | canonical keys map to themselves |
| Paths.PrefixesDrop | internal/image/layer/walker.go:259-275 | a leading `./`, `/` or `./` and `/` in front of a canonical path makes no difference |
| Paths.RootSpellings | internal/image/layer/walker.go:259-275 | the spellings of the root all give the empty key |
| Paths.DotsDrop | internal/image/layer/walker.go:259-275 | an empty segment or `.` can be left out anywhere |
| Paths.ParentDrops | internal/image/layer/walker.go:259-275 | `..` takes back the name in front of it anywhere |
| Paths.LeadingParents | internal/image/layer/walker.go:259-275 | a leading `..` vanishes in a rooted path and stays in a relative one |
| Layers.FileMap.WalkLayer | internal/image/layer/walker.go:187-234 | one layer changes the map as its entries do one after the other: additions, exact-key whiteouts, evictions from earlier layers |
| Layers.FileMap.RemovePrefixFromPriorLayers | internal/image/layer/walker.go:239-245 | exactly the paths strictly below the directory that an earlier layer owns disappear |
| Layers.Walk | internal/image/layer/walker.go:105-135 | the map is the fold of all layers, and the layer table lists them in order |
| Layers.ApplyLayerOnPath | internal/image/layer/walker.go:187-234 | for each path, whether a layer takes it, drops it or leaves its earlier owner |
| Layers.OwnersAreLayers | internal/image/layer/walker.go:68-80 | the map never points outside the image, so a lookup finds exactly the mapped paths |
| LayerEntries.EffectIs | internal/image/layer/walker.go:187-234 | what one tar entry does, read off its name and kind: which path it writes, which it whites out, which directory it makes opaque |
| LayerEntries.WhiteoutHides | internal/image/layer/walker.go:219-223 | on top of any image, a layer of one entry `.wh.n` in directory d, of any kind, makes the map lose exactly d/n |
| LayerEntries.OpaqueHides | internal/image/layer/walker.go:209-218 | a layer of one opaque marker in directory d makes the map lose exactly the paths strictly below d, and none where d is the root |
| LayerEntries.DirectoryChangesNothing | internal/image/layer/walker.go:224-230 | a layer of one directory entry leaves the map as it is |
| LayerEntries.EntryTakesPath | internal/image/layer/walker.go:224-231 | a layer of one other entry takes that path over and changes no other |
| LayerEntries.WalkClosedForm | internal/image/layer/walker.go:105-135 | for every image, a path belongs to layer i if and only if an entry of i writes it and no later entry of i whites it out, and no entry of a later layer writes it, whites it out or makes a directory above it opaque |
| Layers.OwnedByEffects | internal/image/layer/walker.go:105-135 | the same closed form over the effects of the entries |
| Layers.ConflictFreeLayersCommute | internal/image/layer/walker.go:187-234 | any two tar orders of a layer that whites out none of its own paths give the same map |
| Layers.OrderIrrelevantIffNoOwnWhiteout | internal/image/layer/walker.go:219-223 | tar order inside a layer is irrelevant if and only if the layer whites out no path that it adds |
| Layers.FollowsOciIff | internal/image/layer/walker.go:209-223 | a layer has the effect that the OCI document prescribes if and only if it whites out none of its own additions and hides nothing that the code leaves |
| Extract.StreamLayer | internal/image/layer/extract.go:93-141 | the visitor sees, in tar order and until it halts, the regular entries of this layer whose path this layer owns |
| Extract.WalkFiles | internal/image/layer/extract.go:62-89 | the visitor sees the deliveries of all layers in order, and nothing after it halts |
| Extract.AddedBy | internal/image/layer/walker.go:206-231 | every mapped path is canonical, non-empty and no whiteout marker |
| Extract.DeliversOwnersContent | internal/image/layer/extract.go:93-141 | for every path, what is delivered is exactly what the owner's tar lists for it, in tar order, and nothing for unowned paths |
| Extract.DeliveriesAreVisible | internal/image/layer/extract.go:106-131 | every delivered file is in the map, with its owner's layer, and is never a whiteout marker |
| Extract.DeliveredInOrder | internal/image/layer/extract.go:62-141 | the delivered files are exactly the regular entries of owned paths, each once, base layer first and in tar order, with path, layer and body of their entry |
| Bloom.Probe | internal/enrich/basediff/contenthash/bloom.go:64-104 | every probed index is below the bit count, with 64-bit wrap-around in the double hashing |
| Bloom.ProbeIs | internal/enrich/basediff/contenthash/bloom.go:64-70 | double hashing: the first hash plus i times the second, wrapped once at 64 bits, modulo the bit count |
| Bloom.DigestHalves | internal/enrich/basediff/contenthash/bloom.go:89-104 | the two hashes are the numbers that the first two runs of sixteen hexadecimal digits spell, a zero in second place becoming one |
| Bloom.RawBytesAt | internal/enrich/basediff/contenthash/bloom.go:89-104 | of any text a byte for each pair of digits up to the first bad or missing one counts, and zeros behind |
| Bloom.Filter.constructor | internal/enrich/basediff/contenthash/bloom.go:37-59 | the filter starts empty, with at least one bit and at least one hash for every capacity formula |
| Bloom.Filter.Add | internal/enrich/basediff/contenthash/bloom.go:64-70 | exactly the probed bits get set; the added hash passes from now on and nothing that passed stops passing |
| Bloom.Filter.Test | internal/enrich/basediff/contenthash/bloom.go:74-83 | true if and only if every probed bit is set |
| ContentHash.BaseSet.Add | internal/enrich/basediff/contenthash/baseset.go:65-75 | the first evidence for a hash stays, the path is recorded, and the filter still admits every indexed hash |
| ContentHash.BaseSet.Contains | internal/enrich/basediff/contenthash/baseset.go:84-92 | the answer is the exact map's: the filter never hides an indexed hash |
| ContentHash.BuildBaseSet | internal/enrich/basediff/contenthash/scan.go:40-66 | the index is the first-write-wins map of the hashes of all delivered files of the base |
| ContentHash.IndexedEvidence | internal/enrich/basediff/contenthash/scan.go:40-66 | a hash is indexed if and only if some delivered file has it, with path, layer and size of the first such file |
| ContentHash.ScanTarget | internal/enrich/basediff/contenthash/scan.go:75-94 | the result is the map of the hashes of all delivered files of the target |
| ContentHash.TargetHashesByPath | internal/enrich/basediff/contenthash/scan.go:75-94 | a path is hashed if and only if a readable body is delivered for it, and the last one counts |
| ContentHash.BaseIndexByPath | internal/enrich/basediff/contenthash/scan.go:40-66 | a path is indexed if and only if the base delivers a readable body for it, and then its hash is indexed too |
| BaseDiff.Apply | internal/enrich/attribution/enricher.go:150-175 | the component that attribution gives back |
| BaseDiff.AttributionIs | internal/enrich/attribution/enricher.go:150-175 | only a component without layer information changes, if and only if the map knows one of its non-empty locations, and then by the owner's index and digest for the first of them |
| BaseDiff.PathsAre | internal/enrich/basediff/enricher.go:443-461 | the paths of a component are exactly the non-empty names of its locations and its syft properties |
| BaseDiff.PathsInOrder | internal/enrich/basediff/enricher.go:443-461 | locations come first, each list in its order, and empty names count for nothing wherever they stand |
| BaseDiff.LayerPrefix | internal/image/layer/diff.go:112-135 | success if and only if every layer of the base has the digest of the target's layer at its place, a base without layers included |
| BaseDiff.ComputeDiff | internal/image/layer/diff.go:73-104 | prefix mode if and only if the base's layers are a prefix; otherwise the base's visible paths |
| BaseDiff.ClassifyComponent | internal/enrich/basediff/enricher.go:206-244 | base if and only if some non-empty location or syft path has a hash hit or a path hit, unknown if and only if neither list has a non-empty name, application otherwise; the first path with a hash hit gives the recorded base path, and modified is stamped only without one |
| BaseDiff.OwnersCarryOver | internal/image/layer/walker.go:187-245 | below the prefix, both images agree on the owner of every path that the target still gives to a base layer |
| BaseDiff.SameBodies | internal/image/layer/extract.go:93-141 | both images deliver the same bodies for a path that a base layer owns in the target |
| BaseDiff.BaseOwnedPathHits | internal/enrich/basediff/enricher.go:206-244 | on such a path the hash test and the path test both amount to the owner listing a readable regular file there |
| BaseDiff.PrefixBaseImpliesContentBase | internal/enrich/basediff/enricher.go:206-244 | for a component attributed from a hashed file, the prefix diff never says base where the content diff says otherwise |
| BaseDiff.ContentVerdictIff | internal/enrich/basediff/enricher.go:206-244 | for any component, the content verdict is base if and only if at some non-empty location or syft path the base has a readable body, or the target has bytes that the base delivers anywhere; it is unknown if and only if there is no such name |
| BaseDiff.FallbackVerdictIff | internal/enrich/basediff/enricher.go:408-437 | without the base's layers in front, the verdict is base if and only if some non-empty location or syft path is visible in the base |
| BaseDiff.PrefixVerdictIff | internal/enrich/basediff/enricher.go:408-437 | with them in front, base if and only if the layer index lies below their number, unknown if and only if there is no layer |
| BaseDiff.DisagreementIff | internal/enrich/basediff/enricher.go:408-437 | for any component, the prefix diff says base where the content diff does not if and only if its layer lies below the prefix and no location or syft path of it has content of the base |
| BaseDiff.SymlinkDisagreement | internal/enrich/basediff/enricher.go:408-437 | a component on a symbolic link gets base from the prefix diff and application from the content diff |
| BaseDiff.FallbackCoversModified | internal/image/layer/diff.go:58-63 | a content verdict of base without a hash hit is the verdict of the path fallback too |
| Ordering.IndexByName | internal/enrich/ordering.go:62-74 | success if and only if names are distinct; otherwise the first name that repeats an earlier one |
| Ordering.BuildGraph | internal/enrich/ordering.go:82-101 | in-degrees count present dependencies with repeats, and each dependent is listed once for each mention, in input order |
| Ordering.Release | internal/enrich/ordering.go:120-134 | each mention takes one off; the enrichers that reach zero join the queue once, in input order, behind what is queued |
| Ordering.Kahn | internal/enrich/ordering.go:106-137 | the loop ends with every emitted enricher behind its present dependencies, in first-in first-out order, and every degree equal to what is still waited for |
| Ordering.ReachesCycleIsLargest | internal/enrich/ordering.go:139-156 | the names on or downstream of a cycle are the largest set in which every member depends on a member |
| Ordering.StuckReachesCycle | internal/enrich/ordering.go:143-156 | what the loop leaves behind is exactly what lies on or downstream of a cycle |
| Ordering.EmittedAllIffAcyclic | internal/enrich/ordering.go:48-50 | everything is emitted if and only if no name reaches a cycle, and then the output is a permutation |
| Ordering.CycleError | internal/enrich/ordering.go:143-156 | the error names the enrichers that were not emitted, in input order |
| Ordering.FifoExtends | internal/enrich/ordering.go:114-135 | what one retired enricher releases goes behind everything listed before, without disturbing the order |
| Ordering.OrderIsDetermined | internal/enrich/ordering.go:35-57 | dependencies first, and first in first out with ties in input order, leave one order only |
| OrderLevels.LevelIsLongestChain | internal/enrich/ordering.go:8-15 | a position's level, computed from the output, is the length of the longest chain of present dependencies |
| OrderLevels.GroupedByLevel | internal/enrich/ordering.go:106-137 | the output runs level by level |
| OrderLevels.InputOrderIff | internal/enrich/ordering.go:8-15 | every level runs in input order if and only if, of any two enrichers on one level, the earlier one's last dependency on the level below is no later in the input than the other's |
| OrderLevels.LevelsAreNotInInputOrder | internal/enrich/ordering.go:8-15 | an input whose output has two enrichers of level 1 against their input order |
| OrderLevels.StuckInInputOrder | internal/enrich/ordering.go:143-156 | the cycle report names enrichers in input order, each once |
| OrderLevels.DownstreamIsNamed | internal/enrich/ordering.go:139-142 | an enricher that is on no cycle and is named, because it depends on one that is |
| Ordering.TopoSort | internal/enrich/ordering.go:35-57 | sorted if and only if names are distinct and nothing reaches a cycle, and then in the one admissible order; otherwise the duplicate, or exactly the names on or downstream of a cycle |
| Dedup.UnionByKey | internal/enrich/dedup/dedup.go:333-380 | the union of two lists keeps the first element of each non-blank key, in order |
| Dedup.DistinctIs | internal/enrich/dedup/dedup.go:333-380 | what the union keeps are the elements at the first positions of their non-blank keys, in order |
| Dedup.MergedLocationsAre | internal/enrich/dedup/dedup.go:317-329 | the primary's locations stay in front, and the paths are those of both sides |
| Dedup.AddedPathsAreNew | internal/enrich/dedup/dedup.go:317-329 | no added location has a path that is there already |
| Dedup.MergeEvidence | internal/enrich/dedup/dedup.go:302-331 | the primary's evidence, completed by the secondary's where blank, with locations of new paths appended |
| Dedup.MergeProperties | internal/enrich/dedup/dedup.go:382-399 | the secondary's properties are added in some order, a conflicting value under a breadcrumb |
| Dedup.PrimaryPropertyWins | internal/enrich/dedup/dedup.go:382-399 | outside the enricher's own namespace the primary's value wins for every walk order, and no other key appears or disappears |
| Dedup.MergePair | internal/enrich/dedup/dedup.go:256-300 | all fields of the merged component, stamps and layer included, for some order of the property walk |
| DedupMerge.MergedFields | internal/enrich/dedup/dedup.go:256-300 | identity fields are the primary's; method and confidence are the secondary's only where the primary has none; the layer is the primary's if it has one, and the index of a differing second layer is recorded |
| DedupMerge.LosingValueIsKept | internal/enrich/dedup/dedup.go:382-399 | a property value that loses to the primary's is kept under its conflict breadcrumb, for every walk order |
| DedupMerge.MergeConservesFacts | internal/enrich/dedup/dedup.go:256-300 | paths, hashes, CPEs and licenses of the result are exactly those of both sides up to the code's own keys, without repeats |
| DedupMerge.UnionKeepsFirstCpe | internal/enrich/dedup/dedup.go:350-362 | dropping blanks and repeats never changes which CPE comes first |
| DedupMerge.UnionKeepsShaUnlessShadowed | internal/enrich/dedup/dedup.go:333-348 | a union finds the same first SHA-256 unless an earlier hash of another algorithm has its key, and then that one is lost |
| DedupMerge.MergeKeepsKeyIff | internal/enrich/dedup/dedup.go:157-174 | merging two components of one key gives that key back if and only if the primary's key does not rest on a shadowed SHA-256 |
| DedupMerge.PlainAlgorithmsAreUnshadowed | internal/enrich/dedup/dedup.go:333-348 | without a colon in any algorithm name no hash is shadowed |
| DedupFold.FoldConservesFacts | internal/enrich/dedup/dedup.go:125-141 | a bucket's component carries exactly the facts of the bucket's members |
| DedupFold.FoldKeepsFirstValue | internal/enrich/dedup/dedup.go:382-399 | outside the enricher's namespace each property has the value of the first member that has it |
| DedupFold.FoldCounts | internal/enrich/dedup/dedup.go:287-297 | folding n members without a count stamps n - 1 |
| DedupFold.ScanCountIs | internal/enrich/dedup/dedup.go:290-297 | an earlier count is read behind blanks and a sign, up to the first character that is no digit |
| DedupFold.FoldKeepsKeyIff | internal/enrich/dedup/dedup.go:125-141 | a bucket of two or more keeps its key if and only if its primary does not rest on a shadowed SHA-256 |
| DedupRun.PickPrimary | internal/enrich/dedup/dedup.go:220-250 | a member with the best score, and the earliest of those |
| DedupRun.MergeBucket | internal/enrich/dedup/dedup.go:125-138 | the primary with all other members merged into it in input order |
| DedupRun.FillBuckets | internal/enrich/dedup/dedup.go:94-108 | one bucket for each key, listing exactly the positions with that key in order |
| DedupRun.Run | internal/enrich/dedup/dedup.go:78-144 | one output for each unkeyed component and each first occurrence of a key, standing for its whole bucket; the count of repeated keys |
| DedupKeys.PurlIff | internal/enrich/dedup/dedup.go:180-185 | two PURLs have one canonical form if and only if they agree up to letter case in front of the first question mark, the whole text where there is none or where it stands first |
| DedupKeys.SameKeyIff | internal/enrich/dedup/dedup.go:157-212 | two components have one key if and only if they agree by PURL, by first non-blank CPE, by first SHA-256 or by type, name and version, each kind counting only where no stronger one is there, or neither has any |
| DedupKeys.NamesApart | internal/enrich/dedup/dedup.go:167-172 | without colons in type and name, components known by name agree if and only if all three fields do |
| DedupKeys.HashIff | internal/enrich/dedup/dedup.go:333-348 | two hashes are one if and only if algorithm, colon and value agree up to letter case |
| DedupKeys.LicenseIff | internal/enrich/dedup/dedup.go:364-380 | two licenses are one if and only if their trimmed expressions, or trimmed identifier, bar and name, agree up to letter case |
| Texts.LowerIff | internal/enrich/dedup/dedup.go:180-190 | lower-casing tells two texts apart if and only if they differ in more than letter case |
| Texts.TrimIff | internal/enrich/dedup/dedup.go:190 | trimming takes off the blanks at the two ends and nothing else |
| DedupIdentity.RunRepresents | internal/enrich/dedup/dedup.go:78-144 | a run puts out one component for each group of inputs that agree as above, in order of first input; it is named after the heaviest input of the group, has exactly the paths, hashes, CPEs and licenses of the group, and is the input itself where that is alone |
| DedupIdentity.DifferentPurlsStayApart | internal/enrich/dedup/dedup.go:180-185 | inputs whose PURLs differ in front of the qualifiers have different outputs, each with its own PURL |
| DedupIdentity.GroupsAreShared | internal/enrich/dedup/dedup.go:126-142 | the count of merged groups is the number of outputs that stand for two inputs or more |
| DedupLaws.FirstsCover | internal/enrich/dedup/dedup.go:112-124 | every position is stood for by an output at or before it |
| DedupLaws.FirstsAreFirst | internal/enrich/dedup/dedup.go:112-124 | keyed outputs come in first-occurrence order |
| DedupLaws.RunLength | internal/enrich/dedup/dedup.go:78-144 | the output is as long as the unkeyed components and the distinct keys together |
| DedupLaws.RunConservesFacts | internal/enrich/dedup/dedup.go:78-144 | a run neither loses nor invents a path, hash, CPE or license |
| DedupLaws.RunKeepsKeysIff | internal/enrich/dedup/dedup.go:78-144 | every output has the key of the position it stands for if and only if no repeated key has a primary with a shadowed hash |
| DedupLaws.RunKeys | internal/enrich/dedup/dedup.go:78-144 | under that condition non-empty output keys are pairwise distinct |
| DedupLaws.UnchangedIffKeysDiffer | internal/enrich/dedup/dedup.go:78-144 | nothing is dropped if and only if no key occurs twice, and then the list comes back as it is with zero merged groups |
| DedupLaws.RunIsIdempotent | internal/enrich/dedup/dedup.go:78-144 | under that condition a second run changes nothing and merges nothing |
| DedupLaws.BucketStamps | internal/enrich/dedup/dedup.go:220-300 | a bucket of n unstamped members counts n - 1, and a best-scoring earliest member's property values win |
| DedupTwice.ShadowedMergeFallsBack | internal/enrich/dedup/dedup.go:333-348 | two components of one shadowed SHA-256 merge into one keyed by name |
| DedupTwice.RunLeavesKeyTwice | internal/enrich/dedup/dedup.go:78-144 | a list that a run leaves with a key twice, so that a second run merges again |
| Lift.Sbom.IndexExisting | internal/enrich/extractor/enricher.go:279-295 | every component has a reference afterwards, and each key maps to that of its first component |
| Lift.Sbom.LiftSubComponents | internal/enrich/extractor/enricher.go:222-274 | the document after lifting, and the counts of added components and edges |
| LiftLaws.LiftFlattens | internal/enrich/extractor/enricher.go:222-274 | nothing is nested any more, and the original components keep place and content but for reference and children |
| LiftLaws.AddedKeysAreFresh | internal/enrich/extractor/enricher.go:241-252 | every added component has a key that no component before it has |
| LiftLaws.AddedArePromoted | internal/enrich/extractor/enricher.go:316-332 | every added component is a direct child of an original one, stamped with that parent's reference |
| LiftLaws.LiftedKeys | internal/enrich/extractor/enricher.go:222-274 | the keys at the top are exactly those that were at the top or directly below it |
| LiftLaws.ParentEdges | internal/enrich/extractor/enricher.go:254-270 | each parent adds one edge for each distinct component that stands for one of its keyed children, and no other |
| LiftLaws.NoDanglingEdges | internal/enrich/extractor/enricher.go:254-270 | both ends of every added edge are references of top-level components |
| LiftLaws.SecondLiftAddsNothing | internal/enrich/extractor/enricher.go:214-221 | lifting again adds no component and no edge |
| LiftDocument.RefIs | internal/enrich/extractor/enricher.go:337-353 | the reference of a component without one: its PURL, or name and version with `unknown` for a missing version, or its digest |
| LiftDocument.SharedReferenceIff | internal/enrich/extractor/enricher.go:301-353 | two keyed components get one reference if and only if their keys agree once `unknown` stands in for a missing version |
| LiftDocument.LiftedComponents | internal/enrich/extractor/enricher.go:222-332 | every original keeps its place and all fields but reference and children; behind stand children of them with their own fields, the default type, the parent's reference in a property, and a key that nothing before has; every keyed child is stood for |
| LiftDocument.LiftedEdges | internal/enrich/extractor/enricher.go:222-274 | old edges stay in front; an edge is added if and only if it leads from a parent to the first component that has the key of one of its children |
| Spdx.PropsRoundTripIff | internal/sbom/spdx/mapper.go:575-617 | a property bag survives the annotations if and only if every key is non-empty, trimmed and free of an equals sign |
| Spdx.PackageReadsBack | internal/sbom/spdx/mapper.go:205-315 | one component survives as a package in what the model keeps of it: name, version, PURL, CPEs in order, properties, origin and layer |
| Spdx.HydrationUndoesProjection | internal/sbom/spdx/mapper.go:506-572 | origin and layer come back from the reserved annotations and the properties are left as they were |
| SpdxFields.IdOf | internal/sbom/spdx/mapper.go:241-247 | a package is identified by the sanitised reference, or by name and version where there is none |
| SpdxFields.SameIdIff | internal/sbom/spdx/mapper.go:251-266 | two references become one id if and only if they differ only where both have a hyphen or a character that is not allowed |
| SpdxFields.AnnotationsAre | internal/sbom/spdx/mapper.go:499-590 | the annotations are exactly `key=value` for each property and typed field, sorted by key, a field hiding a property of its name and an empty field not written |
| SpdxFields.PackageIs | internal/sbom/spdx/mapper.go:205-236 | name, version and references of a package: the PURL, if any, in front of the CPEs in order |
| Strings.DigitsAre | internal/sbom/spdx/mapper.go:516 | numbers are written with their decimal digits, without leading zeros |
| SpdxFields.PurlIsLast | internal/sbom/spdx/mapper.go:306-312 | of several PURL references the last one is read |
| SpdxFields.CpesAre | internal/sbom/spdx/mapper.go:306-312 | all CPE references are read in order, wherever they stand |
| SpdxFields.ReadProperty | internal/sbom/spdx/mapper.go:595-617 | a property is read if and only if some comment has its name, trimmed, in front of the first equals sign; the last such comment counts |
| SpdxFields.HydratedIs | internal/sbom/spdx/mapper.go:534-572 | origin and layer come from the reserved properties, any one of the four layer properties making a layer; those are taken out and all others stay |
| SpdxFields.DocumentDescribes | internal/sbom/spdx/mapper.go:92-100 | the document describes exactly its top-level components, in their order |
| SpdxFields.WrittenAs | internal/sbom/spdx/mapper.go:370-381 | what each kind of relationship is called in a document |
| SpdxFields.ReadRelationships | internal/sbom/spdx/mapper.go:319-394 | the relationships read are the document's in order, without those that describe the document or nest one of its packages in another |
| SpdxTrees.EmitComponent | internal/sbom/spdx/mapper.go:191-203 | packages parent first, edges children first, appended to what was emitted before |
| SpdxTrees.ToSpdx | internal/sbom/spdx/mapper.go:65-117 | the whole document: packages, containment, describes and relationship edges |
| SpdxTrees.LinkRels | internal/sbom/spdx/mapper.go:319-368 | the edges take effect one after the other, a child copied as it is at that moment |
| SpdxTrees.HydrateRelationships | internal/sbom/spdx/mapper.go:319-368 | linked components with the consumed ones taken off the top, and the edges that stay relationships |
| SpdxTrees.FromSpdx | internal/sbom/spdx/mapper.go:51-61 | the document read back |
| SpdxTrees.TreeBuilds | internal/sbom/spdx/mapper.go:319-368 | the edges of one tree turn its first component into the whole tree and touch nothing else |
| SpdxTrees.ForestBuilds | internal/sbom/spdx/mapper.go:319-368 | the edges of a forest leave exactly its trees on the top level, in order |
| SpdxTrees.ForestRoundTrip | internal/sbom/spdx/mapper.go:319-368 | with distinct sanitised ids and no explicit containment, every forest of any depth comes back with its sibling order and its edges |
| SpdxTrees.LosslessRoundTrip | internal/sbom/spdx/mapper.go:51-117 | where ids and keys are well formed, too, what the model keeps of a document is read back as it was written |
| SpdxTrees.CollidingIdsLoseComponents | internal/sbom/spdx/mapper.go:241-266 | two references that sanitise to one id lose both components |
| SpdxLoss.ForestConsumes | internal/sbom/spdx/mapper.go:326-350 | the containment edges of any forest consume exactly the nested ids, colliding or not, and change nothing of a component but its children |
| SpdxLoss.TopLevelSurvivors | internal/sbom/spdx/mapper.go:319-368 | without explicit containment, the top-level components that come back are, in order, exactly those whose id no nested component has |
| SpdxLoss.NoTopLevelLossIff | internal/sbom/spdx/mapper.go:319-368 | no top-level component is lost if and only if no top-level id is also a nested one |
| SpdxLoss.HarmlessCollision | internal/sbom/spdx/mapper.go:319-368 | a forest in which a nested component and its child share an id, and which comes back all the same |
| CycloneDxDeps.RelationshipsToCdx | internal/sbom/cyclonedx/mapper.go:587-622 | one dependency for each source in order of first appearance, with its targets by type |
| CycloneDxDeps.RelationshipsFromCdx | internal/sbom/cyclonedx/mapper.go:562-585 | each dependency expands to its depends-on edges and then its provides edges |
| CycloneDxDeps.TargetsSurvive | internal/sbom/cyclonedx/mapper.go:562-622 | for each source and type the exact target sequence of depends-on and provides edges comes back; other edges do not |
| CycloneDxDeps.SecondTripChangesNothing | internal/sbom/cyclonedx/mapper.go:562-622 | after one write and read the list is a fixed point |
| CycloneDx.HydrateCpes | internal/sbom/cyclonedx/mapper.go:361-367 | the CPE properties are taken out in some order and appended; the other properties stay |
| CycloneDx.ComponentFromCdx | internal/sbom/cyclonedx/mapper.go:234-271 | what a component of any depth may be read as, for every walk order |
| CycloneDx.PropertiesReadBack | internal/sbom/cyclonedx/mapper.go:626-655 | a property map survives the sorted list |
| CycloneDx.WalkFindsCpes | internal/sbom/cyclonedx/mapper.go:361-404 | whatever the walk's order, it finds the numbered CPEs, each once |
| CycloneDx.FieldsReadBackIff | internal/sbom/cyclonedx/mapper.go:321-405 | origin, layer, properties and CPEs with the first one first survive if and only if no property has a reserved name and the first CPE is not blank |
| CycloneDx.TreeReadsBackIff | internal/sbom/cyclonedx/mapper.go:234-315 | a component tree of any depth survives if and only if every component in it meets that condition |
| CycloneDxFields.CdxIs | internal/sbom/cyclonedx/mapper.go:273-315 | what is written for a component: the first CPE in its field, and exactly its properties, typed fields and numbered further CPEs as properties, sorted by name |
| CycloneDxFields.SourcesAre | internal/sbom/cyclonedx/mapper.go:587-622 | each source once, in order of first appearance |
| CycloneDxFields.TargetsAre | internal/sbom/cyclonedx/mapper.go:587-622 | the targets of a source and type are those of its edges of that type, in their order, repeats included |
| MatcherPool.VisitKeepsScan | internal/enrich/untracked/enricher.go:472-515 | one visit keeps the scan well formed: components counted, tasks in increasing order, the limit respected |
| MatcherPool.ScanFiles | internal/enrich/untracked/enricher.go:472-515 | known components stay in front; behind them stand the kept files in order, all of them or the first so many as the limit allows; there is one task for each of them that has a digest, with its position and digest, and no other |
| MatcherPool.MatchWins | internal/enrich/untracked/enricher.go:872-891 | every field that the match has replaces the component's, every other stays; CPEs and licenses of the match go behind the component's |
| MatcherPool.ScanThenPool | internal/enrich/untracked/enricher.go:428-515 | from the files to the finished pool, in every interleaving: known components are untouched, and a kept file's component carries the match of its digest if the matcher knows it |
| MatcherPool.HitsAre | internal/enrich/untracked/enricher.go:428-467 | the hit count is the number of tasks whose digest the matcher knows |
| MatcherPool.RunKeepsInv | internal/enrich/untracked/enricher.go:428-467 | in every interleaving each task is in one place: unsent, queued, held or looked up once |
| MatcherPool.NeverStuck | internal/enrich/untracked/enricher.go:428-467 | until the pool is done some goroutine can move, in every reachable state |
| MatcherPool.PoolTerminates | internal/enrich/untracked/enricher.go:428-467 | every interleaving ends within five steps for each task, one for each worker and one for closing |
| MatcherPool.SequentialAt | internal/enrich/untracked/enricher.go:872-891 | processing tasks in turn changes each task's own component by its own match and no other |
| MatcherPool.PoolMatchesSequential | internal/enrich/untracked/enricher.go:428-467 | in every finished interleaving each task was looked up exactly once, and components and hit count are those of sequential processing |
| TokenBucket.Limiter.TryAcquire | internal/enrich/cpe/sources/nvd_api.go:426-442 | one atomic refill, cap, and take or wait |
| TokenBucket.TryKeepsValid | internal/enrich/cpe/sources/nvd_api.go:426-442 | tokens stay within zero and burst, and a wait is returned if and only if nothing is taken |
| TokenBucket.WaitingSuffices | internal/enrich/cpe/sources/nvd_api.go:409-422 | waiting the returned duration undisturbed makes the next try succeed |
| TokenBucket.WaitingIsNeeded | internal/enrich/cpe/sources/nvd_api.go:426-442 | up to the extra millisecond the wait is needed: coming back sooner is refused again |
| TokenBucket.BurstIsGranted | internal/enrich/cpe/sources/nvd_api.go:426-442 | of several tries at one instant exactly as many succeed as there are whole tokens, burst at most |
| TokenBucket.WindowBound | internal/enrich/cpe/sources/nvd_api.go:384-442 | any window grants at most burst plus what the rate brings in it, for every sequence of tries |
| RateLimit.Limiter.Refill | internal/fingerprint/matcher/ratelimit.go:96-110 | a clock that moved on brings tokens up to the cap; one that did not brings none |
| RateLimit.Limiter.Acquire | internal/fingerprint/matcher/ratelimit.go:77-94 | the polling loop takes one token at the first reading that leaves one, and none if the readings run out |
| RateLimit.AcquiresIff | internal/fingerprint/matcher/ratelimit.go:77-110 | polling takes a token if and only if by some reading of the clock the bucket has one, and never more than one |
| RateLimit.TotalBound | internal/fingerprint/matcher/ratelimit.go:53-110 | in every interleaving of refills and takes, grants since construction stay within the initial level and what the rate brought |
| RateLimit.WindowBound | internal/fingerprint/matcher/ratelimit.go:77-110 | from a state in which nobody hoards, every continuation grants at most one burst and what the rate brings in the window |
| RateLimit.WindowBoundIff | internal/fingerprint/matcher/ratelimit.go:77-86 | some continuation breaks the bound of a window that opens now if and only if a goroutine has refilled and not yet taken, a token is there, and the bucket would overflow by now |
| RateLimit.WindowBoundFails | internal/fingerprint/matcher/ratelimit.go:77-86 | from a fresh limiter of one token, a run of one goroutine, refilling and taking in turn, that grants two in a window whose bound is one |
| CachedMatcher.Matcher.Read | internal/fingerprint/matcher/cached.go:90-104 | a hit if and only if a fresh entry exists; an expired one is deleted and its key stays in line |
| CachedMatcher.Matcher.StoreEntry | internal/fingerprint/matcher/cached.go:106-124 | the entry is stored, after evicting the oldest key in line where the limit is reached |
| CachedMatcher.Matcher.Lookup | internal/fingerprint/matcher/cached.go:74-88 | answer and cache after one lookup; real failures are never stored |
| CachedMatcher.AnswersAreFreshOrRecent | internal/fingerprint/matcher/cached.go:74-104 | every answer is a fresh one, or one for the same normalised key stored at most the TTL ago and no failure, for all calls and clock readings |
| CachedMatcher.SameKeyIff | internal/fingerprint/matcher/local.go:57-59 | calls with colon-free algorithm names share a key if and only if algorithm and digest agree up to letter case and surrounding blanks |
| CachedMatcher.AnswerIsServed | internal/fingerprint/matcher/cached.go:74-124 | an answer that was looked up is served to later calls with its key as long as it is no older than the TTL and the calls since then could not fill the cache |
| CachedMatcher.NewestStay | internal/fingerprint/matcher/cached.go:106-124 | eviction is first in, first out: after any number of stores under different keys exactly the newest are there, in line in that order |
| CachedMatcher.CallsAreSteps | internal/fingerprint/matcher/cached.go:74-88 | a sequence of lookups is a run of deletions and stores |
| CachedMatcher.InterleavedEntriesWereStored | internal/fingerprint/matcher/cached.go:90-124 | in every interleaving of deletions and stores an entry is one that a store put in under its key |
| CachedMatcher.ServedAnswersAreRecent | internal/fingerprint/matcher/cached.go:74-124 | in every interleaving of the critical sections, what is served from the cache is no failure and was stored under the same key at most the TTL ago |
| CachedMatcher.CallsStoreAnswers | internal/fingerprint/matcher/cached.go:74-88 | lookups never store a failure |
| CachedMatcher.SizeBound | internal/fingerprint/matcher/cached.go:97-124 | in every interleaving of deletions and stores, at most the limit plus one entry for each deletion so far, and every entry's key is in line |
| CachedMatcher.CallsSizeBound | internal/fingerprint/matcher/cached.go:74-124 | the same after any sequence of lookups |
| CachedMatcher.StoreKeepsLimitIff | internal/fingerprint/matcher/cached.go:106-124 | from within the limit a store stays within it if and only if it does not meet a full cache whose first key in line has no entry |
| CachedMatcher.LimitHoldsIff | internal/fingerprint/matcher/cached.go:74-124 | the limit holds after every lookup of a sequence if and only if no lookup makes such a store |
| CachedMatcher.LimitCanBeExceeded | internal/fingerprint/matcher/cached.go:97-101 | four lookups with their clock readings, one of them past the TTL, that leave two entries where the limit is one |
| Candidates.DedupeCandidates | internal/enrich/cpe/confidence.go:89-134 | one candidate for each CPE in first-occurrence order, the first of the best ones, with all its sources |
| Candidates.CollapsedIs | internal/enrich/cpe/confidence.go:89-134 | a collapsed candidate is the first of highest confidence for its CPE, under the names of all producers, once each and in alphabetical order |
| Candidates.StableSortSorts | internal/enrich/cpe/confidence.go:54-58 | a permutation, highest confidence first, equal confidences in input order |
| Candidates.SortedHead | internal/enrich/cpe/confidence.go:59-66 | the head of the sorted list is the first maximum of the input |
| Candidates.Classify | internal/enrich/cpe/confidence.go:49-79 | the first maximum if it clears the primary floor, the others split in order by the alternative floor |
| Candidates.ClassifyPartitions | internal/enrich/cpe/confidence.go:49-79 | primary, alternatives and rejected contain every candidate exactly once, and a primary exists if and only if some candidate clears the floor |
| Candidates.SlateIsOrdered | internal/enrich/cpe/confidence.go:54-79 | alternatives and rejected candidates are listed highest confidence first, equal ones in input order |
| Candidates.ReasonsAre | internal/enrich/cpe/confidence.go:70-76 | every rejected candidate has a reason, its own where it came with one |
| Candidates.DefaultFloors | internal/enrich/cpe/confidence.go:28-30 | with the default thresholds 0.70 makes a primary and 0.50 an alternative |
| CpeEnrich.Component.WriteResults | internal/enrich/cpe/enricher.go:213-272 | the primary's CPE alone replaces the list, or the list stays; whether a CPE was added |
| CpeEnrich.Component.EnrichOne | internal/enrich/cpe/enricher.go:125-174 | a malformed PURL changes nothing; with a parsed one the existing CPEs and the answer decide, without one the existing CPEs alone: if any of them, valid existing names at 0.70 and others at 0.05, reaches the primary floor, the list becomes the CPE alone that is mentioned first among those of highest confidence, and stays as it is otherwise |
| CpeEnrich.WrittenIsWinner | internal/enrich/cpe/enricher.go:181-272 | the same for one slate, from existing CPEs and answer alone |
| CpeEnrich.FirstHighestIff | internal/enrich/cpe/confidence.go:89-118 | the first candidate of highest confidence is the one written if and only if no other CPE that reaches this confidence is mentioned before its own |
| CpeEnrich.WeakCopyWins | internal/enrich/cpe/confidence.go:89-118 | a slate on which it is not, because a weaker copy of another CPE comes in front |
| CpeEnrich.PrimaryStays | internal/enrich/cpe/enricher.go:125-272 | after a first run has written its primary, the second run's primary is the same CPE |
| CpeEnrich.RerunKeepsCpes | internal/enrich/cpe/enricher.go:125-272 | enriching twice leaves the list of the first time, for every answer and every threshold |
| CpeEnrich.PrimaryIff | internal/enrich/cpe/confidence.go:49-118 | collapsing duplicates never changes whether there is a primary |
| MultiSource.RegisteredIsSorted | internal/enrich/cpe/sources/multi.go:51-78 | highest priority first, equal priorities in the order given, and exactly the sources that the mode admits |
| MultiSource.AdmittedAre | internal/enrich/cpe/sources/multi.go:51-78 | offline mode lets in exactly the sources that need no network, in their order, and the other modes all |
| MultiSource.Resolver.Resolve | internal/enrich/cpe/sources/multi.go:119-152 | answer, cache and the sources asked for one request |
| MultiSource.WalkIs | internal/enrich/cpe/sources/multi.go:119-152 | all sources are asked in order, except in hybrid mode those on the network behind an offline answer of 0.70 or more; the answer is theirs one behind the other, failures aside |
| MultiSource.OfflineStaysOffline | internal/enrich/cpe/sources/multi.go:51-78 | offline mode never asks a network source |
| MultiSource.HybridVersusOnline | internal/enrich/cpe/sources/multi.go:119-152 | hybrid mode leaves sources out only after an offline one was good enough, and its candidates are a subsequence of online's |
| MultiSource.HybridFindsPrimaryIffOnlineDoes | internal/enrich/cpe/sources/multi.go:119-175 | with the default threshold hybrid mode yields a primary if and only if online mode does |
| MultiSource.KeyIsInjective | internal/enrich/cpe/sources/multi.go:157-160 | without a bar in the four parts the key tells PURLs apart |
| MultiSource.CacheIsSafeIff | internal/enrich/cpe/sources/multi.go:119-160 | the cache changes no answer, whatever sources that look at the four parts are registered, if and only if requests that share a key are for the same package |
| MultiSource.BarFreeIsTransparent | internal/enrich/cpe/sources/multi.go:119-160 | requests without a bar in their parts get the uncached answers |
| MultiSource.CacheCanAnswerWrongly | internal/enrich/cpe/sources/multi.go:157-160 | two requests of which the second is answered with the first package's candidates |
| CpeNames.ParseUndoesToString | internal/enrich/cpe/cpe.go:53-103 | formatting then parsing works if and only if attributes are colon-free and the part is known or empty; empty attributes become the wildcard |
| CpeNames.ReadsBack | internal/enrich/cpe/cpe.go:53-127 | what is read back attribute by attribute, the wildcard for an empty one |
| CpeNames.ValidIff | internal/enrich/cpe/cpe.go:84-103 | a name is accepted if and only if it is the prefix and eleven colon-free attributes, the first of them a known part |
| CpeNames.ToStringUndoesParse | internal/enrich/cpe/cpe.go:53-103 | parsing then formatting gives the name back if and only if no attribute is empty |
| Purls.ParseUndoesToString | internal/enrich/cpe/purl.go:27-116 | parsing what was printed gives the same PURL if and only if it has no qualifiers or subpath, its type is lower-case, no part holds a delimiter that would cut it, and percent-decoding changes neither name nor namespace |
| Purls.EscapeFreeIsUndecoded | internal/enrich/cpe/purl.go:92-97 | without a percent sign decoding changes nothing |
| Purls.ParsesParts | internal/enrich/cpe/purl.go:27-87 | a text with a slash is read part by part: version behind the first at sign, query behind the last question mark, subpath behind the last hash, the type in lower case, the last segment as name and the others as namespace, decoded one by one; without a last segment nothing is read |
| Purls.NoSlashNoPurl | internal/enrich/cpe/purl.go:64-68 | a text without a slash in front of its version is not read |
| Purls.FirstEscape | internal/enrich/cpe/purl.go:92-97 | an escape is the character that its two hexadecimal digits spell |
| Purls.BadEscape | internal/enrich/cpe/purl.go:92-97 | a percent sign without two hexadecimal digits behind it leaves the whole segment as it is |
| Purls.ParseShrinks | internal/enrich/cpe/purl.go:27-87 | what is read from a text prints no longer than the text, and shorter where a query or subpath was cut off |
| JsonDetect.Decoder.SkipJsonValue | internal/sbom/format.go:227-254 | skipping terminates on every token stream and stops where the specification does |
| JsonDetect.Decoder.ClassifyTopLevelKey | internal/sbom/format.go:181-211 | verdict or position after one key, truncation included |
| JsonDetect.DetectJson | internal/sbom/format.go:138-174 | the verdict on a token stream |
| JsonDetect.SkipsOneValue | internal/sbom/format.go:213-226 | exactly one complete value is consumed, whatever its nesting |
| JsonDetect.DetectsVerdict | internal/sbom/format.go:138-254 | the detector computes the verdict of the walk on every stack of opened containers |
| JsonDetect.DocumentVerdictIs | internal/sbom/format.go:138-254 | the verdict on every document, markers that hold objects or arrays included |
| JsonDetect.FirstVerdictIs | internal/sbom/format.go:181-211 | the top level says the format of its first field `bomFormat` with the text CycloneDX in any letter case, or `spdxVersion` with a text that is not empty |
| JsonDetect.PlainDocument | internal/sbom/format.go:138-211 | where no marker holds an object or an array, that is the verdict on the document |
| JsonDetect.TopLevelDecidesIff | internal/sbom/format.go:138-211 | the first decisive top-level marker decides if and only if no marker before it opens a container, or what the walk finds from inside the first such container is what the fields behind it decide |
| JsonDetect.ObjectMarkersDecideIff | internal/sbom/format.go:181-204 | where markers hold no arrays the walk goes down into a marker's object for good, and the top level decides if and only if the first such object, read in the same way, decides what the fields behind it decide |
| JsonDetect.NestedMarkerMisleads | internal/sbom/format.go:181-204 | a document on which a marker's nested object decides |
| JsonDetect.TruncationKeepsVerdict | internal/sbom/format.go:129-137 | a verdict other than unknown on a truncated stream is the verdict on the whole |

## Left out

- Network clients, registries, signatures, command line, logging, metrics and renderers: input and output around libraries.
- Tar, gzip, JSON, XML and zip decoding: the model starts from entries, tokens and structures; stream errors in the middle of a layer are not modelled.
- Context cancellation and timeouts, except where the rate limiter's clock readings run out.
- Binary extractors, manifest readers, license and product tables, NVD score weights, lifecycle rules: lookups without a deep invariant.
- The path classifier's trie and the cluster detector: their files are not part of this model.
- Layer histories (`CreatedBy`, Dockerfile lines) and the digest lookup that fills the layer table; a layer carries its digest or none.
- `SkipLayer`, which the visitor's comment mentions, does not exist in the code and therefore not in the model.
- BuildBaseSet: the visitor collects its additions and the index is filled afterwards, with the same order of additions.
- Bloom: a 64-bit word is modelled as the set of its one bits.
- Components in trees and lists are values; aliasing of property maps and slices between a component and its copy is not captured.
- Fields that no property needs: hashes, licenses, supplier, evidence and descriptive fields in the SPDX and CycloneDX mappers, document metadata, creation info.
- Absent and empty lists or maps are the same in the model.
- Letter case and white space are those of ASCII.
- Dedup: a count that does not fit the machine word, or with a line break in front, reads as zero in the source.
- Strings.Atoi: numbers that overflow the machine word are errors in the source.
- CPE properties (`source`, `alternative:N`, validation stamps) and `astinus:*` breadcrumbs that no property mentions; the former are not stable when the enricher runs again.
- JSON: a window that ends inside a number is taken to end before it, and syntax errors count as the end of the stream.
- The stable library sort is modelled as stable insertion.
- Lift: the digest that names a component without PURL and name is a parameter.
- DedupLaws.RunIsIdempotent: one direction; where a key is lost, a second run may or may not find something to merge, depending on what the component falls back to.
- Bloom.Filter.constructor: bit count and hash count come as parameters, because the capacity formulas work on floating-point logarithms.
- CachedMatcher.Matcher.Lookup: one call is one step; the gap between the check under the read lock and the deletion is covered by the theorems about interleaved deletions and stores, in which any entry may be deleted at any time.
- Spdx.PackageReadsBack: type, hashes, licenses, supplier and evidence are outside the component model; the reader sets every type to library.
- SpdxTrees.LosslessRoundTrip: equality is over the same fields.
- SpdxTrees.ForestRoundTrip: distinct ids suffice for the subtrees; with colliding ids the model says which top-level components survive, not exactly when everything below them does.
- JsonDetect.TopLevelDecidesIff: where a marker holds an array, the condition is about the walk through the document's structure, which is no shorter than that walk.
