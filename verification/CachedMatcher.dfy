/**
  The TTL cache in front of a fingerprint matcher
  (internal/fingerprint/matcher/cached.go). Time is in seconds.
*/
module CachedMatcher {
  import opened Strings
  import opened Texts

  /** What a lookup answers: a match, "no match", or a real failure. */
  datatype Answer = Found(name: string) | NoMatch | Failed(error: string)

  datatype Entry = Entry(answer: Answer, insert: real)

  /** drops counts the entries deleted because they had expired. */
  datatype Cache = Cache(ttl: real, maxEntries: nat, entries: map<string, Entry>, order: seq<string>, drops: nat)

  function LocalKey(algorithm: string, digest: string): string {
    Lower(TrimSpace(algorithm)) + ":" + Lower(TrimSpace(digest))
  }

  // ----- The two ways the cache changes -----

  /** Deleting an expired entry leaves its key in the order list. */
  function Drop(c: Cache, key: string): Cache {
    if key in c.entries then c.(entries := c.entries - {key}, drops := c.drops + 1) else c
  }

  function Store(c: Cache, key: string, entry: Entry): Cache {
    if key in c.entries then c.(entries := c.entries[key := entry])
    else if |c.entries| >= c.maxEntries && c.order != [] then
      c.(entries := (c.entries - {c.order[0]})[key := entry], order := c.order[1..] + [key])
    else
      c.(entries := c.entries[key := entry], order := c.order + [key])
  }

  predicate Fresh(c: Cache, key: string, now: real) {
    key in c.entries && now - c.entries[key].insert <= c.ttl
  }

  // ----- One call -----

  /** inner is what the wrapped matcher would answer; the clock is read on entry and again before storing. */
  datatype Call = Call(algorithm: string, digest: string, inner: Answer, readAt: real, storedAt: real)

  function KeyOf(call: Call): string {
    LocalKey(call.algorithm, call.digest)
  }

  function LookupSpec(c: Cache, call: Call): (Cache, Answer) {
    var key := KeyOf(call);
    if Fresh(c, key, call.readAt) then (c, c.entries[key].answer)
    else if call.inner.Failed? then (Drop(c, key), call.inner)
    else (Store(Drop(c, key), key, Entry(call.inner, call.storedAt)), call.inner)
  }

  class Matcher {
    const ttl: real
    const maxEntries: nat
    var entries: map<string, Entry>
    var order: seq<string>
    ghost var drops: nat

    ghost function Value(): Cache
      reads this
    {
      Cache(ttl, maxEntries, entries, order, drops)
    }

    constructor (ttl: real, maxEntries: int)
      ensures Value() == Empty(if ttl <= 0.0 then 3600.0 else ttl, if maxEntries <= 0 then 4096 else maxEntries)
    {
      this.ttl := if ttl <= 0.0 then 3600.0 else ttl;
      this.maxEntries := if maxEntries <= 0 then 4096 else maxEntries;
      entries, order, drops := map[], [], 0;
    }

    method Read(key: string, now: real) returns (entry: Entry, ok: bool)
      modifies this
      ensures ok <==> Fresh(old(Value()), key, now)
      ensures ok ==> entry == old(entries)[key]
      ensures Value() == if ok then old(Value()) else Drop(old(Value()), key)
    {
      entry, ok := Entry(NoMatch, 0.0), false;
      if key in entries {
        entry := entries[key];
        if now - entry.insert > ttl {
          entries := entries - {key};
          drops := drops + 1;
        } else {
          ok := true;
        }
      }
    }

    method StoreEntry(key: string, entry: Entry)
      modifies this
      ensures Value() == Store(old(Value()), key, entry)
    {
      if key !in entries {
        if |entries| >= maxEntries && |order| > 0 {
          var oldest := order[0];
          order := order[1..];
          entries := entries - {oldest};
        }
        order := order + [key];
      }
      entries := entries[key := entry];
    }

    method Lookup(call: Call) returns (answer: Answer)
      modifies this
      ensures (Value(), answer) == LookupSpec(old(Value()), call)
    {
      var key := LocalKey(call.algorithm, call.digest);
      var entry, ok := Read(key, call.readAt);
      if ok {
        return entry.answer;
      }
      if call.inner.Failed? {
        return call.inner;
      }
      StoreEntry(key, Entry(call.inner, call.storedAt));
      return call.inner;
    }
  }

  function Empty(ttl: real, maxEntries: nat): Cache {
    Cache(ttl, maxEntries, map[], [], 0)
  }

  // ----- What a sequence of calls can answer -----

  function After(c: Cache, calls: seq<Call>): Cache {
    if calls == [] then c else LookupSpec(After(c, calls[..|calls| - 1]), calls[|calls| - 1]).0
  }

  /** entry was stored by one of the calls, for this key, and is no real error. */
  ghost predicate StoredBy(calls: seq<Call>, key: string, entry: Entry) {
    exists j :: 0 <= j < |calls| && KeyOf(calls[j]) == key && entry == Entry(calls[j].inner, calls[j].storedAt) && !calls[j].inner.Failed?
  }

  lemma StoredByLonger(calls: seq<Call>, call: Call, key: string, entry: Entry)
    requires StoredBy(calls, key, entry)
    ensures StoredBy(calls + [call], key, entry)
  {
    var j :| 0 <= j < |calls| && KeyOf(calls[j]) == key && entry == Entry(calls[j].inner, calls[j].storedAt) && !calls[j].inner.Failed?;
    assert (calls + [call])[j] == calls[j];
  }

  /** A call leaves entries as they are, removes some, and at most puts in its own answer under its own key. */
  lemma CallStoresOne(c: Cache, call: Call)
    ensures var after := LookupSpec(c, call).0;
      && after.ttl == c.ttl
      && forall key :: key in after.entries ==>
           || (key in c.entries && after.entries[key] == c.entries[key])
           || (key == KeyOf(call) && !call.inner.Failed? && after.entries[key] == Entry(call.inner, call.storedAt))
  {
    hide KeyOf, Drop, Store;
    DropKeeps(c, KeyOf(call));
    StoreKeeps(Drop(c, KeyOf(call)), KeyOf(call), Entry(call.inner, call.storedAt));
  }

  lemma DropKeeps(c: Cache, key: string)
    ensures Drop(c, key).ttl == c.ttl
    ensures forall k :: k in Drop(c, key).entries ==> k in c.entries && Drop(c, key).entries[k] == c.entries[k]
  {
  }

  lemma StoreKeeps(c: Cache, key: string, entry: Entry)
    ensures Store(c, key, entry).ttl == c.ttl
    ensures forall k :: k in Store(c, key, entry).entries ==>
      || (k in c.entries && Store(c, key, entry).entries[k] == c.entries[k])
      || (k == key && Store(c, key, entry).entries[k] == entry)
  {
  }

  lemma {:induction false} EntriesWereStored(ttl: real, maxEntries: nat, calls: seq<Call>)
    ensures After(Empty(ttl, maxEntries), calls).ttl == ttl
    ensures forall key :: key in After(Empty(ttl, maxEntries), calls).entries ==>
      StoredBy(calls, key, After(Empty(ttl, maxEntries), calls).entries[key])
  {
    hide KeyOf, StoredBy, LookupSpec;
    if calls != [] {
      var front, last := calls[..|calls| - 1], calls[|calls| - 1];
      EntriesWereStored(ttl, maxEntries, front);
      CallStoresOne(After(Empty(ttl, maxEntries), front), last);
      var before, after := After(Empty(ttl, maxEntries), front), After(Empty(ttl, maxEntries), calls);
      assert calls == front + [last];
      forall key | key in after.entries ensures StoredBy(calls, key, after.entries[key]) {
        if key in before.entries && after.entries[key] == before.entries[key] {
          StoredByLonger(front, last, key, before.entries[key]);
        } else {
          JustStored(front, last);
        }
      }
    }
  }

  lemma JustStored(calls: seq<Call>, call: Call)
    requires !call.inner.Failed?
    ensures StoredBy(calls + [call], KeyOf(call), Entry(call.inner, call.storedAt))
  {
    assert (calls + [call])[|calls|] == call;
  }

  /**
    For every sequence of calls and clock readings, the next answer is the inner matcher's own,
    or one that an earlier call for the same normalised key stored at most ttl ago; a real
    error is never served from the cache.
  */
  lemma AnswersAreFreshOrRecent(ttl: real, maxEntries: nat, calls: seq<Call>, call: Call)
    ensures var answer := LookupSpec(After(Empty(ttl, maxEntries), calls), call).1;
      || answer == call.inner
      || (!answer.Failed? && exists j ::
           && 0 <= j < |calls| && KeyOf(calls[j]) == KeyOf(call)
           && answer == calls[j].inner && call.readAt - calls[j].storedAt <= ttl)
  {
    EntriesWereStored(ttl, maxEntries, calls);
    var c := After(Empty(ttl, maxEntries), calls);
    if Fresh(c, KeyOf(call), call.readAt) {
      assert StoredBy(calls, KeyOf(call), c.entries[KeyOf(call)]);
    }
  }

  // ----- When an answer comes from the cache -----

  /** Calls share a key exactly if they name the same algorithm and digest, up to case and surrounding blanks. */
  lemma SameKeyIff(a: Call, b: Call)
    requires ':' !in a.algorithm && ':' !in b.algorithm
    ensures KeyOf(a) == KeyOf(b) <==> SameTrimmed(a.algorithm, b.algorithm) && SameTrimmed(a.digest, b.digest)
  {
    SameTrimmedIff(a.algorithm, b.algorithm);
    SameTrimmedIff(a.digest, b.digest);
    TrimKeeps(a.algorithm, ':');
    TrimKeeps(b.algorithm, ':');
    var x, y := Lower(TrimSpace(a.algorithm)), Lower(TrimSpace(b.algorithm));
    assert KeyOf(a) == x + [':'] + Lower(TrimSpace(a.digest)) && KeyOf(b) == y + [':'] + Lower(TrimSpace(b.digest));
    LowerKeeps(TrimSpace(a.algorithm), ':');
    LowerKeeps(TrimSpace(b.algorithm), ':');
    hide Lower, TrimSpace, SameTrimmed;
    IndexOfFirst(x, ':', Lower(TrimSpace(a.digest)));
    IndexOfFirst(y, ':', Lower(TrimSpace(b.digest)));
    if KeyOf(a) == KeyOf(b) {
      assert KeyOf(a)[..|x|] == x && KeyOf(b)[..|y|] == y;
      assert KeyOf(a)[|x| + 1..] == Lower(TrimSpace(a.digest)) && KeyOf(b)[|y| + 1..] == Lower(TrimSpace(b.digest));
    }
  }

  lemma TrimKeeps(s: string, c: char)
    requires c !in s
    ensures c !in TrimSpace(s)
  {
    TrimIff(s, TrimSpace(s));
    var i, j :| 0 <= i <= j <= |s| && Between(s, TrimSpace(s), i, j);
  }

  lemma LowerKeeps(s: string, c: char)
    requires c !in s && !('a' <= c <= 'z')
    ensures c !in Lower(s)
  {
    forall i | 0 <= i < |s| ensures Lower(s)[i] != c {
      assert s[i] in s;
    }
  }

  /** The entry of the key is there, and whatever else is in the cache leaves room for n more. */
  ghost predicate HeldWithRoom(c: Cache, key: string, entry: Entry, n: nat) {
    key in c.entries && c.entries[key] == entry && |c.entries| + n <= c.maxEntries
  }

  lemma CallKeepsHeld(c: Cache, key: string, entry: Entry, n: nat, call: Call)
    requires HeldWithRoom(c, key, entry, n + 1)
    requires KeyOf(call) == key ==> call.readAt - entry.insert <= c.ttl
    ensures HeldWithRoom(LookupSpec(c, call).0, key, entry, n)
    ensures LookupSpec(c, call).0.ttl == c.ttl && LookupSpec(c, call).0.maxEntries == c.maxEntries
  {
    hide KeyOf;
    var k := KeyOf(call);
    if !Fresh(c, k, call.readAt) {
      RemoveCount(c.entries, k);
      var d := Drop(c, k);
      assert |d.entries| <= |c.entries|;
      if !call.inner.Failed? {
        AddCount(d.entries, k, Entry(call.inner, call.storedAt));
      }
    }
  }

  lemma {:induction false} CallsKeepRoom(c: Cache, key: string, entry: Entry, calls: seq<Call>, n: nat)
    requires HeldWithRoom(c, key, entry, |calls| + n)
    requires forall k :: 0 <= k < |calls| && KeyOf(calls[k]) == key ==> calls[k].readAt - entry.insert <= c.ttl
    ensures HeldWithRoom(After(c, calls), key, entry, n)
    ensures After(c, calls).ttl == c.ttl && After(c, calls).maxEntries == c.maxEntries
  {
    hide HeldWithRoom, KeyOf, LookupSpec;
    if calls != [] {
      var front, last := calls[..|calls| - 1], calls[|calls| - 1];
      CallsKeepRoom(c, key, entry, front, n + 1);
      CallKeepsHeld(After(c, front), key, entry, n, last);
    }
  }

  /**
    An answer that was looked up afresh is served to a later call for the same key, without asking again,
    as long as it is no older than the TTL and the calls since then could not fill the cache.
  */
  lemma AnswerIsServed(c: Cache, first: Call, calls: seq<Call>, second: Call)
    requires !Fresh(c, KeyOf(first), first.readAt) && !first.inner.Failed?
    requires |c.entries| + 1 + |calls| <= c.maxEntries
    requires KeyOf(second) == KeyOf(first) && second.readAt - first.storedAt <= c.ttl
    requires forall k :: 0 <= k < |calls| && KeyOf(calls[k]) == KeyOf(first) ==> calls[k].readAt - first.storedAt <= c.ttl
    ensures LookupSpec(c, first).1 == first.inner
    ensures LookupSpec(After(LookupSpec(c, first).0, calls), second) == (After(LookupSpec(c, first).0, calls), first.inner)
  {
    hide KeyOf;
    var key, entry := KeyOf(first), Entry(first.inner, first.storedAt);
    var d := Drop(c, key);
    RemoveCount(c.entries, key);
    AddCount(d.entries, key, entry);
    CallsKeepRoom(LookupSpec(c, first).0, key, entry, calls, 0);
  }

  // ----- How large the cache gets, for every interleaving of its critical sections -----

  datatype Step = DropStep(key: string) | StoreStep(key: string, entry: Entry)

  function Next(c: Cache, s: Step): Cache {
    match s
    case DropStep(key) => Drop(c, key)
    case StoreStep(key, entry) => Store(c, key, entry)
  }

  function Run(c: Cache, steps: seq<Step>): Cache {
    if steps == [] then c else Next(Run(c, steps[..|steps| - 1]), steps[|steps| - 1])
  }

  /** Keys in order that have no entry any more are paid for by expiry deletions, and so is every entry above the limit. */
  ghost predicate Accounted(c: Cache) {
    && c.maxEntries >= 1
    && (forall key :: key in c.entries ==> key in c.order)
    && |c.order| - |c.entries| <= c.drops
    && |c.entries| - c.maxEntries <= c.drops - (|c.order| - |c.entries|)
  }

  lemma SameCount(m: map<string, Entry>, key: string, entry: Entry)
    requires key in m
    ensures |m[key := entry]| == |m|
  {
    var same := m[key := entry];
    assert same.Keys == m.Keys;
    assert |m| == |m.Keys| && |same| == |same.Keys|;
  }

  lemma RemoveCount(m: map<string, Entry>, key: string)
    ensures |m - {key}| == |m| - if key in m then 1 else 0
  {
    var rest := m - {key};
    if key in m {
      assert m.Keys == rest.Keys + {key};
    } else {
      assert rest == m;
    }
    assert |m| == |m.Keys| && |rest| == |rest.Keys|;
  }

  lemma {:induction false} KeysFit(keys: set<string>, order: seq<string>)
    requires forall key :: key in keys ==> key in order
    ensures |keys| <= |order|
  {
    if order != [] {
      KeysFit(keys - {order[0]}, order[1..]);
      assert order == [order[0]] + order[1..];
    } else {
      assert keys == {};
    }
  }

  lemma StoreAccounts(c: Cache, key: string, entry: Entry)
    requires Accounted(c)
    ensures Accounted(Store(c, key, entry))
  {
    if key in c.entries {
      SameCount(c.entries, key, entry);
    } else if |c.entries| >= c.maxEntries && c.order != [] {
      var oldest := c.order[0];
      RemoveCount(c.entries, oldest);
      AddCount(c.entries - {oldest}, key, entry);
      assert c.order == [oldest] + c.order[1..];
    } else {
      AddCount(c.entries, key, entry);
      if c.order == [] {
        assert c.entries == map[];
      }
    }
  }

  lemma StepAccounts(c: Cache, s: Step)
    requires Accounted(c)
    ensures Accounted(Next(c, s))
  {
    match s
    case DropStep(key) => RemoveCount(c.entries, key);
    case StoreStep(key, entry) => StoreAccounts(c, key, entry);
  }

  lemma {:induction false} RunAccounts(c: Cache, steps: seq<Step>)
    requires Accounted(c)
    ensures Accounted(Run(c, steps)) && Run(c, steps).maxEntries == c.maxEntries
  {
    hide Accounted;
    if steps != [] {
      RunAccounts(c, steps[..|steps| - 1]);
      StepAccounts(Run(c, steps[..|steps| - 1]), steps[|steps| - 1]);
    }
  }

  /** At most maxEntries entries plus one for each expiry deletion so far, and every entry is in line for eviction. */
  lemma SizeBound(ttl: real, maxEntries: nat, steps: seq<Step>)
    requires maxEntries >= 1
    ensures var c := Run(Empty(ttl, maxEntries), steps);
      && |c.entries| <= maxEntries + c.drops
      && forall key :: key in c.entries ==> key in c.order
  {
    RunAccounts(Empty(ttl, maxEntries), steps);
    var c := Run(Empty(ttl, maxEntries), steps);
    KeysFit(c.entries.Keys, c.order);
    assert |c.entries| == |c.entries.Keys|;
  }

  // ----- Calls as steps -----

  /** What a call does to the cache: at most one deletion, then at most one store. */
  function StepsOf(c: Cache, call: Call): seq<Step> {
    var key := KeyOf(call);
    if Fresh(c, key, call.readAt) then []
    else if call.inner.Failed? then [DropStep(key)]
    else [DropStep(key), StoreStep(key, Entry(call.inner, call.storedAt))]
  }

  lemma {:induction false} RunConcat(c: Cache, a: seq<Step>, b: seq<Step>)
    ensures Run(c, a + b) == Run(Run(c, a), b)
    decreases |b|
  {
    hide Next;
    if b == [] {
      assert a + b == a;
    } else {
      assert (a + b)[..|a + b| - 1] == a + b[..|b| - 1];
      RunConcat(c, a, b[..|b| - 1]);
    }
  }

  lemma CallIsSteps(c: Cache, call: Call)
    ensures LookupSpec(c, call).0 == Run(c, StepsOf(c, call))
  {
    hide KeyOf, Drop, Store, Fresh;
    var steps := StepsOf(c, call);
    if |steps| > 1 {
      assert steps[..1] == [steps[0]] && steps[..1][..0] == [];
      assert Run(c, steps[..1]) == Next(c, steps[0]);
    } else if |steps| == 1 {
      assert steps[..0] == [];
    }
  }

  function AllSteps(c: Cache, calls: seq<Call>): seq<Step> {
    if calls == [] then []
    else AllSteps(c, calls[..|calls| - 1]) + StepsOf(After(c, calls[..|calls| - 1]), calls[|calls| - 1])
  }

  /** A sequence of calls is a run of deletions and stores. */
  lemma {:induction false} CallsAreSteps(c: Cache, calls: seq<Call>)
    ensures After(c, calls) == Run(c, AllSteps(c, calls))
  {
    hide LookupSpec, StepsOf;
    if calls != [] {
      var front := calls[..|calls| - 1];
      CallsAreSteps(c, front);
      CallIsSteps(After(c, front), calls[|calls| - 1]);
      RunConcat(c, AllSteps(c, front), StepsOf(After(c, front), calls[|calls| - 1]));
    }
  }

  /** After any sequence of calls: the limit plus one entry for each expiry deletion, and no entry out of line. */
  lemma CallsSizeBound(ttl: real, maxEntries: nat, calls: seq<Call>)
    requires maxEntries >= 1
    ensures var c := After(Empty(ttl, maxEntries), calls);
      && |c.entries| <= maxEntries + c.drops
      && forall key :: key in c.entries ==> key in c.order
  {
    CallsAreSteps(Empty(ttl, maxEntries), calls);
    SizeBound(ttl, maxEntries, AllSteps(Empty(ttl, maxEntries), calls));
  }

  // ----- When the limit holds -----

  /** The store evicts a key that is no longer there: the cache is full and the head of the line has no entry any more. */
  predicate EvictsNothing(c: Cache, key: string) {
    && key !in c.entries && |c.entries| >= c.maxEntries
    && (c.order == [] || c.order[0] !in c.entries)
  }

  /** From within the limit, a store stays within it exactly unless it evicts nothing. */
  lemma StoreKeepsLimitIff(c: Cache, key: string, entry: Entry)
    requires |c.entries| <= c.maxEntries
    ensures |Store(c, key, entry).entries| <= c.maxEntries <==> !EvictsNothing(c, key)
  {
    if key in c.entries {
      SameCount(c.entries, key, entry);
    } else if |c.entries| >= c.maxEntries && c.order != [] {
      RemoveCount(c.entries, c.order[0]);
      AddCount(c.entries - {c.order[0]}, key, entry);
    } else {
      AddCount(c.entries, key, entry);
    }
  }

  lemma AddCount(m: map<string, Entry>, key: string, entry: Entry)
    requires key !in m
    ensures |m[key := entry]| == |m| + 1
  {
    var more := m[key := entry];
    assert more.Keys == m.Keys + {key};
    assert |m| == |m.Keys| && |more| == |more.Keys|;
  }

  /** The call misses, has an answer to store, and its store evicts nothing. */
  predicate Overflows(c: Cache, call: Call) {
    && !Fresh(c, KeyOf(call), call.readAt) && !call.inner.Failed?
    && EvictsNothing(Drop(c, KeyOf(call)), KeyOf(call))
  }

  lemma CallKeepsLimitIff(c: Cache, call: Call)
    requires |c.entries| <= c.maxEntries
    ensures |LookupSpec(c, call).0.entries| <= c.maxEntries <==> !Overflows(c, call)
    ensures LookupSpec(c, call).0.maxEntries == c.maxEntries
  {
    var key := KeyOf(call);
    hide KeyOf;
    RemoveCount(c.entries, key);
    StoreKeepsLimitIff(Drop(c, key), key, Entry(call.inner, call.storedAt));
  }

  ghost predicate StaysWithinLimit(c: Cache, calls: seq<Call>) {
    |After(c, calls).entries| <= c.maxEntries && (calls == [] || StaysWithinLimit(c, calls[..|calls| - 1]))
  }

  ghost predicate NeverOverflows(c: Cache, calls: seq<Call>) {
    calls == [] ||
    (NeverOverflows(c, calls[..|calls| - 1]) && !Overflows(After(c, calls[..|calls| - 1]), calls[|calls| - 1]))
  }

  /** The limit holds after every call of a sequence exactly when no call stores into a full cache whose head of the line has no entry. */
  lemma {:induction false} LimitHoldsIff(c: Cache, calls: seq<Call>)
    requires |c.entries| <= c.maxEntries
    ensures StaysWithinLimit(c, calls) <==> NeverOverflows(c, calls)
    ensures After(c, calls).maxEntries == c.maxEntries
  {
    hide LookupSpec, Overflows;
    if calls != [] {
      var front := calls[..|calls| - 1];
      LimitHoldsIff(c, front);
      if StaysWithinLimit(c, front) {
        CallKeepsLimitIff(After(c, front), calls[|calls| - 1]);
      } else {
        SameLimit(After(c, front), calls[|calls| - 1]);
      }
    }
  }

  lemma SameLimit(c: Cache, call: Call)
    ensures LookupSpec(c, call).0.maxEntries == c.maxEntries
  {
  }

  // ----- The limit exceeded -----

  lemma PlainKey(digest: string)
    requires Trimmed(digest)
    ensures |LocalKey("", digest)| == |digest| + 1
  {
    TrimSpaceFixes(digest);
    TrimSpaceFixes("");
  }

  lemma AfterSnoc(c: Cache, calls: seq<Call>, call: Call)
    ensures After(c, calls + [call]) == LookupSpec(After(c, calls), call).0
  {
    assert (calls + [call])[..|calls|] == calls;
  }

  lemma StoresFirst(digest: string, found: Answer)
    requires !found.Failed?
    ensures var key := LocalKey("", digest);
      LookupSpec(Empty(1.0, 1), Call("", digest, found, 0.0, 0.0)).0
        == Empty(1.0, 1).(entries := map[key := Entry(found, 0.0)], order := [key])
  {
    hide LocalKey;
  }

  lemma Expires(digest: string, found: Answer)
    ensures var key := LocalKey("", digest);
      LookupSpec(Empty(1.0, 1).(entries := map[key := Entry(found, 0.0)], order := [key]),
                 Call("", digest, Failed("down"), 5.0, 5.0)).0
        == Empty(1.0, 1).(order := [key], drops := 1)
  {
    hide LocalKey;
  }

  lemma StoresBehind(stale: string, digest: string, found: Answer)
    requires !found.Failed?
    ensures var key := LocalKey("", digest);
      LookupSpec(Empty(1.0, 1).(order := [stale], drops := 1), Call("", digest, found, 5.0, 5.0)).0
        == Empty(1.0, 1).(entries := map[key := Entry(found, 5.0)], order := [stale, key], drops := 1)
  {
    hide LocalKey;
  }

  lemma EvictsStaleKey(stale: string, key: string, digest: string, found: Answer)
    requires !found.Failed? && stale != key && LocalKey("", digest) != key
    ensures var c := Empty(1.0, 1).(entries := map[key := Entry(found, 5.0)], order := [stale, key], drops := 1);
      |LookupSpec(c, Call("", digest, found, 5.0, 5.0)).0.entries| == 2
  {
    hide LocalKey;
    var c := Empty(1.0, 1).(entries := map[key := Entry(found, 5.0)], order := [stale, key], drops := 1);
    AddCount(c.entries - {stale}, LocalKey("", digest), Entry(found, 5.0));
    assert c.entries - {stale} == c.entries;
  }

  /**
    With a limit of 1: "a" is stored, expires and is looked up while the inner matcher fails; two
    more digests are stored, and the second store evicts the key of "a", which is gone already.
  */
  lemma LimitCanBeExceeded(found: Answer)
    requires !found.Failed?
    ensures var calls := [Call("", "a", found, 0.0, 0.0), Call("", "a", Failed("down"), 5.0, 5.0),
                          Call("", "bb", found, 5.0, 5.0), Call("", "ccc", found, 5.0, 5.0)];
      |After(Empty(1.0, 1), calls).entries| == 2
  {
    PlainKey("a");
    PlainKey("bb");
    PlainKey("ccc");
    StoresFirst("a", found);
    Expires("a", found);
    StoresBehind(LocalKey("", "a"), "bb", found);
    EvictsStaleKey(LocalKey("", "a"), LocalKey("", "bb"), "ccc", found);
    hide *;
    AfterFour(Empty(1.0, 1), Call("", "a", found, 0.0, 0.0), Call("", "a", Failed("down"), 5.0, 5.0),
              Call("", "bb", found, 5.0, 5.0), Call("", "ccc", found, 5.0, 5.0));
  }

  lemma AfterFour(c: Cache, k0: Call, k1: Call, k2: Call, k3: Call)
    ensures After(c, [k0, k1, k2, k3]) == LookupSpec(LookupSpec(LookupSpec(LookupSpec(c, k0).0, k1).0, k2).0, k3).0
  {
    hide LookupSpec;
    AfterSnoc(c, [], k0);
    AfterSnoc(c, [k0], k1);
    AfterSnoc(c, [k0, k1], k2);
    AfterSnoc(c, [k0, k1, k2], k3);
    assert [] + [k0] == [k0] && [k0] + [k1] == [k0, k1];
    assert [k0, k1] + [k2] == [k0, k1, k2] && [k0, k1, k2] + [k3] == [k0, k1, k2, k3];
  }

  // ----- Interleaved critical sections -----

  /**
    In every interleaving of deletions and stores, the check of one lookup and the deletion it
    decides on included, an entry is one that a store put in under that key.
  */
  lemma {:induction false} InterleavedEntriesWereStored(c: Cache, steps: seq<Step>, key: string)
    requires key in Run(c, steps).entries
    ensures StoreStep(key, Run(c, steps).entries[key]) in steps || (key in c.entries && Run(c, steps).entries[key] == c.entries[key])
  {
    if steps != [] {
      var front, last := steps[..|steps| - 1], steps[|steps| - 1];
      assert last in steps;
      if key in Run(c, front).entries {
        InterleavedEntriesWereStored(c, front, key);
      }
    }
  }

  /** A lookup stores what the inner matcher answered when it did not fail. */
  ghost predicate StoresAnswers(steps: seq<Step>) {
    forall s :: s in steps && s.StoreStep? ==> !s.entry.answer.Failed?
  }

  /**
    In every interleaving of the critical sections of any number of lookups, what is served from the
    cache is no failure and was stored under the same key at most ttl ago.
  */
  lemma ServedAnswersAreRecent(ttl: real, maxEntries: nat, steps: seq<Step>, key: string, now: real)
    requires StoresAnswers(steps) && Fresh(Run(Empty(ttl, maxEntries), steps), key, now)
    ensures var answer := Run(Empty(ttl, maxEntries), steps).entries[key].answer;
      !answer.Failed? && exists at: real :: StoreStep(key, Entry(answer, at)) in steps && now - at <= ttl
  {
    InterleavedEntriesWereStored(Empty(ttl, maxEntries), steps, key);
    SameTtl(Empty(ttl, maxEntries), steps);
    var e := Run(Empty(ttl, maxEntries), steps).entries[key];
    assert StoreStep(key, Entry(e.answer, e.insert)) in steps;
  }

  lemma {:induction false} SameTtl(c: Cache, steps: seq<Step>)
    ensures Run(c, steps).ttl == c.ttl
  {
    if steps != [] {
      SameTtl(c, steps[..|steps| - 1]);
    }
  }

  /** The steps of lookups only store answers. */
  lemma {:induction false} CallsStoreAnswers(c: Cache, calls: seq<Call>)
    ensures StoresAnswers(AllSteps(c, calls))
  {
    if calls != [] {
      CallsStoreAnswers(c, calls[..|calls| - 1]);
    }
  }

  // ----- Which entries stay -----

  ghost predicate NewKeys(steps: seq<Step>) {
    && (forall i :: 0 <= i < |steps| ==> steps[i].StoreStep?)
    && forall i, j :: 0 <= i < j < |steps| ==> steps[i].key != steps[j].key
  }

  /** The keys of the last n stores, in line in that order. */
  ghost predicate InLine(order: seq<string>, steps: seq<Step>, n: nat) {
    n <= |steps| && |order| == n && forall i :: 0 <= i < n ==> order[i] == steps[|steps| - n + i].key
  }

  /** The last n stores are what is in the cache. */
  ghost predicate Held(entries: map<string, Entry>, steps: seq<Step>, n: nat) {
    && n <= |steps| && (forall i :: 0 <= i < |steps| ==> steps[i].StoreStep?)
    && (forall i :: |steps| - n <= i < |steps| ==> steps[i].key in entries && entries[steps[i].key] == steps[i].entry)
    && forall key :: key in entries ==> exists i :: |steps| - n <= i < |steps| && steps[i].key == key
  }

  ghost predicate HoldsLast(c: Cache, steps: seq<Step>, n: nat) {
    InLine(c.order, steps, n) && Held(c.entries, steps, n) && |c.entries| == n
  }

  lemma HeldAdd(entries: map<string, Entry>, steps: seq<Step>, n: nat, s: Step)
    requires s.StoreStep? && NewKeys(steps + [s]) && Held(entries, steps, n)
    ensures s.key !in entries && Held(entries[s.key := s.entry], steps + [s], n + 1)
  {
    var all, more := steps + [s], entries[s.key := s.entry];
    assert all[|steps|] == s && forall i :: 0 <= i < |steps| ==> all[i] == steps[i];
    forall key | key in more ensures exists i :: |steps| - n <= i < |all| && all[i].key == key {
      if key in entries {
        var i :| |steps| - n <= i < |steps| && steps[i].key == key;
        assert all[i].key == key;
      } else {
        assert all[|steps|].key == key;
      }
    }
    assert forall i :: 0 <= i < |steps| ==> all[i].key != all[|steps|].key;
  }

  lemma HeldEvict(entries: map<string, Entry>, steps: seq<Step>, n: nat)
    requires NewKeys(steps) && 1 <= n && Held(entries, steps, n)
    ensures steps[|steps| - n].key in entries && Held(entries - {steps[|steps| - n].key}, steps, n - 1)
  {
    var oldest := |steps| - n;
    assert steps[oldest].key in entries;
    forall key | key in entries - {steps[oldest].key} ensures exists i :: oldest < i < |steps| && steps[i].key == key {
      var i :| oldest <= i < |steps| && steps[i].key == key;
    }
  }

  lemma NewKeysFront(steps: seq<Step>, s: Step)
    requires NewKeys(steps + [s])
    ensures s.StoreStep? && NewKeys(steps)
  {
    var all := steps + [s];
    assert all[|steps|] == s && forall i :: 0 <= i < |steps| ==> all[i] == steps[i];
  }

  lemma StoreWithRoom(c: Cache, steps: seq<Step>, n: nat, s: Step)
    requires s.StoreStep? && NewKeys(steps + [s]) && HoldsLast(c, steps, n) && n < c.maxEntries
    ensures HoldsLast(Next(c, s), steps + [s], n + 1)
  {
    HeldAdd(c.entries, steps, n, s);
    AddCount(c.entries, s.key, s.entry);
    hide Held, NewKeys;
    assert InLine(c.order + [s.key], steps + [s], n + 1);
    hide InLine;
    assert Next(c, s) == c.(entries := c.entries[s.key := s.entry], order := c.order + [s.key]);
  }

  lemma NextWhenFull(c: Cache, s: Step)
    requires s.StoreStep? && s.key !in c.entries && |c.entries| >= c.maxEntries && c.order != []
    ensures Next(c, s) == c.(entries := (c.entries - {c.order[0]})[s.key := s.entry], order := c.order[1..] + [s.key])
  {
  }

  lemma LineMoves(order: seq<string>, steps: seq<Step>, n: nat, s: Step)
    requires 1 <= n && InLine(order, steps, n)
    ensures order[0] == steps[|steps| - n].key && InLine(order[1..] + [s.key], steps + [s], n)
  {
  }

  lemma FullEntries(entries: map<string, Entry>, steps: seq<Step>, n: nat, s: Step)
    requires s.StoreStep? && NewKeys(steps + [s]) && NewKeys(steps) && Held(entries, steps, n) && |entries| == n >= 1
    ensures var oldest := steps[|steps| - n].key;
      Held((entries - {oldest})[s.key := s.entry], steps + [s], n) && |(entries - {oldest})[s.key := s.entry]| == n
  {
    HeldEvict(entries, steps, n);
    hide Held, NewKeys;
    var oldest := steps[|steps| - n].key;
    var rest := entries - {oldest};
    HeldAdd(rest, steps, n - 1, s);
    RemoveCount(entries, oldest);
    AddCount(rest, s.key, s.entry);
  }

  lemma StoreIntoFull(c: Cache, steps: seq<Step>, n: nat, s: Step)
    requires s.StoreStep? && NewKeys(steps + [s]) && NewKeys(steps) && HoldsLast(c, steps, n) && 1 <= n == c.maxEntries
    ensures HoldsLast(Next(c, s), steps + [s], n)
  {
    LineMoves(c.order, steps, n, s);
    HeldAdd(c.entries, steps, n, s);
    FullEntries(c.entries, steps, n, s);
    NextWhenFull(c, s);
    hide Held, NewKeys, InLine, Next;
  }

  /** Eviction is first in, first out: after any number of stores under different keys, exactly the newest are there. */
  lemma {:induction false} NewestStay(ttl: real, maxEntries: nat, steps: seq<Step>)
    requires maxEntries >= 1 && NewKeys(steps)
    ensures var c := Run(Empty(ttl, maxEntries), steps);
      c.maxEntries == maxEntries && HoldsLast(c, steps, if |steps| < maxEntries then |steps| else maxEntries)
  {
    hide HoldsLast, NewKeys, Store;
    if steps == [] {
      EmptyHoldsNothing(ttl, maxEntries);
    } else {
      var front, last := steps[..|steps| - 1], steps[|steps| - 1];
      assert steps == front + [last];
      NewKeysFront(front, last);
      NewestStay(ttl, maxEntries, front);
      if |front| < maxEntries {
        StoreWithRoom(Run(Empty(ttl, maxEntries), front), front, |front|, last);
      } else {
        StoreIntoFull(Run(Empty(ttl, maxEntries), front), front, maxEntries, last);
      }
      SameMax(Run(Empty(ttl, maxEntries), front), last);
    }
  }

  lemma SameMax(c: Cache, s: Step)
    ensures Next(c, s).maxEntries == c.maxEntries
  {
  }

  lemma EmptyHoldsNothing(ttl: real, maxEntries: nat)
    ensures HoldsLast(Empty(ttl, maxEntries), [], 0)
  {
  }
}
