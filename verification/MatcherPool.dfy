/**
  The matcher worker pool of the untracked enricher and the visitor that queues its
  tasks (internal/enrich/untracked/enricher.go).

  A lookup is a function of the digest; None stands for every error, a miss included.
  Each step below is one channel operation, one lookup or one critical section, so a
  run is any interleaving of the producer and the workers.
*/
module MatcherPool {
  import opened Wrappers

  datatype Match = Match(
    name: string, version: string, purl: string, cpes: seq<string>, licenses: seq<string>, source: string)

  datatype Component = Component(
    name: string, version: string, purl: string, cpes: seq<string>, licenses: seq<string>,
    matchedBy: string, evidenceMethod: string)

  datatype Task = Task(index: nat, digest: string)

  type Matcher = string -> Option<Match>

  function OrElse(value: string, default: string): string {
    if value != "" then value else default
  }

  /** Non-empty fields of the match win, lists are appended, and the evidence is marked as a fingerprint. */
  function ApplyMatch(c: Component, m: Match): Component {
    Component(OrElse(m.name, c.name), OrElse(m.version, c.version), OrElse(m.purl, c.purl),
              c.cpes + m.cpes, c.licenses + m.licenses, OrElse(m.source, c.matchedBy), "fingerprint")
  }

  // ----- Queueing: the visitor -----

  datatype Scan = Scan(components: seq<Component>, tasks: seq<Task>, added: nat)

  /** What processing one file yields; digest is None where no lookup is worth it. */
  datatype Processed = Processed(component: Component, digest: Option<string>)

  /** file is None for a file that is filtered out. A limit of zero or less is no limit. */
  function VisitFile(s: Scan, maxComponents: int, file: Option<Processed>): (r: (Scan, bool)) {
    if maxComponents > 0 && s.added >= maxComponents then (s, true)
    else
      match file
      case None => (s, false)
      case Some(p) =>
        var components := s.components + [p.component];
        var tasks := if p.digest.Some? then s.tasks + [Task(|components| - 1, p.digest.value)] else s.tasks;
        (Scan(components, tasks, s.added + 1), false)
  }

  ghost predicate Increasing(tasks: seq<Task>) {
    forall i, j :: 0 <= i < j < |tasks| ==> tasks[i].index < tasks[j].index
  }

  ghost predicate InRange(tasks: seq<Task>, n: nat) {
    forall i :: 0 <= i < |tasks| ==> tasks[i].index < n
  }

  ghost predicate ValidScan(s: Scan, known: nat, maxComponents: int) {
    && |s.components| == known + s.added
    && Increasing(s.tasks) && InRange(s.tasks, |s.components|)
    && (maxComponents > 0 ==> s.added <= maxComponents)
  }

  /** One visit keeps the task indices strictly increasing and the count within the limit. */
  lemma VisitKeepsScan(s: Scan, known: nat, maxComponents: int, file: Option<Processed>)
    requires ValidScan(s, known, maxComponents)
    ensures var (next, hit) := VisitFile(s, maxComponents, file);
      && ValidScan(next, known, maxComponents)
      && (if hit then next == s && s.added == maxComponents
          else next.components == s.components + if file.Some? then [file.value.component] else [])
  {
  }

  /** The files that are not filtered out, in order. */
  function KeptFiles(files: seq<Option<Processed>>): seq<Processed> {
    if files == [] then []
    else KeptFiles(files[..|files| - 1]) + if files[|files| - 1].Some? then [files[|files| - 1].value] else []
  }

  /** One component for each kept file, behind those known before. */
  ghost predicate ComponentsFor(known: seq<Component>, kept: seq<Processed>, components: seq<Component>) {
    && |components| == |known| + |kept| && known <= components
    && forall k :: 0 <= k < |kept| ==> components[|known| + k] == kept[k].component
  }

  /** In order, exactly one task for each kept file with a digest, with that file's component and digest. */
  ghost predicate TasksFor(known: nat, kept: seq<Processed>, tasks: seq<Task>) {
    && Increasing(tasks)
    && (forall t :: t in tasks ==> known <= t.index < known + |kept| && kept[t.index - known].digest == Some(t.digest))
    && (forall k :: 0 <= k < |kept| && kept[k].digest.Some? ==> Task(known + k, kept[k].digest.value) in tasks)
  }

  lemma ScanStep(known: seq<Component>, kept: seq<Processed>, s: Scan, maxComponents: int, file: Option<Processed>)
    requires s.added == |kept| && ComponentsFor(known, kept, s.components) && TasksFor(|known|, kept, s.tasks)
    ensures var (next, hit) := VisitFile(s, maxComponents, file);
      var more := kept + if hit || file.None? then [] else [file.value];
      && next.added == |more| && ComponentsFor(known, more, next.components) && TasksFor(|known|, more, next.tasks)
      && (hit <==> maxComponents > 0 && s.added >= maxComponents)
  {
    var (next, hit) := VisitFile(s, maxComponents, file);
    if hit || file.None? {
      assert kept + [] == kept;
    } else {
      var more := kept + [file.value];
      forall t | t in next.tasks
        ensures |known| <= t.index < |known| + |more| && more[t.index - |known|].digest == Some(t.digest)
      {
        assert t in s.tasks || t == Task(|known| + |kept|, t.digest);
      }
      forall k | 0 <= k < |more| && more[k].digest.Some? ensures Task(|known| + k, more[k].digest.value) in next.tasks {
        if k < |kept| {
          assert Task(|known| + k, kept[k].digest.value) in s.tasks;
        }
      }
    }
  }

  /**
    The whole walk: the visitor is called until it reports the limit. What the walk leaves is said of
    the files alone: the kept ones up to the limit, each with its component and at most one task.
  */
  method ScanFiles(known: seq<Component>, files: seq<Option<Processed>>, maxComponents: int) returns (s: Scan, limitHit: bool)
    ensures ValidScan(s, |known|, maxComponents)
    ensures s.added <= |KeptFiles(files)|
    ensures ComponentsFor(known, KeptFiles(files)[..s.added], s.components)
    ensures TasksFor(|known|, KeptFiles(files)[..s.added], s.tasks)
    ensures if limitHit then 0 < maxComponents == s.added else s.added == |KeptFiles(files)|
  {
    hide VisitFile, Increasing, InRange, ComponentsFor, TasksFor, KeptFiles;
    s, limitHit := Scan(known, [], 0), false;
    EmptyScan(known, maxComponents);
    var i := 0;
    while i < |files| && !limitHit
      invariant 0 <= i <= |files|
      invariant ValidScan(s, |known|, maxComponents)
      invariant limitHit ==> 0 < maxComponents == s.added
      invariant s.added <= |KeptFiles(files)| && KeptFiles(files[..i]) <= KeptFiles(files)
      invariant !limitHit ==> s.added == |KeptFiles(files[..i])|
      invariant ComponentsFor(known, KeptFiles(files)[..s.added], s.components)
      invariant TasksFor(|known|, KeptFiles(files)[..s.added], s.tasks)
      decreases |files| - i, !limitHit
    {
      VisitKeepsScan(s, |known|, maxComponents, files[i]);
      KeptPrefix(files, i);
      ScanStep(known, KeptFiles(files)[..s.added], s, maxComponents, files[i]);
      var (next, hit) := VisitFile(s, maxComponents, files[i]);
      assert KeptFiles(files)[..s.added] + [] == KeptFiles(files)[..s.added];
      assert hit || files[i].None? || KeptFiles(files)[..s.added] + [files[i].value] == KeptFiles(files)[..s.added + 1];
      s, limitHit := next, hit;
      i := i + 1;
    }
    assert files[..|files|] == files;
  }

  lemma EmptyScan(known: seq<Component>, maxComponents: int)
    ensures ValidScan(Scan(known, [], 0), |known|, maxComponents) && KeptFiles([]) == []
    ensures ComponentsFor(known, [], known) && TasksFor(|known|, [], [])
  {
  }

  lemma {:induction false} KeptOfPrefix(files: seq<Option<Processed>>, n: nat)
    requires n <= |files|
    ensures KeptFiles(files[..n]) <= KeptFiles(files)
    decreases |files| - n
  {
    if n < |files| {
      KeptOfPrefix(files, n + 1);
      assert files[..n + 1][..n] == files[..n];
    } else {
      assert files[..n] == files;
    }
  }

  lemma KeptPrefix(files: seq<Option<Processed>>, i: nat)
    requires i < |files|
    ensures KeptFiles(files[..i + 1]) == KeptFiles(files[..i]) + if files[i].Some? then [files[i].value] else []
    ensures KeptFiles(files[..i]) <= KeptFiles(files[..i + 1]) <= KeptFiles(files)
  {
    assert files[..i + 1][..i] == files[..i];
    KeptOfPrefix(files, i + 1);
  }

  // ----- What a match does to a component -----

  /** A field that the match has wins, one that it leaves blank stays; its CPEs and licenses go behind the component's. */
  lemma MatchWins(c: Component, m: Match)
    ensures var r := ApplyMatch(c, m);
      && (m.name != "" ==> r.name == m.name) && (m.name == "" ==> r.name == c.name)
      && (m.version != "" ==> r.version == m.version) && (m.version == "" ==> r.version == c.version)
      && (m.purl != "" ==> r.purl == m.purl) && (m.purl == "" ==> r.purl == c.purl)
      && (m.source != "" ==> r.matchedBy == m.source) && (m.source == "" ==> r.matchedBy == c.matchedBy)
      && c.cpes <= r.cpes && r.cpes[|c.cpes|..] == m.cpes
      && c.licenses <= r.licenses && r.licenses[|c.licenses|..] == m.licenses
      && r.evidenceMethod == "fingerprint"
  {
    assert (c.cpes + m.cpes)[|c.cpes|..] == m.cpes;
    assert (c.licenses + m.licenses)[|c.licenses|..] == m.licenses;
  }

  // ----- Sequential processing -----

  function Sequential(components: seq<Component>, tasks: seq<Task>, matcher: Matcher): (r: seq<Component>)
    requires InRange(tasks, |components|)
    ensures |r| == |components|
  {
    if tasks == [] then components
    else
      var before, t := Sequential(components, tasks[..|tasks| - 1], matcher), tasks[|tasks| - 1];
      match matcher(t.digest)
      case None => before
      case Some(m) => before[t.index := ApplyMatch(before[t.index], m)]
  }

  function Hits(tasks: seq<Task>, matcher: Matcher): nat {
    if tasks == [] then 0
    else Hits(tasks[..|tasks| - 1], matcher) + if matcher(tasks[|tasks| - 1].digest).Some? then 1 else 0
  }

  function Matched(c: Component, t: Task, matcher: Matcher): Component {
    match matcher(t.digest)
    case None => c
    case Some(m) => ApplyMatch(c, m)
  }

  lemma {:induction false} SequentialAt(components: seq<Component>, tasks: seq<Task>, matcher: Matcher)
    requires InRange(tasks, |components|) && Increasing(tasks)
    ensures forall t :: 0 <= t < |tasks| ==>
      Sequential(components, tasks, matcher)[tasks[t].index] == Matched(components[tasks[t].index], tasks[t], matcher)
    ensures forall i :: 0 <= i < |components| && (forall t :: 0 <= t < |tasks| ==> tasks[t].index != i) ==>
      Sequential(components, tasks, matcher)[i] == components[i]
  {
    if tasks != [] {
      SequentialAt(components, tasks[..|tasks| - 1], matcher);
    }
  }

  // ----- The pool -----

  datatype Worker = Idle | Looking(task: nat) | Found(task: nat, hit: Match) | Exited

  /** lookups and applied record which tasks have been looked up and written back. */
  datatype Pool = Pool(
    sent: nat,
    queue: seq<nat>,
    closed: bool,
    workers: seq<Worker>,
    components: seq<Component>,
    hits: nat,
    lookups: multiset<nat>,
    applied: multiset<nat>)

  datatype Action = Send | Close | Receive(w: nat) | Exit(w: nat) | Lookup(w: nat) | Apply(w: nat)

  datatype Job = Job(components: seq<Component>, tasks: seq<Task>, matcher: Matcher, workers: nat)

  /** MatcherWorkers is at least one (zero means the default); the pool never has more workers than tasks. */
  ghost predicate ValidJob(job: Job) {
    job.workers >= 1 && Increasing(job.tasks) && InRange(job.tasks, |job.components|)
  }

  function Start(job: Job): Pool {
    Pool(0, [], false, seq(job.workers, _ => Idle), job.components, 0, multiset{}, multiset{})
  }

  ghost predicate Enabled(job: Job, p: Pool, a: Action) {
    match a
    case Send => p.sent < |job.tasks| && |p.queue| < job.workers
    case Close => p.sent == |job.tasks| && !p.closed
    case Receive(w) => w < |p.workers| && p.workers[w] == Idle && p.queue != []
    case Exit(w) => w < |p.workers| && p.workers[w] == Idle && p.queue == [] && p.closed
    case Lookup(w) => w < |p.workers| && p.workers[w].Looking? && p.workers[w].task < |job.tasks|
    case Apply(w) =>
      && w < |p.workers| && p.workers[w].Found? && p.workers[w].task < |job.tasks|
      && job.tasks[p.workers[w].task].index < |p.components|
  }

  ghost function Next(job: Job, p: Pool, a: Action): Pool
    requires Enabled(job, p, a)
  {
    match a
    case Send => p.(queue := p.queue + [p.sent], sent := p.sent + 1)
    case Close => p.(closed := true)
    case Receive(w) => p.(queue := p.queue[1..], workers := p.workers[w := Looking(p.queue[0])])
    case Exit(w) => p.(workers := p.workers[w := Exited])
    case Lookup(w) =>
      var t := p.workers[w].task;
      var result := job.matcher(job.tasks[t].digest);
      p.(workers := p.workers[w := if result.None? then Idle else Found(t, result.value)],
         lookups := p.lookups + multiset{t})
    case Apply(w) =>
      var t, m := p.workers[w].task, p.workers[w].hit;
      var i := job.tasks[t].index;
      p.(workers := p.workers[w := Idle],
         components := p.components[i := ApplyMatch(p.components[i], m)],
         hits := p.hits + 1,
         applied := p.applied + multiset{t})
  }

  ghost predicate IsRun(job: Job, p: Pool, actions: seq<Action>, q: Pool)
    decreases |actions|
  {
    if actions == [] then p == q
    else Enabled(job, p, actions[0]) && IsRun(job, Next(job, p, actions[0]), actions[1..], q)
  }

  /** The producer has closed the channel and every worker has returned. */
  ghost predicate Done(p: Pool) {
    p.closed && forall w :: 0 <= w < |p.workers| ==> p.workers[w] == Exited
  }

  // ----- The invariant -----

  ghost function Holding(workers: seq<Worker>, t: nat): nat {
    if workers == [] then 0
    else Holding(workers[..|workers| - 1], t) + if workers[|workers| - 1] == Looking(t) then 1 else 0
  }

  ghost function Finding(workers: seq<Worker>, t: nat): nat {
    if workers == [] then 0
    else
      var last := workers[|workers| - 1];
      Finding(workers[..|workers| - 1], t) + if last.Found? && last.task == t then 1 else 0
  }

  lemma {:induction false} CountUpdate(workers: seq<Worker>, w: nat, x: Worker, t: nat)
    requires w < |workers|
    ensures Holding(workers[w := x], t) + (if workers[w] == Looking(t) then 1 else 0) ==
      Holding(workers, t) + if x == Looking(t) then 1 else 0
    ensures Finding(workers[w := x], t) + (if workers[w].Found? && workers[w].task == t then 1 else 0) ==
      Finding(workers, t) + if x.Found? && x.task == t then 1 else 0
  {
    var n := |workers| - 1;
    if w == n {
      assert workers[w := x][..n] == workers[..n];
    } else {
      assert workers[w := x][..n] == workers[..n][w := x];
      CountUpdate(workers[..n], w, x, t);
    }
  }

  lemma {:induction false} CountNone(workers: seq<Worker>, t: nat)
    requires forall w :: 0 <= w < |workers| ==> !workers[w].Looking? && !workers[w].Found?
    ensures Holding(workers, t) == 0 && Finding(workers, t) == 0
  {
    if workers != [] {
      CountNone(workers[..|workers| - 1], t);
    }
  }

  function Received(p: Pool): int {
    p.sent - |p.queue|
  }

  /** The channel holds the tasks between what was received and what was sent, in order. */
  ghost predicate ChannelInv(job: Job, p: Pool) {
    && |p.queue| <= p.sent <= |job.tasks|
    && (forall i :: 0 <= i < |p.queue| ==> p.queue[i] == Received(p) + i)
    && (p.closed ==> p.sent == |job.tasks|)
    && |p.workers| == job.workers
    && (forall w :: 0 <= w < |p.workers| && p.workers[w] == Exited ==> p.closed && p.queue == [])
  }

  function HitCount(job: Job, t: nat, lookups: nat): nat {
    if t < |job.tasks| && job.matcher(job.tasks[t].digest).Some? then lookups else 0
  }

  /** A received task is held by one worker or looked up once; a hit is held by one worker or written back once. */
  ghost predicate TaskInv(job: Job, p: Pool, t: nat) {
    && Holding(p.workers, t) + p.lookups[t] == (if t < Received(p) then 1 else 0)
    && Finding(p.workers, t) + p.applied[t] == HitCount(job, t, p.lookups[t])
  }

  ghost predicate HeldInv(job: Job, worker: Worker) {
    && (worker.Looking? ==> worker.task < |job.tasks|)
    && (worker.Found? ==>
         worker.task < |job.tasks| && job.matcher(job.tasks[worker.task].digest) == Some(worker.hit))
  }

  ghost predicate LookupInv(job: Job, p: Pool) {
    && (forall t: nat :: TaskInv(job, p, t))
    && (forall w :: 0 <= w < |p.workers| ==> HeldInv(job, p.workers[w]))
  }

  /** Each component is as it was, or carries the one match of its task. */
  ghost predicate ComponentInv(job: Job, p: Pool) {
    && |p.components| == |job.components| && InRange(job.tasks, |job.components|)
    && (forall t :: 0 <= t < |job.tasks| ==>
         p.components[job.tasks[t].index] ==
           if p.applied[t] > 0 then Matched(job.components[job.tasks[t].index], job.tasks[t], job.matcher)
           else job.components[job.tasks[t].index])
    && (forall i :: 0 <= i < |job.components| && (forall t :: 0 <= t < |job.tasks| ==> job.tasks[t].index != i) ==>
         p.components[i] == job.components[i])
    && p.hits == |p.applied|
  }

  ghost predicate Inv(job: Job, p: Pool) {
    ChannelInv(job, p) && LookupInv(job, p) && ComponentInv(job, p)
  }

  lemma StartInv(job: Job)
    requires ValidJob(job)
    ensures Inv(job, Start(job))
  {
    forall t: nat { CountNone(Start(job).workers, t); }
  }

  lemma StepKeepsChannel(job: Job, p: Pool, a: Action)
    requires ValidJob(job) && ChannelInv(job, p) && Enabled(job, p, a)
    ensures ChannelInv(job, Next(job, p, a))
  {
  }

  lemma StepKeepsTask(job: Job, p: Pool, a: Action, t: nat)
    requires ValidJob(job) && ChannelInv(job, p) && Enabled(job, p, a)
    requires TaskInv(job, p, t) && (a.Apply? || a.Exit? || a.Lookup? || a.Receive? ==> HeldInv(job, p.workers[a.w]))
    ensures TaskInv(job, Next(job, p, a), t)
  {
    hide Holding, Finding;
    var q := Next(job, p, a);
    match a
    case Send =>
    case Close =>
    case Receive(w) => CountUpdate(p.workers, w, q.workers[w], t);
    case Exit(w) => CountUpdate(p.workers, w, q.workers[w], t);
    case Lookup(w) => CountUpdate(p.workers, w, q.workers[w], t);
    case Apply(w) => CountUpdate(p.workers, w, q.workers[w], t);
  }

  lemma StepKeepsLookups(job: Job, p: Pool, a: Action)
    requires ValidJob(job) && ChannelInv(job, p) && LookupInv(job, p) && Enabled(job, p, a)
    ensures LookupInv(job, Next(job, p, a))
  {
    hide TaskInv;
    forall t: nat { StepKeepsTask(job, p, a, t); }
  }

  lemma StepKeepsComponents(job: Job, p: Pool, a: Action)
    requires ValidJob(job) && LookupInv(job, p) && ComponentInv(job, p) && Enabled(job, p, a)
    ensures ComponentInv(job, Next(job, p, a))
  {
    hide Holding, Finding;
    if a.Apply? {
      var t := p.workers[a.w].task;
      assert TaskInv(job, p, t);
      CountUpdate(p.workers, a.w, Idle, t);
      assert p.applied[t] == 0;
    }
  }

  // ----- Runs -----

  lemma {:induction false} RunKeepsInv(job: Job, p: Pool, actions: seq<Action>, q: Pool)
    requires ValidJob(job) && Inv(job, p) && IsRun(job, p, actions, q)
    ensures Inv(job, q)
    decreases |actions|
  {
    hide ChannelInv, LookupInv, ComponentInv, Enabled;
    if actions != [] {
      StepKeepsChannel(job, p, actions[0]);
      StepKeepsLookups(job, p, actions[0]);
      StepKeepsComponents(job, p, actions[0]);
      RunKeepsInv(job, Next(job, p, actions[0]), actions[1..], q);
    }
  }

  /** Until the pool is done, some goroutine can move: no reachable state is a deadlock. */
  lemma NeverStuck(job: Job, actions: seq<Action>, q: Pool)
    requires ValidJob(job) && IsRun(job, Start(job), actions, q)
    ensures Done(q) || exists a :: Enabled(job, q, a)
  {
    StartInv(job);
    RunKeepsInv(job, Start(job), actions, q);
    assert q.workers[0] == Exited ==> q.closed;
    if !Done(q) {
      if w :| 0 <= w < |q.workers| && q.workers[w].Looking? {
        assert HeldInv(job, q.workers[w]);
        assert Enabled(job, q, Lookup(w));
      } else if w :| 0 <= w < |q.workers| && q.workers[w].Found? {
        assert HeldInv(job, q.workers[w]);
        assert Enabled(job, q, Apply(w));
      } else if w :| 0 <= w < |q.workers| && q.workers[w] == Idle {
        if q.queue != [] {
          assert Enabled(job, q, Receive(w));
        } else if q.sent < |job.tasks| {
          assert Enabled(job, q, Send);
        } else if !q.closed {
          assert Enabled(job, q, Close);
        } else {
          assert Enabled(job, q, Exit(w));
        }
      }
    }
  }

  ghost function WorkerRank(worker: Worker): nat {
    match worker
    case Looking(_) => 3
    case Found(_, _) => 2
    case Idle => 1
    case Exited => 0
  }

  ghost function WorkersRank(workers: seq<Worker>): nat {
    if workers == [] then 0 else WorkersRank(workers[..|workers| - 1]) + WorkerRank(workers[|workers| - 1])
  }

  lemma {:induction false} RankUpdate(workers: seq<Worker>, w: nat, x: Worker)
    requires w < |workers|
    ensures WorkersRank(workers[w := x]) + WorkerRank(workers[w]) == WorkersRank(workers) + WorkerRank(x)
  {
    var n := |workers| - 1;
    if w == n {
      assert workers[w := x][..n] == workers[..n];
    } else {
      assert workers[w := x][..n] == workers[..n][w := x];
      RankUpdate(workers[..n], w, x);
    }
  }

  ghost function Rank(job: Job, p: Pool): int {
    5 * (|job.tasks| - p.sent) + 4 * |p.queue| + WorkersRank(p.workers) + if p.closed then 0 else 1
  }

  lemma StepLowersRank(job: Job, p: Pool, a: Action)
    requires Enabled(job, p, a)
    ensures Rank(job, Next(job, p, a)) < Rank(job, p)
  {
    if !a.Send? && !a.Close? {
      RankUpdate(p.workers, a.w, Next(job, p, a).workers[a.w]);
    }
  }

  lemma {:induction false} RunsAreShort(job: Job, p: Pool, actions: seq<Action>, q: Pool)
    requires IsRun(job, p, actions, q)
    ensures |actions| <= Rank(job, p) - Rank(job, q)
    decreases |actions|
  {
    hide Enabled, Rank;
    if actions != [] {
      StepLowersRank(job, p, actions[0]);
      RunsAreShort(job, Next(job, p, actions[0]), actions[1..], q);
    }
  }

  lemma {:induction false} IdleRank(workers: seq<Worker>)
    requires forall w :: 0 <= w < |workers| ==> workers[w] == Idle
    ensures WorkersRank(workers) == |workers|
  {
    if workers != [] {
      IdleRank(workers[..|workers| - 1]);
    }
  }

  /** Every interleaving ends: at most five steps for a task, one for each worker and one for closing. */
  lemma PoolTerminates(job: Job, actions: seq<Action>, q: Pool)
    requires ValidJob(job) && IsRun(job, Start(job), actions, q)
    ensures |actions| <= 5 * |job.tasks| + job.workers + 1
  {
    StartInv(job);
    RunKeepsInv(job, Start(job), actions, q);
    RunsAreShort(job, Start(job), actions, q);
    IdleRank(Start(job).workers);
  }

  // ----- What the pool has done when it is done -----

  lemma {:induction false} HitsAreCounted(job: Job, tasks: seq<Task>, applied: multiset<nat>)
    requires tasks <= job.tasks
    requires forall t: nat :: applied[t] == HitCount(job, t, if t < |tasks| then 1 else 0)
    ensures |applied| == Hits(tasks, job.matcher)
  {
    if tasks == [] {
      assert applied == multiset{};
    } else {
      var n := |tasks| - 1;
      HitsAreCounted(job, tasks[..n], applied[n := 0]);
      assert applied == applied[n := 0] + multiset{}[n := applied[n]];
    }
  }

  lemma DoneTasks(job: Job, q: Pool)
    requires ValidJob(job) && ChannelInv(job, q) && LookupInv(job, q) && Done(q)
    ensures forall t: nat :: q.lookups[t] == if t < |job.tasks| then 1 else 0
    ensures forall t: nat :: q.applied[t] == HitCount(job, t, if t < |job.tasks| then 1 else 0)
  {
    hide Holding, Finding, HitCount, HeldInv;
    assert q.workers[0] == Exited;
    forall t: nat
      ensures q.lookups[t] == if t < |job.tasks| then 1 else 0
      ensures q.applied[t] == HitCount(job, t, if t < |job.tasks| then 1 else 0)
    {
      CountNone(q.workers, t);
      assert TaskInv(job, q, t);
    }
  }

  lemma DoneComponents(job: Job, q: Pool)
    requires ValidJob(job) && ComponentInv(job, q)
    requires forall t: nat :: q.applied[t] == HitCount(job, t, if t < |job.tasks| then 1 else 0)
    ensures q.components == Sequential(job.components, job.tasks, job.matcher)
  {
    hide Sequential, ApplyMatch;
    var s := Sequential(job.components, job.tasks, job.matcher);
    SequentialAt(job.components, job.tasks, job.matcher);
    forall i | 0 <= i < |s| ensures q.components[i] == s[i] {
      if t :| 0 <= t < |job.tasks| && job.tasks[t].index == i {
        assert q.applied[t] == HitCount(job, t, 1);
      }
    }
  }

  /**
    In every interleaving that runs to the end, each queued task was looked up exactly once,
    and components and hit count are those of sequential processing.
  */
  lemma PoolMatchesSequential(job: Job, actions: seq<Action>, q: Pool)
    requires ValidJob(job) && IsRun(job, Start(job), actions, q) && Done(q)
    ensures forall t: nat :: q.lookups[t] == if t < |job.tasks| then 1 else 0
    ensures q.components == Sequential(job.components, job.tasks, job.matcher)
    ensures q.hits == Hits(job.tasks, job.matcher)
  {
    hide Sequential, IsRun, HitCount;
    StartInv(job);
    RunKeepsInv(job, Start(job), actions, q);
    DoneTasks(job, q);
    HitsAreCounted(job, job.tasks, q.applied);
    DoneComponents(job, q);
  }

  /**
    From the files to the finished pool: a component known before is untouched, and the component of a
    kept file carries the match of that file's digest where it has a digest that the matcher knows.
  */
  lemma ScanThenPool(known: seq<Component>, kept: seq<Processed>, job: Job, actions: seq<Action>, q: Pool)
    requires ComponentsFor(known, kept, job.components) && TasksFor(|known|, kept, job.tasks)
    requires ValidJob(job) && IsRun(job, Start(job), actions, q) && Done(q)
    ensures |q.components| == |known| + |kept| && known <= q.components
    ensures forall k :: 0 <= k < |kept| ==>
      q.components[|known| + k] ==
        if kept[k].digest.Some? && job.matcher(kept[k].digest.value).Some?
        then ApplyMatch(kept[k].component, job.matcher(kept[k].digest.value).value)
        else kept[k].component
  {
    PoolMatchesSequential(job, actions, q);
    var cs, tasks := job.components, job.tasks;
    var done := Sequential(cs, tasks, job.matcher);
    SequentialAt(cs, tasks, job.matcher);
    hide Sequential, IsRun, ApplyMatch, ValidJob, Done, Hits;
    forall i | 0 <= i < |known| ensures done[i] == known[i] {
      assert forall t :: 0 <= t < |tasks| ==> tasks[t] in tasks;
    }
    forall k | 0 <= k < |kept| ensures done[|known| + k] == TaskResult(kept[k], job.matcher) {
      FileResult(known, kept, cs, tasks, job.matcher, k);
    }
  }

  function TaskResult(file: Processed, matcher: Matcher): Component {
    if file.digest.Some? && matcher(file.digest.value).Some?
    then ApplyMatch(file.component, matcher(file.digest.value).value)
    else file.component
  }

  lemma TaskOfFile(known: nat, kept: seq<Processed>, tasks: seq<Task>, k: nat) returns (t: nat)
    requires k < |kept| && TasksFor(known, kept, tasks) && kept[k].digest.Some?
    ensures t < |tasks| && tasks[t] == Task(known + k, kept[k].digest.value)
  {
    var task := Task(known + k, kept[k].digest.value);
    t :| 0 <= t < |tasks| && tasks[t] == task;
  }

  lemma NoTaskOfFile(known: nat, kept: seq<Processed>, tasks: seq<Task>, k: nat)
    requires k < |kept| && TasksFor(known, kept, tasks) && kept[k].digest.None?
    ensures forall t :: 0 <= t < |tasks| ==> tasks[t].index != known + k
  {
    forall t | 0 <= t < |tasks| ensures tasks[t].index != known + k {
      assert tasks[t] in tasks;
    }
  }

  lemma ResultAt(cs: seq<Component>, tasks: seq<Task>, matcher: Matcher, t: nat)
    requires InRange(tasks, |cs|) && Increasing(tasks) && t < |tasks|
    ensures tasks[t].index < |cs| && Sequential(cs, tasks, matcher)[tasks[t].index] == Matched(cs[tasks[t].index], tasks[t], matcher)
  {
    SequentialAt(cs, tasks, matcher);
    hide Sequential, Matched, Increasing;
  }

  lemma ResultElsewhere(cs: seq<Component>, tasks: seq<Task>, matcher: Matcher, i: nat)
    requires InRange(tasks, |cs|) && Increasing(tasks) && i < |cs|
    requires forall t :: 0 <= t < |tasks| ==> tasks[t].index != i
    ensures Sequential(cs, tasks, matcher)[i] == cs[i]
  {
    SequentialAt(cs, tasks, matcher);
    hide Sequential, Matched, Increasing;
  }

  lemma FileAt(known: seq<Component>, kept: seq<Processed>, cs: seq<Component>, k: nat)
    requires k < |kept| && ComponentsFor(known, kept, cs)
    ensures |known| + k < |cs| && cs[|known| + k] == kept[k].component
  {
  }

  lemma MatchedIsResult(file: Processed, t: Task, matcher: Matcher)
    requires file.digest == Some(t.digest)
    ensures Matched(file.component, t, matcher) == TaskResult(file, matcher)
  {
  }

  lemma FileResult(known: seq<Component>, kept: seq<Processed>, cs: seq<Component>, tasks: seq<Task>, matcher: Matcher, k: nat)
    requires k < |kept| && ComponentsFor(known, kept, cs) && TasksFor(|known|, kept, tasks) && InRange(tasks, |cs|)
    ensures Sequential(cs, tasks, matcher)[|known| + k] == TaskResult(kept[k], matcher)
  {
    hide Sequential, TaskResult, Matched, InRange, Increasing, ComponentsFor;
    assert Increasing(tasks);
    FileAt(known, kept, cs, k);
    hide TasksFor;
    if kept[k].digest.Some? {
      var t := TaskOfFile(|known|, kept, tasks, k);
      ResultAt(cs, tasks, matcher, t);
      MatchedIsResult(kept[k], tasks[t], matcher);
    } else {
      NoTaskOfFile(|known|, kept, tasks, k);
      ResultElsewhere(cs, tasks, matcher, |known| + k);
      NoDigestNoResult(kept[k], matcher);
    }
  }

  lemma NoDigestNoResult(file: Processed, matcher: Matcher)
    requires file.digest.None?
    ensures TaskResult(file, matcher) == file.component
  {
  }

  ghost function Known(tasks: seq<Task>, matcher: Matcher): set<nat> {
    set t: nat | t < |tasks| && matcher(tasks[t].digest).Some?
  }

  /** The hits are the tasks whose digest the matcher knows. */
  lemma {:induction false} HitsAre(tasks: seq<Task>, matcher: Matcher)
    ensures Hits(tasks, matcher) == |Known(tasks, matcher)|
  {
    if tasks == [] {
      assert Known(tasks, matcher) == {};
    } else {
      var n := |tasks| - 1;
      HitsAre(tasks[..n], matcher);
      assert Known(tasks, matcher) == Known(tasks[..n], matcher) + if matcher(tasks[n].digest).Some? then {n} else {};
    }
  }
}
