/** The metadata cache: entries are checked or erased under the lock, files are loaded
    without it, and results are published under it again. Calls interleave between. */
module MetadataCache {
  import opened Wrappers

  /** Metadata of one file, tagged with the file version it was read from. */
  datatype Entry = Entry(path: string, version: nat)

  type Entries = map<string, Entry>

  datatype Provider = Provider(location: string, resolvedPath: string)

  /** The key of a provider, and also the path its loaded metadata carries. */
  function Resolved(provider: Provider): string {
    if provider.resolvedPath == "" then provider.location else provider.resolvedPath
  }

  /** The resolved path is the key when there is one. */
  lemma KeyOfProvider(location: string, path: string)
    ensures Resolved(Provider(location, "")) == location
    ensures path != "" ==> Resolved(Provider(location, path)) == path
  {
  }

  // ---------------------------------------------------------------- critical sections

  function Erase(entries: Entries, key: string): Entries {
    map k | k in entries && k != key :: entries[k]
  }

  /** The key is gone and every other entry is untouched. */
  predicate Gone(key: string, before: Entries, after: Entries) {
    && key !in after
    && (forall k | k in before && k != key :: k in after && after[k] == before[k])
    && (forall k | k in after :: k in before)
  }

  lemma EraseRemoves(entries: Entries, key: string)
    ensures Gone(key, entries, Erase(entries, key))
  {
  }

  /** The first critical section: a hit, or a miss that a forced call makes sure of. */
  function CheckOrErase(entries: Entries, key: string, force: bool): (Entries, Option<Entry>) {
    if force then (Erase(entries, key), None)
    else (entries, if key in entries then Some(entries[key]) else None)
  }

  function PublishTo(entries: Entries, entry: Entry): Entries {
    entries[entry.path := entry]
  }

  class GdxMetadataCache {
    var entries: Entries

    constructor ()
      ensures entries == map[]
    {
      entries := map[];
    }

    method Lookup(resolvedPath: string) returns (found: Option<Entry>)
      ensures found == if resolvedPath in entries then Some(entries[resolvedPath]) else None
    {
      if resolvedPath !in entries {
        return None;
      }
      found := Some(entries[resolvedPath]);
    }

    /** A call that no other call interrupts; `loaded` is the version the load would read,
        None when it fails. */
    method GetOrLoad(provider: Provider, force: bool, loaded: Option<nat>) returns (r: Option<Entry>)
      modifies this
      ensures !force && Resolved(provider) in old(entries) ==>
        r == Some(old(entries)[Resolved(provider)]) && entries == old(entries)
      ensures force || Resolved(provider) !in old(entries) ==>
        match loaded
        case None => r == None && (force ==> Gone(Resolved(provider), old(entries), entries))
                     && (!force ==> entries == old(entries))
        case Some(v) => r == Some(Entry(Resolved(provider), v)) && entries == PublishTo(old(entries), r.value)
    {
      var key := Resolved(provider);
      if !force {
        if key in entries {
          return Some(entries[key]);
        }
      } else {
        entries := Erase(entries, key);
      }
      if loaded.None? {
        return None;
      }
      var entry := Entry(Resolved(provider), loaded.value);
      entries := entries[entry.path := entry];
      r := Some(entry);
    }

    method Invalidate(resolvedPath: string)
      modifies this
      ensures entries == Erase(old(entries), resolvedPath) && Gone(resolvedPath, old(entries), entries)
    {
      entries := map k | k in entries && k != resolvedPath :: entries[k];
    }
  }

  // ---------------------------------------------------------------- interleaved calls

  /** Where a call is. `seen` is the entry present at its check and `start` the file version
      then; `publishedAtLoad` is the last version published for the key when its load began
      and `finish` the file version when the call returned. */
  datatype Call =
    | Missed(key: string, force: bool, seen: Option<Entry>, start: nat)
    | Loading(key: string, force: bool, seen: Option<Entry>, start: nat, loadStart: nat, publishedAtLoad: nat)
    | Loaded(key: string, force: bool, seen: Option<Entry>, start: nat, loadStart: nat, publishedAtLoad: nat,
             entry: Entry)
    | Returned(key: string, force: bool, seen: Option<Entry>, start: nat, finish: nat, entry: Entry)
    | Failed(key: string)

  datatype State = State(entries: Entries, files: map<string, nat>, published: map<string, nat>, calls: map<nat, Call>)

  datatype Step =
    | Check(tid: nat, provider: Provider, force: bool)
    | BeginLoad(tid: nat)
    | EndLoad(tid: nat, version: nat)
    | FailLoad(tid: nat)
    | Publish(tid: nat)
    | ChangeFile(key: string)
    | Invalidate(key: string)

  function At(m: map<string, nat>, key: string): nat {
    if key in m then m[key] else 0
  }

  predicate Active(s: State, tid: nat) {
    tid in s.calls && !s.calls[tid].Returned? && !s.calls[tid].Failed?
  }

  predicate Enabled(s: State, step: Step) {
    match step
    case Check(tid, _, _) => !Active(s, tid)
    case BeginLoad(tid) => tid in s.calls && s.calls[tid].Missed?
    case EndLoad(tid, version) =>
      // The load reads the file at some moment between its start and its end.
      tid in s.calls && s.calls[tid].Loading? && s.calls[tid].loadStart <= version <= At(s.files, s.calls[tid].key)
    case FailLoad(tid) => tid in s.calls && s.calls[tid].Loading?
    case Publish(tid) => tid in s.calls && s.calls[tid].Loaded?
    case ChangeFile(_) => true
    case Invalidate(_) => true
  }

  function Apply(s: State, step: Step): State
    requires Enabled(s, step)
  {
    match step
    case Check(tid, provider, force) =>
      var key := Resolved(provider);
      var seen := if key in s.entries then Some(s.entries[key]) else None;
      var (entries, hit) := CheckOrErase(s.entries, key, force);
      var start := At(s.files, key);
      var call :=
        if hit.Some? then Returned(key, force, seen, start, start, hit.value) else Missed(key, force, seen, start);
      s.(entries := entries, calls := s.calls[tid := call])
    case BeginLoad(tid) =>
      var c := s.calls[tid];
      s.(calls := s.calls[tid := Loading(c.key, c.force, c.seen, c.start, At(s.files, c.key), At(s.published, c.key))])
    case EndLoad(tid, version) =>
      var c := s.calls[tid];
      var entry := Entry(c.key, version);
      s.(calls := s.calls[tid := Loaded(c.key, c.force, c.seen, c.start, c.loadStart, c.publishedAtLoad, entry)])
    case FailLoad(tid) => s.(calls := s.calls[tid := Failed(s.calls[tid].key)])
    case Publish(tid) =>
      var c := s.calls[tid];
      State(PublishTo(s.entries, c.entry), s.files, s.published[c.entry.path := c.entry.version],
            s.calls[tid := Returned(c.key, c.force, c.seen, c.start, At(s.files, c.key), c.entry)])
    case ChangeFile(key) => s.(files := s.files[key := At(s.files, key) + 1])
    case Invalidate(key) => s.(entries := Erase(s.entries, key))
  }

  ghost predicate Runs(s: State, steps: seq<Step>)
    decreases steps
  {
    steps == [] || (Enabled(s, steps[0]) && Runs(Apply(s, steps[0]), steps[1..]))
  }

  ghost function Final(s: State, steps: seq<Step>): State
    requires Runs(s, steps)
    decreases steps
  {
    if steps == [] then s else Final(Apply(s, steps[0]), steps[1..])
  }

  // ---------------------------------------------------------------- what every run keeps

  /** What a call may rely on, wherever it is. */
  ghost predicate CallFits(s: State, c: Call) {
    match c
    case Missed(key, force, seen, start) => start <= At(s.files, key) && (!force ==> seen.None?)
    case Loading(key, force, seen, start, loadStart, atLoad) =>
      start <= loadStart <= At(s.files, key) && atLoad <= loadStart && (!force ==> seen.None?)
    case Loaded(key, force, seen, start, loadStart, atLoad, entry) =>
      && start <= loadStart <= entry.version <= At(s.files, key) && atLoad <= loadStart
      && entry.path == key && (!force ==> seen.None?)
    case Returned(key, force, seen, start, finish, entry) =>
      && entry.path == key && entry.version <= finish <= At(s.files, key)
      && (if !force && seen.Some? then seen == Some(entry) else start <= entry.version)
    case Failed(_) => true
  }

  /** Entries sit under their own path and carry the last version published there, which is
      none the file has not had. */
  ghost predicate CacheFits(s: State) {
    && (forall key | key in s.entries :: s.entries[key].path == key && s.entries[key].version == At(s.published, key))
    && (forall key | key in s.published :: s.published[key] <= At(s.files, key))
  }

  ghost predicate CallsFit(s: State) {
    forall tid | tid in s.calls :: CallFits(s, s.calls[tid])
  }

  ghost predicate Invariant(s: State) {
    CacheFits(s) && CallsFit(s)
  }

  lemma StepKeepsInvariant(s: State, step: Step)
    requires Invariant(s) && Enabled(s, step)
    ensures Invariant(Apply(s, step))
  {
    StepKeepsCache(s, step);
    StepKeepsCalls(s, step);
  }

  lemma StepKeepsCache(s: State, step: Step)
    requires Invariant(s) && Enabled(s, step)
    ensures CacheFits(Apply(s, step))
  {
    if step.Publish? { assert CallFits(s, s.calls[step.tid]); }
  }

  lemma StepKeepsCalls(s: State, step: Step)
    requires Invariant(s) && Enabled(s, step)
    ensures CallsFit(Apply(s, step))
  {
    var t := Apply(s, step);
    forall tid | tid in t.calls ensures CallFits(t, t.calls[tid]) {
      if tid in s.calls && s.calls[tid] == t.calls[tid] {
        OtherCallFits(s, step, t.calls[tid]);
      } else {
        MovedCallFits(s, step);
      }
    }
  }

  /** File versions only grow, so a call that does not move keeps what it relies on. */
  lemma OtherCallFits(s: State, step: Step, c: Call)
    requires Enabled(s, step) && CallFits(s, c)
    ensures CallFits(Apply(s, step), c)
  {
    assert At(s.files, c.key) <= At(Apply(s, step).files, c.key);
  }

  lemma MovedCallFits(s: State, step: Step)
    requires Invariant(s) && Enabled(s, step) && !step.ChangeFile? && !step.Invalidate?
    ensures step.tid in Apply(s, step).calls && CallFits(Apply(s, step), Apply(s, step).calls[step.tid])
  {
    if !step.Check? { assert CallFits(s, s.calls[step.tid]); }
  }

  lemma {:induction false} RunKeepsInvariant(s: State, steps: seq<Step>)
    requires Invariant(s) && Runs(s, steps)
    ensures Invariant(Final(s, steps))
    decreases steps
  {
    if steps != [] {
      StepKeepsInvariant(s, steps[0]);
      RunKeepsInvariant(Apply(s, steps[0]), steps[1..]);
    }
  }

  const INITIAL := State(map[], map[], map[], map[])

  /** After any interleaving: entries sit under their own path; a call that found an entry and
      was not forced returned exactly that; any other call returned a version the file had
      between the call's start and its return. */
  lemma CallGuarantees(steps: seq<Step>, tid: nat, key: string)
    requires Runs(INITIAL, steps)
    ensures var s := Final(INITIAL, steps);
      && (key in s.entries ==> s.entries[key].path == key && s.entries[key].version <= At(s.files, key))
      && (tid in s.calls && s.calls[tid].Returned? ==>
            var c := s.calls[tid];
            && c.entry.path == c.key
            && (if !c.force && c.seen.Some? then c.seen == Some(c.entry) else c.start <= c.entry.version)
            && c.entry.version <= c.finish <= At(s.files, c.key))
  {
    RunKeepsInvariant(INITIAL, steps);
    var s := Final(INITIAL, steps);
    if tid in s.calls { assert CallFits(s, s.calls[tid]); }
  }

  /** The moments the guarantees speak of are file versions at the steps that begin the call,
      begin its load and end it. */
  lemma MomentsRecorded(s: State, step: Step)
    requires Enabled(s, step) && (step.Check? || step.BeginLoad? || step.Publish?)
    ensures step.tid in Apply(s, step).calls
    ensures var c := Apply(s, step).calls[step.tid];
      match step
      case Check(_, provider, force) =>
        && c.key == Resolved(provider) && c.start == At(s.files, c.key) && c.force == force
        && (c.Missed? || (c.Returned? && c.finish == At(s.files, c.key)))
        && (c.seen.Some? <==> c.key in s.entries) && (c.seen.Some? ==> c.seen.value == s.entries[c.key])
      case BeginLoad(_) =>
        c.Loading? && c.loadStart == At(s.files, c.key) && c.publishedAtLoad == At(s.published, c.key)
      case _ => c.Returned? && c.finish == At(s.files, c.key)
  {
  }

  // ---------------------------------------------------------------- stale overwrites

  /** In every reachable state, a publication lowers the last published version of its key
      exactly when a newer one than it loaded is published, and then some other call published
      it after the load began. */
  lemma LoweringNeedsOverlap(steps: seq<Step>, tid: nat)
    requires Runs(INITIAL, steps) && Enabled(Final(INITIAL, steps), Publish(tid))
    ensures var s := Final(INITIAL, steps);
      var c := s.calls[tid];
      var lowers := At(Apply(s, Publish(tid)).published, c.key) < At(s.published, c.key);
      && (lowers <==> c.entry.version < At(s.published, c.key))
      && (lowers ==> At(s.published, c.key) != c.publishedAtLoad)
  {
    RunKeepsInvariant(INITIAL, steps);
    var s := Final(INITIAL, steps);
    assert CallFits(s, s.calls[tid]);
  }

  /** No call on a key starts while another one on that key is under way. */
  ghost predicate SerialStep(s: State, step: Step) {
    step.Check? ==> forall tid | Active(s, tid) :: s.calls[tid].key != Resolved(step.provider)
  }

  ghost predicate SerialRuns(s: State, steps: seq<Step>)
    decreases steps
  {
    steps == [] || (Enabled(s, steps[0]) && SerialStep(s, steps[0]) && SerialRuns(Apply(s, steps[0]), steps[1..]))
  }

  /** At most one call per key is under way, and nothing was published since its load began. */
  ghost predicate Serial(s: State) {
    && (forall a, b | Active(s, a) && Active(s, b) && s.calls[a].key == s.calls[b].key :: a == b)
    && (forall tid | tid in s.calls && (s.calls[tid].Loading? || s.calls[tid].Loaded?) ::
          s.calls[tid].publishedAtLoad == At(s.published, s.calls[tid].key))
  }

  lemma SerialStepKeeps(s: State, step: Step)
    requires Invariant(s) && Serial(s) && Enabled(s, step) && SerialStep(s, step)
    ensures Serial(Apply(s, step))
    ensures forall key :: At(s.published, key) <= At(Apply(s, step).published, key)
  {
    var t := Apply(s, step);
    forall a, b | Active(t, a) && Active(t, b) && t.calls[a].key == t.calls[b].key ensures a == b {
      if step.Check? {
        assert a != step.tid ==> Active(s, a);
        assert b != step.tid ==> Active(s, b);
      } else {
        assert Active(s, a) && Active(s, b) && s.calls[a].key == t.calls[a].key && s.calls[b].key == t.calls[b].key;
      }
    }
    if step.Publish? {
      var c := s.calls[step.tid];
      assert CallFits(s, c) && Active(s, step.tid);
      forall tid | tid in t.calls && (t.calls[tid].Loading? || t.calls[tid].Loaded?)
        ensures t.calls[tid].publishedAtLoad == At(t.published, t.calls[tid].key)
      {
        assert tid != step.tid && Active(s, tid);
      }
    }
  }

  /** When calls on a key do not overlap, the cached version of no key ever decreases. */
  lemma {:induction false} SerialRunsNeverLower(s: State, steps: seq<Step>, key: string)
    requires Invariant(s) && Serial(s) && SerialRuns(s, steps)
    ensures Runs(s, steps) && At(s.published, key) <= At(Final(s, steps).published, key)
    ensures key in s.entries && key in Final(s, steps).entries ==>
      s.entries[key].version <= Final(s, steps).entries[key].version
    decreases steps
  {
    if steps != [] {
      StepKeepsInvariant(s, steps[0]);
      SerialStepKeeps(s, steps[0]);
      SerialRunsNeverLower(Apply(s, steps[0]), steps[1..], key);
    }
    RunKeepsInvariant(s, steps);
  }

  // A slow forced call, and a fast one that starts and finishes while the slow one is loading
  // the file version before the change.
  function SlowLoad(p: Provider): seq<Step> {
    [Check(1, p, true), BeginLoad(1), EndLoad(1, 0), ChangeFile(Resolved(p))]
  }

  function FastCall(p: Provider): seq<Step> {
    [Check(2, p, true), BeginLoad(2), EndLoad(2, 1), Publish(2)]
  }

  function SlowLoaded(k: string): State {
    State(map[], map[k := 1], map[], map[1 := Loaded(k, true, None, 0, 0, 0, Entry(k, 0))])
  }

  /** Two overlapping forced calls: the slower one overwrites a newer entry with an older one. */
  lemma StaleOverwriteWitness(p: Provider)
    ensures var k, before := Resolved(p), SlowLoad(p) + FastCall(p);
      && Runs(INITIAL, before) && Final(INITIAL, before).entries == map[k := Entry(k, 1)]
      && Enabled(Final(INITIAL, before), Publish(1))
      && Apply(Final(INITIAL, before), Publish(1)).entries == map[k := Entry(k, 0)]
  {
    SlowLoadRun(p);
    FastCallRun(p);
    RunsConcat(INITIAL, SlowLoad(p), FastCall(p));
  }

  lemma SlowLoadRun(p: Provider)
    ensures Runs(INITIAL, SlowLoad(p)) && Final(INITIAL, SlowLoad(p)) == SlowLoaded(Resolved(p))
  {
    var k := Resolved(p);
    var s1 := Apply(INITIAL, Check(1, p, true));
    assert s1 == State(map[], map[], map[], map[1 := Missed(k, true, None, 0)]);
    var s2 := Apply(s1, BeginLoad(1));
    assert s2 == State(map[], map[], map[], map[1 := Loading(k, true, None, 0, 0, 0)]);
    var s3 := Apply(s2, EndLoad(1, 0));
    FourSteps(INITIAL, Check(1, p, true), BeginLoad(1), EndLoad(1, 0), ChangeFile(k));
  }

  lemma FastCallRun(p: Provider)
    ensures var s := SlowLoaded(Resolved(p));
      && Runs(s, FastCall(p)) && Final(s, FastCall(p)).entries == map[Resolved(p) := Entry(Resolved(p), 1)]
      && 1 in Final(s, FastCall(p)).calls && Final(s, FastCall(p)).calls[1] == s.calls[1]
  {
    var k, s := Resolved(p), SlowLoaded(Resolved(p));
    var s1 := Apply(s, Check(2, p, true));
    assert s1 == s.(calls := s.calls[2 := Missed(k, true, None, 1)]);
    var s2 := Apply(s1, BeginLoad(2));
    assert s2 == s.(calls := s.calls[2 := Loading(k, true, None, 1, 1, 0)]);
    var s3 := Apply(s2, EndLoad(2, 1));
    assert s3 == s.(calls := s.calls[2 := Loaded(k, true, None, 1, 1, 0, Entry(k, 1))]);
    FourSteps(s, Check(2, p, true), BeginLoad(2), EndLoad(2, 1), Publish(2));
  }

  lemma FourSteps(s: State, a: Step, b: Step, c: Step, d: Step)
    requires Enabled(s, a) && Enabled(Apply(s, a), b) && Enabled(Apply(Apply(s, a), b), c)
    requires Enabled(Apply(Apply(Apply(s, a), b), c), d)
    ensures Runs(s, [a, b, c, d]) && Final(s, [a, b, c, d]) == Apply(Apply(Apply(Apply(s, a), b), c), d)
  {
    OneStep(s, a);
    OneStep(Apply(s, a), b);
    OneStep(Apply(Apply(s, a), b), c);
    OneStep(Apply(Apply(Apply(s, a), b), c), d);
    RunsConcat(s, [a], [b]);
    RunsConcat(s, [a] + [b], [c]);
    RunsConcat(s, [a] + [b] + [c], [d]);
    assert [a, b, c, d] == [a] + [b] + [c] + [d];
  }

  lemma OneStep(s: State, step: Step)
    requires Enabled(s, step)
    ensures Runs(s, [step]) && Final(s, [step]) == Apply(s, step)
  {
    assert [step][1..] == [];
    assert Runs(Apply(s, step), []) && Final(Apply(s, step), []) == Apply(s, step);
  }

  lemma {:induction false} RunsConcat(s: State, a: seq<Step>, b: seq<Step>)
    requires Runs(s, a) && Runs(Final(s, a), b)
    ensures Runs(s, a + b) && Final(s, a + b) == Final(Final(s, a), b)
    decreases a
  {
    if a == [] {
      assert a + b == b;
    } else {
      RunsConcat(Apply(s, a[0]), a[1..], b);
      assert (a + b)[1..] == a[1..] + b;
    }
  }

  // ---------------------------------------------------------------- exactly when versions fall

  /** The calls under way on a key. */
  function ActiveOn(s: State, key: string): set<nat> {
    set tid | tid in s.calls && Active(s, tid) && s.calls[tid].key == key
  }

  /** A call starts only while fewer than `n` calls on its key are under way. */
  predicate LimitedStep(s: State, step: Step, n: nat) {
    step.Check? ==> |ActiveOn(s, Resolved(step.provider))| < n
  }

  ghost predicate LimitedRuns(s: State, steps: seq<Step>, n: nat)
    decreases steps
  {
    steps == []
    || (Enabled(s, steps[0]) && LimitedStep(s, steps[0], n) && LimitedRuns(Apply(s, steps[0]), steps[1..], n))
  }

  /** No step of the run lowers the last published version of any key. */
  ghost predicate NeverLowers(s: State, steps: seq<Step>)
    decreases steps
  {
    steps == [] || (Enabled(s, steps[0])
      && (forall key :: At(s.published, key) <= At(Apply(s, steps[0]).published, key))
      && NeverLowers(Apply(s, steps[0]), steps[1..]))
  }

  lemma LimitedIsSerial(s: State, step: Step, n: nat)
    requires LimitedStep(s, step, n) && n <= 1
    ensures SerialStep(s, step)
  {
    if step.Check? {
      var active := ActiveOn(s, Resolved(step.provider));
      assert active == {};
      forall tid | Active(s, tid) ensures s.calls[tid].key != Resolved(step.provider) {
        assert tid !in active;
      }
    }
  }

  lemma {:induction false} LimitedNeverLowers(s: State, steps: seq<Step>, n: nat)
    requires Invariant(s) && Serial(s) && LimitedRuns(s, steps, n) && n <= 1
    ensures NeverLowers(s, steps)
    decreases steps
  {
    if steps != [] {
      LimitedIsSerial(s, steps[0], n);
      StepKeepsInvariant(s, steps[0]);
      SerialStepKeeps(s, steps[0]);
      LimitedNeverLowers(Apply(s, steps[0]), steps[1..], n);
    }
  }

  lemma {:induction false} RunsWithoutChecks(s: State, steps: seq<Step>, n: nat)
    requires Runs(s, steps) && forall step | step in steps :: !step.Check?
    ensures LimitedRuns(s, steps, n)
    decreases steps
  {
    if steps != [] {
      assert steps[0] in steps && forall step | step in steps[1..] :: step in steps;
      RunsWithoutChecks(Apply(s, steps[0]), steps[1..], n);
    }
  }

  lemma {:induction false} LimitedConcat(s: State, a: seq<Step>, b: seq<Step>, n: nat)
    requires Runs(s, a) && LimitedRuns(s, a, n) && LimitedRuns(Final(s, a), b, n)
    ensures LimitedRuns(s, a + b, n)
    decreases a
  {
    if a == [] {
      assert a + b == b;
    } else {
      LimitedConcat(Apply(s, a[0]), a[1..], b, n);
      assert (a + b)[1..] == a[1..] + b;
    }
  }

  lemma {:induction false} NeverLowersLast(s: State, a: seq<Step>, last: Step)
    requires Runs(s, a) && NeverLowers(s, a + [last])
    ensures Enabled(Final(s, a), last)
    ensures forall key :: At(Final(s, a).published, key) <= At(Apply(Final(s, a), last).published, key)
    decreases a
  {
    if a == [] {
      assert a + [last] == [last];
    } else {
      assert (a + [last])[1..] == a[1..] + [last];
      NeverLowersLast(Apply(s, a[0]), a[1..], last);
    }
  }

  /** One call starts while no other one, or one other one, is under way. */
  lemma OneCheckLimited(s: State, steps: seq<Step>, n: nat)
    requires Runs(s, steps) && steps != [] && LimitedStep(s, steps[0], n)
    requires forall step | step in steps[1..] :: !step.Check?
    ensures LimitedRuns(s, steps, n)
  {
    RunsWithoutChecks(Apply(s, steps[0]), steps[1..], n);
  }

  /** Two calls on one key at a time are enough for a newer entry to be overwritten. */
  lemma TwoCallsLower(p: Provider, n: nat)
    requires n >= 2
    ensures var steps := SlowLoad(p) + FastCall(p) + [Publish(1)];
      LimitedRuns(INITIAL, steps, n) && !NeverLowers(INITIAL, steps)
  {
    var k, before := Resolved(p), SlowLoad(p) + FastCall(p);
    SlowLoadRun(p);
    FastCallRun(p);
    assert ActiveOn(INITIAL, k) == {};
    OneCheckLimited(INITIAL, SlowLoad(p), n);
    assert ActiveOn(SlowLoaded(k), k) == {1};
    OneCheckLimited(SlowLoaded(k), FastCall(p), n);
    LimitedConcat(INITIAL, SlowLoad(p), FastCall(p), n);
    StaleOverwriteWitness(p);
    RunKeepsInvariant(INITIAL, before);
    var s := Final(INITIAL, before);
    OneStep(s, Publish(1));
    RunsWithoutChecks(s, [Publish(1)], n);
    LimitedConcat(INITIAL, before, [Publish(1)], n);
    assert At(s.published, k) == 1 by { assert s.entries[k].version == 1; }
    assert s.calls[1].key == k && At(Apply(s, Publish(1)).published, k) == 0;
    if NeverLowers(INITIAL, before + [Publish(1)]) {
      NeverLowersLast(INITIAL, before, Publish(1));
    }
  }

  /** If at most `n` calls on a key are under way at a time, cached versions never fall in any
      run if and only if `n` is at most one. */
  lemma NeverLowersExactly(n: nat)
    ensures (forall steps | LimitedRuns(INITIAL, steps, n) :: NeverLowers(INITIAL, steps)) <==> n <= 1
  {
    if n <= 1 {
      forall steps | LimitedRuns(INITIAL, steps, n) ensures NeverLowers(INITIAL, steps) {
        LimitedNeverLowers(INITIAL, steps, n);
      }
    } else {
      TwoCallsLower(Provider("", ""), n);
    }
  }

  /** Per call, in every reachable state: whatever a load under way reads, publishing it will not
      lower the version if and only if nothing newer than the load's start is published yet. */
  lemma GuardExactly(steps: seq<Step>, tid: nat)
    requires Runs(INITIAL, steps) && tid in Final(INITIAL, steps).calls && Final(INITIAL, steps).calls[tid].Loading?
    ensures var s := Final(INITIAL, steps);
      var c := s.calls[tid];
      (forall v | Enabled(s, EndLoad(tid, v)) :: NotLowered(s, tid, v)) <==> At(s.published, c.key) <= c.loadStart
  {
    RunKeepsInvariant(INITIAL, steps);
    var s := Final(INITIAL, steps);
    var c := s.calls[tid];
    assert CallFits(s, c);
    assert Enabled(s, EndLoad(tid, c.loadStart));
    assert NotLowered(s, tid, c.loadStart) ==> At(s.published, c.key) <= c.loadStart;
  }

  /** Ending the load with version `v` and publishing it keeps the key's version. */
  predicate NotLowered(s: State, tid: nat, v: nat)
    requires Enabled(s, EndLoad(tid, v))
  {
    var loaded := Apply(s, EndLoad(tid, v));
    At(s.published, s.calls[tid].key) <= At(Apply(loaded, Publish(tid)).published, s.calls[tid].key)
  }

  // ---------------------------------------------------------------- calls that nothing interrupts

  /** The steps of a call that runs alone; the load reads the current version, or fails. */
  function Alone(s: State, tid: nat, provider: Provider, force: bool, loaded: Option<nat>): seq<Step> {
    if !force && Resolved(provider) in s.entries then [Check(tid, provider, force)]
    else if loaded.None? then [Check(tid, provider, force), BeginLoad(tid), FailLoad(tid)]
    else [Check(tid, provider, force), BeginLoad(tid), EndLoad(tid, loaded.value), Publish(tid)]
  }

  /** They do what the uninterrupted GetOrLoad does: the same entries, the same answer. */
  lemma AloneIsGetOrLoad(s: State, tid: nat, provider: Provider, force: bool, loaded: Option<nat>)
    requires !Active(s, tid) && (loaded.Some? ==> loaded.value == At(s.files, Resolved(provider)))
    ensures var key, steps := Resolved(provider), Alone(s, tid, provider, force, loaded);
      && Runs(s, steps)
      && var t := Final(s, steps);
         && tid in t.calls
         && (if !force && key in s.entries then
               t.entries == s.entries && t.calls[tid].Returned? && t.calls[tid].entry == s.entries[key]
             else if loaded.None? then
               && (if force then Gone(key, s.entries, t.entries) else t.entries == s.entries)
               && t.calls[tid].Failed?
             else
               && t.calls[tid].Returned? && t.calls[tid].entry == Entry(key, loaded.value)
               && t.entries == PublishTo(s.entries, t.calls[tid].entry))
  {
    var key, check := Resolved(provider), Check(tid, provider, force);
    if !force && key in s.entries {
      OneStep(s, check);
    } else if loaded.None? {
      OneStep(s, check);
      OneStep(Apply(s, check), BeginLoad(tid));
      OneStep(Apply(Apply(s, check), BeginLoad(tid)), FailLoad(tid));
      RunsConcat(s, [check], [BeginLoad(tid)]);
      RunsConcat(s, [check] + [BeginLoad(tid)], [FailLoad(tid)]);
      assert [check] + [BeginLoad(tid)] + [FailLoad(tid)] == [check, BeginLoad(tid), FailLoad(tid)];
    } else {
      FourSteps(s, check, BeginLoad(tid), EndLoad(tid, loaded.value), Publish(tid));
    }
  }

  // ---------------------------------------------------------------- keys that stay away

  /** The step makes sure that the key has no entry. */
  predicate Removes(step: Step, key: string) {
    (step.Invalidate? && step.key == key) || (step.Check? && step.force && Resolved(step.provider) == key)
  }

  /** The step publishes an entry under the key. */
  predicate Publishes(s: State, step: Step, key: string) {
    step.Publish? && step.tid in s.calls && s.calls[step.tid].Loaded? && s.calls[step.tid].entry.path == key
  }

  ghost predicate PublishedIn(s: State, steps: seq<Step>, key: string)
    decreases steps
  {
    steps != [] && Enabled(s, steps[0])
    && (Publishes(s, steps[0], key) || PublishedIn(Apply(s, steps[0]), steps[1..], key))
  }

  /** Invalidation and a forced check remove the key and nothing else; publishing puts the loaded
      entry there; no other step touches it. */
  lemma RemovesExactly(s: State, step: Step, key: string)
    requires Enabled(s, step)
    ensures var entries := Apply(s, step).entries;
      if Removes(step, key) then Gone(key, s.entries, entries)
      else if Publishes(s, step, key) then key in entries && entries[key] == s.calls[step.tid].entry
      else (key in entries <==> key in s.entries) && (key in entries ==> entries[key] == s.entries[key])
  {
    EraseRemoves(s.entries, key);
  }

  /** A key without an entry stays without one, in every run, until a call publishes it. */
  lemma {:induction false} AbsentUntilPublished(s: State, steps: seq<Step>, key: string)
    requires Runs(s, steps) && key !in s.entries && !PublishedIn(s, steps, key)
    ensures key !in Final(s, steps).entries
    decreases steps
  {
    if steps != [] {
      AbsentUntilPublished(Apply(s, steps[0]), steps[1..], key);
    }
  }

  /** So a call that checks after an invalidation, with no publication between, does not hit: it
      loads, and what it publishes and returns is the version it loaded. */
  lemma ReloadsAfterInvalidate(s: State, steps: seq<Step>, tid: nat, provider: Provider, version: nat)
    requires var key := Resolved(provider); Runs(Apply(s, Invalidate(key)), steps)
    requires !PublishedIn(Apply(s, Invalidate(Resolved(provider))), steps, Resolved(provider))
    requires var t := Final(Apply(s, Invalidate(Resolved(provider))), steps);
      !Active(t, tid) && version == At(t.files, Resolved(provider))
    ensures var t := Final(Apply(s, Invalidate(Resolved(provider))), steps);
      var call := [Check(tid, provider, false), BeginLoad(tid), EndLoad(tid, version), Publish(tid)];
      && Runs(t, call)
      && tid in Final(t, call).calls && Final(t, call).calls[tid].Returned?
      && Final(t, call).calls[tid].entry == Entry(Resolved(provider), version)
  {
    var key := Resolved(provider);
    RemovesExactly(s, Invalidate(key), key);
    AbsentUntilPublished(Apply(s, Invalidate(key)), steps, key);
    AloneIsGetOrLoad(Final(Apply(s, Invalidate(key)), steps), tid, provider, false, Some(version));
  }
}
