/**
 * When a collection can leave the entry of a put_blob without its blob: exactly when nothing
 * but the put relies on the blob.
 */
module StrandedPuts {
  import opened Wrappers
  import opened Types
  import opened StoreModel
  import opened StoreConcurrent
  import opened PutConvergence
  import opened PutsAndGc
  import opened GcSafety
  import RefRaces

  // ---- a collection with nobody in between ----

  /** b differs from a in where process u stands, and in nothing else. */
  ghost predicate Alone(a: Sys, b: Sys, u: Tid) {
    && b == a.(procs := b.procs)
    && forall v: Tid | v != u :: At(b, v) == At(a, v)
  }

  ghost predicate Solo(sched: Schedule, u: Tid) {
    forall e | e in sched :: e.0 == u && e.1.Advance?
  }

  /** Steps of process u, the start of a collection among them. */
  ghost predicate Collects(sched: Schedule, u: Tid) {
    forall e | e in sched :: e.0 == u && (e.1.Advance? || e.1.StartGc?)
  }

  lemma StepFirst(f: Foreign, sys: Sys, u: Tid, act: Action, rest: Schedule)
    ensures Run(f, sys, [(u, act)] + rest) == Run(f, Step(f, sys, u, act), rest)
  {
    RunAppend(f, sys, [(u, act)], rest);
    RunOne(f, sys, u, act);
  }

  /** Marking alone on a store misses nothing that is live and has marked nothing else. */
  ghost predicate MarksLive(f: Foreign, s: State, p: Proc) {
    Phase(f, s, s, p) && MarksOnlyLive(f, s, p)
  }

  ghost predicate MarksOnlyLive(f: Foreign, s: State, p: Proc) {
    match p
    case GcPop(queue, visited, blobs, diffs) =>
      visited + queue <= LiveManifests(f, s) && blobs <= LiveBlobs(f, s) && diffs <= LiveDiffs(f, s)
    case GcLayers(queue, visited, blobs, diffs, todo, deps) =>
      && visited + queue + deps <= LiveManifests(f, s) && blobs <= LiveBlobs(f, s) && diffs <= LiveDiffs(f, s)
      && forall d | d in todo :: d in LiveDiffs(f, s)
    case GcListObjects(blobs, diffs, present) =>
      blobs <= LiveBlobs(f, s) && diffs <= LiveDiffs(f, s) && present == s.objects.Keys
    case GcListDiffs(dead, diffs, present) =>
      s.objects.Keys - LiveBlobs(f, s) <= dead && diffs <= LiveDiffs(f, s) && present == s.diffs.Keys
    case GcSweep(deadBlobs, deadDiffs) =>
      s.objects.Keys - LiveBlobs(f, s) <= deadBlobs && s.diffs.Keys - LiveDiffs(f, s) <= deadDiffs
    case _ => false
  }

  predicate Marks(p: Proc) {
    p.GcPop? || p.GcLayers?
  }

  lemma MarkStep(f: Foreign, sys: Sys, u: Tid, pick: Hash)
    requires Marks(At(sys, u)) && MarksLive(f, sys.store, At(sys, u))
    requires At(sys, u).GcPop? && At(sys, u).queue != {} ==> pick in At(sys, u).queue
    ensures var next := Continue(f, sys, u, pick, {});
            Alone(sys, next, u) && MarksLive(f, sys.store, At(next, u))
  {
    var p, s := At(sys, u), sys.store;
    LiveIsLeastClosed(f, s);
    HolderContinues(f, s, sys, u, pick, {});
    if p.GcLayers? && p.todo != [] {
      assert TargetsOf(s.diffs, {p.todo[0]}) <= LiveBlobs(f, s);
    }
  }

  /** Marking alone comes to an end. */
  lemma SoloMark(f: Foreign, sys: Sys, u: Tid) returns (sched: Schedule)
    requires Marks(At(sys, u)) && MarksLive(f, sys.store, At(sys, u))
    ensures Solo(sched, u)
    ensures var next := Run(f, sys, sched);
            Alone(sys, next, u) && MarksLive(f, sys.store, At(next, u)) && At(next, u).GcListObjects?
    decreases LiveManifests(f, sys.store) - At(sys, u).visited, At(sys, u).GcLayers?,
              if At(sys, u).GcLayers? then |At(sys, u).todo| else |At(sys, u).queue|
  {
    var p := At(sys, u);
    var pick := Sha256([]);
    if p.GcPop? && p.queue != {} {
      pick :| pick in p.queue;
    }
    MarkStep(f, sys, u, pick);
    var next := Continue(f, sys, u, pick, {});
    if p.GcPop? && p.queue == {} {
      sched := [(u, Advance(pick, {}))];
      RunOne(f, sys, u, Advance(pick, {}));
    } else {
      var rest := SoloMark(f, next, u);
      sched := [(u, Advance(pick, {}))] + rest;
      StepFirst(f, sys, u, Advance(pick, {}), rest);
    }
  }

  lemma SoloStart(f: Foreign, sys: Sys, u: Tid, go: Action)
    requires At(sys, u).Idle? && sys.exclusive == None && sys.shared == {} && go.Advance?
    ensures var next := Run(f, sys, [(u, StartGc), (u, go)]);
            Alone(sys.(exclusive := Some(u)), next, u) && At(next, u).GcPop? && MarksLive(f, sys.store, At(next, u))
  {
    RunTwo(f, sys, u, StartGc, go);
    LiveIsLeastClosed(f, sys.store);
    HolderContinues(f, sys.store, Step(f, sys, u, StartGc), u, go.pick, go.listed);
  }

  lemma SoloList(f: Foreign, sys: Sys, u: Tid, go: Action)
    requires At(sys, u).GcListObjects? && MarksLive(f, sys.store, At(sys, u)) && go.Advance?
    ensures var next := Run(f, sys, [(u, go), (u, go)]);
            Alone(sys, next, u) && At(next, u).GcSweep? && MarksLive(f, sys.store, At(next, u))
  {
    RunTwo(f, sys, u, go, go);
    var listed := Step(f, sys, u, go);
    HolderContinues(f, sys.store, sys, u, go.pick, go.listed);
    HolderContinues(f, sys.store, listed, u, go.pick, go.listed);
  }

  lemma SoloMarkAndList(f: Foreign, sys: Sys, u: Tid) returns (sched: Schedule)
    requires Marks(At(sys, u)) && MarksLive(f, sys.store, At(sys, u))
    ensures Solo(sched, u)
    ensures var next := Run(f, sys, sched);
            Alone(sys, next, u) && At(next, u).GcSweep? && MarksLive(f, sys.store, At(next, u))
  {
    var go := Advance(Sha256([]), {});
    var mark := SoloMark(f, sys, u);
    SoloList(f, Run(f, sys, mark), u, go);
    RunAppend(f, sys, mark, [(u, go), (u, go)]);
    sched := mark + [(u, go), (u, go)];
  }

  /** Alone, a collection reaches its sweep with exactly what is dead before it. */
  lemma SoloToSweep(f: Foreign, sys: Sys, u: Tid) returns (sched: Schedule)
    requires At(sys, u).Idle? && sys.exclusive == None && sys.shared == {}
    ensures Collects(sched, u)
    ensures var next := Run(f, sys, sched);
            && Alone(sys.(exclusive := Some(u)), next, u)
            && At(next, u).GcSweep? && MarksLive(f, sys.store, At(next, u))
  {
    var go := Advance(Sha256([]), {});
    SoloStart(f, sys, u, go);
    var mark := SoloMarkAndList(f, Run(f, sys, [(u, StartGc), (u, go)]), u);
    RunAppend(f, sys, [(u, StartGc), (u, go)], mark);
    sched := [(u, StartGc), (u, go)] + mark;
  }

  lemma SoloSweepBlobs(f: Foreign, sys: Sys, u: Tid) returns (sched: Schedule)
    requires At(sys, u).GcSweep?
    ensures Solo(sched, u)
    ensures var next, p := Run(f, sys, sched), At(sys, u);
            && Alone(sys.(store := sys.store.(objects := sys.store.objects - p.deadBlobs)), next, u)
            && At(next, u) == GcSweep({}, p.deadDiffs)
    decreases |At(sys, u).deadBlobs|
  {
    var p := At(sys, u);
    if p.deadBlobs == {} {
      sched := [];
      assert sys.store.objects - {} == sys.store.objects;
    } else {
      var pick :| pick in p.deadBlobs;
      var next := Continue(f, sys, u, pick, {});
      var rest := SoloSweepBlobs(f, next, u);
      sched := [(u, Advance(pick, {}))] + rest;
      StepFirst(f, sys, u, Advance(pick, {}), rest);
      assert sys.store.objects - {pick} - (p.deadBlobs - {pick}) == sys.store.objects - p.deadBlobs;
    }
  }

  lemma SoloSweepDiffs(f: Foreign, sys: Sys, u: Tid) returns (sched: Schedule)
    requires At(sys, u).GcSweep? && At(sys, u).deadBlobs == {}
    ensures Solo(sched, u)
    ensures var next, p := Run(f, sys, sched), At(sys, u);
            && Alone(sys.(store := sys.store.(diffs := sys.store.diffs - p.deadDiffs), exclusive := None), next, u)
            && At(next, u).Idle?
    decreases |At(sys, u).deadDiffs|
  {
    var p := At(sys, u);
    if p.deadDiffs == {} {
      sched := [(u, Advance(Sha256([]), {}))];
      RunOne(f, sys, u, Advance(Sha256([]), {}));
      assert sys.store.diffs - {} == sys.store.diffs;
    } else {
      var pick :| pick in p.deadDiffs;
      var next := Continue(f, sys, u, pick, {});
      var rest := SoloSweepDiffs(f, next, u);
      sched := [(u, Advance(pick, {}))] + rest;
      StepFirst(f, sys, u, Advance(pick, {}), rest);
      assert sys.store.diffs - {pick} - (p.deadDiffs - {pick}) == sys.store.diffs - p.deadDiffs;
    }
  }

  lemma {:induction false} Above(ns: set<nat>) returns (n: nat)
    ensures forall m | m in ns :: m < n
  {
    if ns == {} {
      n := 0;
    } else {
      var m :| m in ns;
      var rest := Above(ns - {m});
      n := if m < rest then rest else m + 1;
      assert forall k | k in ns :: k == m || k in ns - {m};
    }
  }

  lemma SomeoneIdle(sys: Sys, t: Tid) returns (u: Tid)
    requires !At(sys, t).Idle?
    ensures u != t && At(sys, u).Idle?
  {
    u := Above(sys.procs.Keys);
    assert u !in sys.procs.Keys;
  }

  // ---- schedules that leave refs and the diff id alone ----

  /** A ref that is there stays what it is; refs may be added. */
  ghost predicate RefsStay(f: Foreign, sys: Sys, sched: Schedule) {
    forall i | 0 <= i < |sched| :: RefsStayAt(f, sys, sched, i)
  }

  ghost predicate RefsStayAt(f: Foreign, sys: Sys, sched: Schedule, i: nat)
    requires i < |sched|
  {
    Run(f, sys, sched[..i]).store.refs.Items <= Run(f, sys, sched[..i + 1]).store.refs.Items
  }

  /** A put of other content with the same diff id. */
  ghost predicate Rivals(f: Foreign, act: Action, b: BlobId, d: DiffId) {
    act.StartPutBlob? && Holds(f, act.bytes, d) && f.hash(act.bytes) != b
  }

  /** No schedule of any calls and collections, deaths included if `mayDie`, leads the entry astray. */
  ghost predicate AlwaysResolves(f: Foreign, sys: Sys, b: BlobId, d: DiffId, mayDie: bool) {
    forall sched: Schedule | RefsStay(f, sys, sched) && Harmless(f, sched, b, d, mayDie) ::
      var last := Run(f, sys, sched).store;
      d in last.diffs ==> Resolves(f, last, d)
  }

  ghost predicate Harmless(f: Foreign, sched: Schedule, b: BlobId, d: DiffId, mayDie: bool) {
    forall i | 0 <= i < |sched| :: !Rivals(f, sched[i].1, b, d) && (mayDie || !Dies(sched[i].1))
  }

  // ---- what is live stays live ----

  /** A store that keeps what another's refs reach, and those refs, reaches at least as much. */
  lemma LiveGrows(f: Foreign, a: State, b: State)
    requires KeepsLive(f, a, b) && RefTargets(a.refs) <= RefTargets(b.refs)
    ensures LiveBlobs(f, a) <= LiveBlobs(f, b)
  {
    LiveIsLeastClosed(f, a);
    LiveIsLeastClosed(f, b);
    var kept := LiveManifests(f, a) * LiveManifests(f, b);
    assert Closed(f, a, kept) by {
      forall m, d | m in kept && d in PinnedDeps(f, a.objects, m) ensures d in kept {
        assert m in LiveBlobs(f, a) && d in PinnedDeps(f, b.objects, m);
      }
    }
    assert LiveManifests(f, a) <= LiveManifests(f, b);
    forall d | d in LiveDiffs(f, a) ensures d in LiveDiffs(f, b) {
      var m :| m in LiveManifests(f, a) && d in LayersOf(f, a.objects, m);
      assert m in LiveBlobs(f, a) && d in LayersOf(f, b.objects, m);
    }
    forall x | x in TargetsOf(a.diffs, LiveDiffs(f, a)) ensures x in TargetsOf(b.diffs, LiveDiffs(f, b)) {
      var d :| d in LiveDiffs(f, a) && d in a.diffs && a.diffs[d].Points? && a.diffs[d].target == x;
    }
  }

  lemma MoreRefs(a: State, b: State)
    requires a.refs.Items <= b.refs.Items
    ensures RefTargets(a.refs) <= RefTargets(b.refs)
  {
    forall k | k in a.refs ensures k in b.refs && b.refs[k] == a.refs[k] {
      assert (k, a.refs[k]) in a.refs.Items;
    }
  }

  lemma OutsideOnlyAdds(f: Foreign, sys: Sys, u: Tid, act: Action)
    requires CollisionFree(f) && ObjectsSound(f, sys.store) && !InGc(At(sys, u))
    ensures Extends(sys.store, Step(f, sys, u, act).store)
  {
    if act.Advance? {
      ContinueObjects(f, sys, u, act.pick, act.listed);
      ContinueIndex(f, sys, u, act.pick, act.listed);
      if At(sys, u).BlobRename? || At(sys, u).ManifestRename? {
        RenameKeeps(f, sys.store, At(sys, u).bytes);
      }
    } else {
      CallsStartEmptyHanded(f, sys, u, act);
    }
  }

  // ---- a sheltered entry ----

  /** A put of diff id d under way is a put of b. */
  predicate PutsOnly(f: Foreign, p: Proc, b: BlobId, d: DiffId) {
    match p
    case BlobCheck(bytes, e) => e == d ==> f.hash(bytes) == b
    case BlobRename(bytes, e) => e == d ==> f.hash(bytes) == b
    case DiffCheck(c, e) => e == d ==> c == b
    case DiffCreate(c, e) => e == d ==> c == b
    case DiffWrite(c, e) => e == d ==> c == b
    case _ => true
  }

  ghost predicate EntryIs(s: State, b: BlobId, d: DiffId) {
    d in s.diffs && s.diffs[d].Points? ==> s.diffs[d].target == b
  }

  /** The blob is live: in the store, or in what it was when the collection under way locked it. */
  ghost predicate Shielded(f: Foreign, sys: Sys, b: BlobId, d: DiffId) {
    match sys.exclusive
    case None => b in LiveBlobs(f, sys.store)
    case Some(g) =>
      exists snap: State :: Collecting(f, snap, sys, g) && b in LiveBlobs(f, snap) && Provides(f, snap, b, d)
  }

  ghost predicate Sheltered(f: Foreign, sys: Sys, b: BlobId, d: DiffId) {
    && LockSafe(sys) && ObjectsSound(f, sys.store)
    && Provides(f, sys.store, b, d) && EntryIs(sys.store, b, d) && Shielded(f, sys, b, d)
    && forall t: Tid :: PutsOnly(f, At(sys, t), b, d)
  }

  lemma ContinuePutsOnly(f: Foreign, sys: Sys, u: Tid, pick: Hash, listed: set<Hash>, b: BlobId, d: DiffId)
    requires PutsOnly(f, At(sys, u), b, d) && EntryIs(sys.store, b, d)
    ensures PutsOnly(f, At(Continue(f, sys, u, pick, listed), u), b, d)
    ensures EntryIs(Continue(f, sys, u, pick, listed).store, b, d)
  {
    if !InGc(At(sys, u)) {
      ContinueIndex(f, sys, u, pick, listed);
    }
  }

  lemma StepPutsOnly(f: Foreign, sys: Sys, u: Tid, act: Action, b: BlobId, d: DiffId)
    requires PutsOnly(f, At(sys, u), b, d) && EntryIs(sys.store, b, d) && !Rivals(f, act, b, d)
    ensures PutsOnly(f, At(Step(f, sys, u, act), u), b, d)
    ensures EntryIs(Step(f, sys, u, act).store, b, d)
  {
    if act.Advance? {
      ContinuePutsOnly(f, sys, u, act.pick, act.listed, b, d);
    } else {
      CallsStartEmptyHanded(f, sys, u, act);
    }
  }

  lemma ShieldUnderGc(f: Foreign, sys: Sys, u: Tid, act: Action, b: BlobId, d: DiffId)
    requires CollisionFree(f) && Sheltered(f, sys, b, d) && sys.exclusive.Some?
    ensures var next := Step(f, sys, u, act); Provides(f, next.store, b, d) && Shielded(f, next, b, d)
  {
    var g, next := sys.exclusive.value, Step(f, sys, u, act);
    var snap: State :| Collecting(f, snap, sys, g) && b in LiveBlobs(f, snap) && Provides(f, snap, b, d);
    StepCollecting(f, snap, sys, g, u, act);
    if next.exclusive == None {
      LiveGrows(f, snap, next.store);
    } else {
      LockMoves(f, sys, u, act);
    }
  }

  lemma LockMoves(f: Foreign, sys: Sys, u: Tid, act: Action)
    requires LockSafe(sys)
    ensures var next := Step(f, sys, u, act);
            if sys.exclusive.Some? then next.exclusive == None || next.exclusive == sys.exclusive
            else next.exclusive.Some? ==> next.exclusive == Some(u) && At(next, u) == GcList && next.store == sys.store
  {
  }

  lemma ShieldOutsideGc(f: Foreign, sys: Sys, u: Tid, act: Action, b: BlobId, d: DiffId)
    requires CollisionFree(f) && Sheltered(f, sys, b, d) && sys.exclusive == None
    requires sys.store.refs.Items <= Step(f, sys, u, act).store.refs.Items
    ensures var next := Step(f, sys, u, act); Provides(f, next.store, b, d) && Shielded(f, next, b, d)
  {
    var next := Step(f, sys, u, act);
    OutsideOnlyAdds(f, sys, u, act);
    LockMoves(f, sys, u, act);
    if next.exclusive.Some? {
      StepKeepsLockSafe(f, sys, u, act);
      assert Collecting(f, sys.store, next, u);
    } else {
      MoreRefs(sys.store, next.store);
      LiveGrows(f, sys.store, next.store);
    }
  }

  lemma StepSheltered(f: Foreign, sys: Sys, u: Tid, act: Action, b: BlobId, d: DiffId)
    requires CollisionFree(f) && Sheltered(f, sys, b, d) && !Rivals(f, act, b, d)
    requires sys.store.refs.Items <= Step(f, sys, u, act).store.refs.Items
    ensures Sheltered(f, Step(f, sys, u, act), b, d)
  {
    var next := Step(f, sys, u, act);
    StepKeepsLockSafe(f, sys, u, act);
    StepKeepsObjectsSound(f, sys, u, act);
    if sys.exclusive.Some? {
      ShieldUnderGc(f, sys, u, act, b, d);
    } else {
      ShieldOutsideGc(f, sys, u, act, b, d);
    }
    StepPutsOnly(f, sys, u, act, b, d);
    forall t: Tid ensures PutsOnly(f, At(next, t), b, d) {
      if t != u {
        OthersStandStill(f, sys, u, act, t);
      }
    }
  }

  lemma ScheduleFront(f: Foreign, sys: Sys, sched: Schedule, b: BlobId, d: DiffId)
    requires RefsStay(f, sys, sched) && Harmless(f, sched, b, d, true) && sched != []
    ensures var n := |sched| - 1;
            && RefsStay(f, sys, sched[..n]) && Harmless(f, sched[..n], b, d, true) && !Rivals(f, sched[n].1, b, d)
            && Run(f, sys, sched[..n]).store.refs.Items <= Run(f, sys, sched).store.refs.Items
  {
    var n := |sched| - 1;
    var front := sched[..n];
    forall i | 0 <= i < n ensures RefsStayAt(f, sys, front, i) {
      assert RefsStayAt(f, sys, sched, i) && front[..i] == sched[..i] && front[..i + 1] == sched[..i + 1];
    }
    assert RefsStayAt(f, sys, sched, n) && sched[..n + 1] == sched;
    assert forall i | 0 <= i < n :: front[i] == sched[i];
  }

  /** A sheltered entry is never led astray, whatever runs, collects or dies, while the refs stay. */
  lemma {:induction false} RunSheltered(f: Foreign, sys: Sys, sched: Schedule, b: BlobId, d: DiffId)
    requires CollisionFree(f) && Sheltered(f, sys, b, d)
    requires RefsStay(f, sys, sched) && Harmless(f, sched, b, d, true)
    ensures Sheltered(f, Run(f, sys, sched), b, d)
  {
    if sched != [] {
      var front, last := sched[..|sched| - 1], sched[|sched| - 1];
      ScheduleFront(f, sys, sched, b, d);
      RunSheltered(f, sys, front, b, d);
      StepSheltered(f, Run(f, sys, front), last.0, last.1, b, d);
    }
  }

  lemma ShelteredResolves(f: Foreign, sys: Sys, b: BlobId, d: DiffId, mayDie: bool)
    requires CollisionFree(f) && Sheltered(f, sys, b, d)
    ensures AlwaysResolves(f, sys, b, d, mayDie)
  {
    forall sched: Schedule | RefsStay(f, sys, sched) && Harmless(f, sched, b, d, mayDie)
      ensures var last := Run(f, sys, sched).store; d in last.diffs ==> Resolves(f, last, d)
    {
      RunSheltered(f, sys, sched, b, d);
    }
  }

  // ---- an entry led astray ----

  /** A process inside no call on refs. */
  predicate NoRefCall(p: Proc) {
    !p.RefWait? && !p.RefWrite? && !p.UnrefWait? && !p.UnrefRemove?
  }

  predicate WithoutRefs(act: Action) {
    act.Advance? || act.StartGc? || act.Crash?
  }

  lemma StepWithoutRefs(f: Foreign, sys: Sys, u: Tid, act: Action)
    requires NoRefCall(At(sys, u)) && WithoutRefs(act)
    ensures var next := Step(f, sys, u, act); next.store.refs == sys.store.refs && NoRefCall(At(next, u))
  {
    if act.Advance? {
      RefRaces.OtherStepsLeaveRefs(f, sys, u, act.pick, act.listed);
    }
  }

  lemma {:induction false} RefsUntouched(f: Foreign, sys: Sys, sched: Schedule, u: Tid, t: Tid)
    requires forall e | e in sched :: (e.0 == u || e.0 == t) && WithoutRefs(e.1)
    requires NoRefCall(At(sys, u)) && NoRefCall(At(sys, t))
    ensures var last := Run(f, sys, sched);
            last.store.refs == sys.store.refs && NoRefCall(At(last, u)) && NoRefCall(At(last, t))
  {
    if sched != [] {
      var front, last := sched[..|sched| - 1], sched[|sched| - 1];
      assert forall e | e in front :: e in sched;
      RefsUntouched(f, sys, front, u, t);
      assert last in sched;
      StepWithoutRefs(f, Run(f, sys, front), last.0, last.1);
      if t != u {
        OthersStandStill(f, Run(f, sys, front), last.0, last.1, if last.0 == u then t else u);
      }
    }
  }

  lemma NoRefsNoChange(f: Foreign, sys: Sys, sched: Schedule, u: Tid, t: Tid)
    requires forall e | e in sched :: (e.0 == u || e.0 == t) && WithoutRefs(e.1)
    requires NoRefCall(At(sys, u)) && NoRefCall(At(sys, t))
    ensures RefsStay(f, sys, sched)
  {
    forall i | 0 <= i < |sched| ensures RefsStayAt(f, sys, sched, i) {
      assert forall e | e in sched[..i] || e in sched[..i + 1] :: e in sched;
      RefsUntouched(f, sys, sched[..i], u, t);
      RefsUntouched(f, sys, sched[..i + 1], u, t);
    }
  }

  /** A put that has nothing indexed yet writes its entry without looking at the blob again. */
  lemma PutIndexes(f: Foreign, sys: Sys, t: Tid, b: BlobId, d: DiffId) returns (sched: Schedule)
    requires At(sys, t) == DiffCheck(b, d) || At(sys, t) == DiffCreate(b, d)
    requires d !in sys.store.diffs
    ensures Solo(sched, t)
    ensures var next := Run(f, sys, sched);
            next.store == sys.store.(diffs := sys.store.diffs[d := Points(b)]) && next.exclusive == sys.exclusive
  {
    var go := Advance(b, {});
    assert sys.store.diffs[d := Unparsed(t)][d := Points(b)] == sys.store.diffs[d := Points(b)];
    if At(sys, t).DiffCreate? {
      sched := [(t, go), (t, go)];
      RunTwo(f, sys, t, go, go);
    } else {
      sched := [(t, go)] + [(t, go), (t, go)];
      StepFirst(f, sys, t, go, [(t, go), (t, go)]);
      RunTwo(f, Step(f, sys, t, go), t, go, go);
    }
  }

  lemma SweepIsGc(f: Foreign, s: State, deadBlobs: set<BlobId>, deadDiffs: set<DiffId>)
    requires MarksLive(f, s, GcSweep(deadBlobs, deadDiffs))
    ensures s.(objects := s.objects - deadBlobs, diffs := s.diffs - deadDiffs) == AfterGc(f, s)
  {
    assert s.objects - deadBlobs == s.objects - DeadBlobs(f, s);
    assert s.diffs - deadDiffs == s.diffs - DeadDiffs(f, s);
  }

  /** A whole collection by process u, with nobody in between, ends and does what gc does. */
  lemma SoloCollect(f: Foreign, sys: Sys, u: Tid) returns (sched: Schedule)
    requires At(sys, u).Idle? && sys.exclusive == None && sys.shared == {}
    ensures Collects(sched, u)
    ensures var next := Run(f, sys, sched);
            && next.exclusive == None && next.store == AfterGc(f, sys.store)
            && forall v: Tid | v != u :: At(next, v) == At(sys, v)
  {
    var mark := SoloToSweep(f, sys, u);
    var marked := Run(f, sys, mark);
    var sweep := SoloSweepBlobs(f, marked, u);
    var swept := Run(f, marked, sweep);
    var end := SoloSweepDiffs(f, swept, u);
    RunThreeParts(f, sys, mark, sweep, end);
    sched := mark + sweep + end;
    SweepIsGc(f, sys.store, At(marked, u).deadBlobs, At(marked, u).deadDiffs);
    forall v: Tid | v != u ensures At(Run(f, sys, sched), v) == At(sys, v) {
      assert At(marked, v) == At(sys, v) && At(swept, v) == At(marked, v);
    }
  }

  /**
   * With the lock free, a put that relies on a blob nothing else keeps can be stranded: another
   * process collects, then the put goes on. Nobody dies.
   */
  lemma DeadBlobStrands(f: Foreign, sys: Sys, t: Tid, b: BlobId, d: DiffId) returns (sched: Schedule)
    requires sys.exclusive == None && sys.shared == {}
    requires At(sys, t) == DiffCheck(b, d) || At(sys, t) == DiffCreate(b, d)
    requires d !in sys.store.diffs && b in sys.store.objects && b !in LiveBlobs(f, sys.store)
    ensures Stranded(f, Run(f, sys, sched), d)
    ensures RefsStay(f, sys, sched) && Harmless(f, sched, b, d, false)
  {
    var u := SomeoneIdle(sys, t);
    var collect := SoloCollect(f, sys, u);
    var put := PutIndexes(f, Run(f, sys, collect), t, b, d);
    sched := collect + put;
    RunAppend(f, sys, collect, put);
    forall e | e in sched ensures (e.0 == u || e.0 == t) && WithoutRefs(e.1) {
      assert e in collect || e in put;
    }
    NoRefsNoChange(f, sys, sched, u, t);
    forall i | 0 <= i < |sched| ensures !Rivals(f, sched[i].1, b, d) && !Dies(sched[i].1) {
      assert sched[i] in collect || sched[i] in put;
    }
  }

  /**
   * put_blob with its blob found or stored and nothing indexed yet, the lock free, and no other
   * content for the same diff id on its way: over every schedule in which refs stay, with or
   * without dying processes, its entry never points anywhere else than to content with that
   * diff id, exactly when the blob is already reachable from a ref.
   */
  lemma PutResolvesIffLive(f: Foreign, sys: Sys, t: Tid, b: BlobId, d: DiffId, mayDie: bool)
    requires CollisionFree(f) && LockSafe(sys) && ObjectsSound(f, sys.store)
    requires sys.exclusive == None && sys.shared == {}
    requires At(sys, t) == DiffCheck(b, d) || At(sys, t) == DiffCreate(b, d)
    requires d !in sys.store.diffs && Provides(f, sys.store, b, d)
    requires forall u: Tid :: PutsOnly(f, At(sys, u), b, d)
    ensures AlwaysResolves(f, sys, b, d, mayDie) <==> b in LiveBlobs(f, sys.store)
  {
    if b in LiveBlobs(f, sys.store) {
      ShelteredResolves(f, sys, b, d, mayDie);
    } else {
      var sched := DeadBlobStrands(f, sys, t, b, d);
      assert Harmless(f, sched, b, d, mayDie);
    }
  }

  /** A collection by process u that dies when it has deleted the dead blobs and no entry yet. */
  lemma SoloDies(f: Foreign, sys: Sys, u: Tid, b: BlobId) returns (sched: Schedule)
    requires At(sys, u).Idle? && sys.exclusive == None && sys.shared == {}
    requires b in sys.store.objects && b !in LiveBlobs(f, sys.store)
    ensures forall e | e in sched :: e.0 == u && WithoutRefs(e.1)
    ensures var next := Run(f, sys, sched);
            next.exclusive == None && next.store.diffs == sys.store.diffs && b !in next.store.objects
  {
    var mark := SoloToSweep(f, sys, u);
    var marked := Run(f, sys, mark);
    var sweep := SoloSweepBlobs(f, marked, u);
    RunThreeParts(f, sys, mark, sweep, [(u, Crash)]);
    RunOne(f, Run(f, marked, sweep), u, Crash);
    sched := mark + sweep + [(u, Crash)];
  }

  /** A collector that dies between deleting a blob and deleting its entry strands the entry. */
  lemma DeadCollectorStrands(f: Foreign, sys: Sys, b: BlobId, d: DiffId) returns (sched: Schedule)
    requires sys.exclusive == None && sys.shared == {}
    requires d in sys.store.diffs && sys.store.diffs[d] == Points(b) && b !in LiveBlobs(f, sys.store)
    requires b in sys.store.objects
    ensures Stranded(f, Run(f, sys, sched), d)
    ensures RefsStay(f, sys, sched) && Harmless(f, sched, b, d, true)
  {
    var u := Above(sys.procs.Keys);
    assert u !in sys.procs.Keys;
    sched := SoloDies(f, sys, u, b);
    NoRefsNoChange(f, sys, sched, u, u);
    forall i | 0 <= i < |sched| ensures !Rivals(f, sched[i].1, b, d) {
      assert sched[i] in sched;
    }
  }

  /** So an entry that is there outlives dying collectors exactly when its blob is reachable from a ref. */
  lemma EntryResolvesIffLive(f: Foreign, sys: Sys, b: BlobId, d: DiffId)
    requires CollisionFree(f) && LockSafe(sys) && ObjectsSound(f, sys.store)
    requires sys.exclusive == None && sys.shared == {}
    requires d in sys.store.diffs && sys.store.diffs[d] == Points(b) && Provides(f, sys.store, b, d)
    requires forall u: Tid :: PutsOnly(f, At(sys, u), b, d)
    ensures AlwaysResolves(f, sys, b, d, true) <==> b in LiveBlobs(f, sys.store)
  {
    if b in LiveBlobs(f, sys.store) {
      ShelteredResolves(f, sys, b, d, true);
    } else {
      var sched := DeadCollectorStrands(f, sys, b, d);
    }
  }
}
