/** Refs under concurrent writers: what two writers can do to one ref, and exactly when a ref is safe. */
module RefRaces {
  import opened Wrappers
  import opened Types
  import opened StoreModel
  import opened StoreConcurrent

  // ---- two writers of one fresh ref ----

  lemma RefWriterWrites(f: Foreign, sys: Sys, t: Tid, key: RefKey, h: ManifestHash, go: Action)
    requires At(sys, t) == RefWait(key, h) && sys.exclusive == None && go.Advance?
    ensures var next := Run(f, sys, [(t, go), (t, go)]);
            next.store == WriteRef(sys.store, key, h) && next.exclusive == None
            && forall u: Tid | u != t :: At(next, u) == At(sys, u)
  {
    RunTwo(f, sys, t, go, go);
  }

  lemma BothPassCheck(f: Foreign, sys: Sys, key: RefKey, h: ManifestHash, k: ManifestHash, a: Schedule, b: Schedule)
    requires At(sys, 0).Idle? && At(sys, 1).Idle? && PutRefError(sys.store, key, h).None?
    requires ReadRef(sys.store, key).None?
    requires a == [(0, StartPutRef(key, h))] && b == [(1, StartPutRef(key, k))]
    ensures var next := Run(f, sys, a + b);
            && At(next, 0) == RefWait(key, h) && At(next, 1) == RefWait(key, k)
            && next == sys.(procs := next.procs, store := WithRefDirs(sys.store, key))
  {
    RunAppend(f, sys, a, b);
    RunOne(f, sys, 0, StartPutRef(key, h));
    RunOne(f, Run(f, sys, a), 1, StartPutRef(key, k));
    MadeDirsStay(sys.store, key);
  }

  /** Making the directories of a ref again changes nothing, and makes no file unreadable. */
  lemma MadeDirsStay(s: State, key: RefKey)
    ensures WithRefDirs(WithRefDirs(s, key), key) == WithRefDirs(s, key)
    ensures RefBlocked(WithRefDirs(s, key), key) == RefBlocked(s, key)
    ensures NoFilePath(WithRefDirs(s, key), key) == NoFilePath(s, key)
    ensures forall other :: ReadRef(WithRefDirs(s, key), other) == ReadRef(s, other)
  {
    assert forall n | 1 <= n < |PathOf(key)| :: |PathOf(key)[..n]| < |PathOf(key)|;
  }

  /** Both start, the first writes, and the second, which has passed the check, writes after it. */
  lemma BothWrite(f: Foreign, sys: Sys, key: RefKey, h: ManifestHash, k: ManifestHash, begins: Schedule, go: Action)
    requires At(sys, 0).Idle? && At(sys, 1).Idle? && sys.exclusive == None && go.Advance?
    requires PutRefError(sys.store, key, h).None? && ReadRef(sys.store, key).None?
    requires begins == [(0, StartPutRef(key, h))] + [(1, StartPutRef(key, k))]
    ensures var once := WriteRef(WithRefDirs(sys.store, key), key, h);
            && Run(f, sys, begins + [(0, go), (0, go)]).store == once
            && Run(f, sys, begins + [(0, go), (0, go)] + [(1, go), (1, go)]).store == WriteRef(once, key, k)
  {
    RunThreeParts(f, sys, begins, [(0, go), (0, go)], [(1, go), (1, go)]);
    RunAppend(f, sys, begins, [(0, go), (0, go)]);
    BothPassCheck(f, sys, key, h, k, [(0, StartPutRef(key, h))], [(1, StartPutRef(key, k))]);
    var waiting := Run(f, sys, begins);
    RefWriterWrites(f, waiting, 0, key, h, go);
    RefWriterWrites(f, Run(f, waiting, [(0, go), (0, go)]), 1, key, k, go);
  }

  /**
   * The conflict check of put_ref runs before it takes its lock, so of two writers that both
   * pass it the later replaces the other's ref.
   */
  lemma PutRefCanOverwrite(f: Foreign, sys: Sys, key: RefKey, h: ManifestHash, k: ManifestHash)
      returns (first: Schedule, second: Schedule)
    requires At(sys, 0).Idle? && At(sys, 1).Idle? && sys.exclusive == None
    requires PutRefError(sys.store, key, h).None? && ReadRef(sys.store, key).None?
    ensures forall e | e in first + second :: e.1.Advance? || e.1.StartPutRef?
    ensures ReadRef(Run(f, sys, first).store, key) == Some(Points(h))
    ensures ReadRef(Run(f, sys, first + second).store, key) == Some(Points(k))
  {
    var go := Advance(h, {});
    var begins: Schedule := [(0, StartPutRef(key, h))] + [(1, StartPutRef(key, k))];
    first, second := begins + [(0, go), (0, go)], [(1, go), (1, go)];
    BothWrite(f, sys, key, h, k, begins, go);
    SecondWriteReads(sys.store, key, h, k);
  }

  lemma SecondWriteReads(s: State, key: RefKey, h: ManifestHash, k: ManifestHash)
    requires PutRefError(s, key, h).None? && ReadRef(s, key).None?
    ensures var once := WriteRef(WithRefDirs(s, key), key, h);
            ReadRef(once, key) == Some(Points(h)) && ReadRef(WriteRef(once, key, k), key) == Some(Points(k))
  {
    var ready := WithRefDirs(s, key);
    MadeDirsStay(s, key);
    WriteThenRead(ready, key, h, key);
    WriteThenRead(WriteRef(ready, key, h), key, k, key);
  }

  // ---- when a ref is safe ----

  /** A process inside a call that will write another target into the ref's file, or remove it. */
  predicate Endangers(p: Proc, key: RefKey, h: ManifestHash) {
    match p
    case RefWait(k, g) => SameFile(k, key) && g != h
    case RefWrite(k, g) => SameFile(k, key) && g != h
    case UnrefWait(k) => SameFile(k, key)
    case UnrefRemove(k) => SameFile(k, key)
    case _ => false
  }

  ghost predicate Settled(sys: Sys, key: RefKey, h: ManifestHash) {
    ReadRef(sys.store, key) == Some(Points(h)) && forall t: Tid :: !Endangers(At(sys, t), key, h)
  }

  predicate Removes(act: Action, key: RefKey) {
    act.StartRemoveRef? && SameFile(act.key, key)
  }

  lemma SameFileReadsAlike(s: State, k: RefKey, j: RefKey)
    requires SameFile(k, j)
    ensures ReadRef(s, k) == ReadRef(s, j)
  {
    SameFileIsSameKey(k, j);
  }

  lemma OtherStepsLeaveRefs(f: Foreign, sys: Sys, t: Tid, pick: Hash, listed: set<Hash>)
    requires !At(sys, t).RefWrite? && !At(sys, t).UnrefRemove?
    ensures var next := Continue(f, sys, t, pick, listed).store;
            next.refs == sys.store.refs && next.beside == sys.store.beside
  {
  }

  lemma ContinueKeepsText(f: Foreign, sys: Sys, t: Tid, pick: Hash, listed: set<Hash>, key: RefKey, h: ManifestHash)
    requires ReadRef(sys.store, key) == Some(Points(h)) && !Endangers(At(sys, t), key, h)
    ensures ReadRef(Continue(f, sys, t, pick, listed).store, key) == Some(Points(h))
  {
    var p := At(sys, t);
    if p.RefWrite? {
      if !NoFilePath(sys.store, p.key) { WriteThenRead(sys.store, p.key, p.hash, key); }
    } else if p.UnrefRemove? {
      DropThenRead(sys.store, p.key, key);
    } else {
      OtherStepsLeaveRefs(f, sys, t, pick, listed);
    }
  }

  lemma ContinueStaysHarmless(f: Foreign, sys: Sys, t: Tid, pick: Hash, listed: set<Hash>, key: RefKey, h: ManifestHash)
    requires !Endangers(At(sys, t), key, h)
    ensures !Endangers(At(Continue(f, sys, t, pick, listed), t), key, h)
  {
  }

  lemma StartKeepsSettled(f: Foreign, sys: Sys, t: Tid, act: Action, key: RefKey, h: ManifestHash)
    requires !act.Advance? && !Dies(act) && !Removes(act, key) && ReadRef(sys.store, key) == Some(Points(h))
    ensures ReadRef(Start(f, sys, t, act).store, key) == Some(Points(h))
    ensures !Endangers(At(Start(f, sys, t, act), t), key, h)
  {
    if act.StartPutRef? {
      MadeDirsStay(sys.store, act.key);
      if SameFile(act.key, key) { SameFileReadsAlike(sys.store, act.key, key); }
    }
  }

  /** A temporary file is left under a free name, so no ref that reads changes. */
  lemma TempLeavesText(s: State, key: RefKey, hash: ManifestHash, temp: string, other: RefKey)
    requires ReadRef(s, other).Some?
    ensures ReadRef(LeaveTemp(s, key, hash, temp), other) == ReadRef(s, other)
  {
  }

  lemma StepKeepsSettled(f: Foreign, sys: Sys, t: Tid, act: Action, key: RefKey, h: ManifestHash)
    requires Settled(sys, key, h) && !Removes(act, key)
    ensures Settled(Step(f, sys, t, act), key, h)
  {
    if act.Advance? {
      ContinueKeepsText(f, sys, t, act.pick, act.listed, key, h);
      ContinueStaysHarmless(f, sys, t, act.pick, act.listed, key, h);
    } else if !Dies(act) {
      StartKeepsSettled(f, sys, t, act, key, h);
    } else if act.CrashLeaving? && At(sys, t).RefWrite? {
      TempLeavesText(sys.store, At(sys, t).key, At(sys, t).hash, act.temp, key);
    }
    forall u: Tid ensures !Endangers(At(Step(f, sys, t, act), u), key, h) {
      if u != t { OthersStandStill(f, sys, t, act, u); }
    }
  }

  /** Unless someone starts to remove it, a settled ref stays settled under any interleaving. */
  lemma {:induction false} RunKeepsSettled(f: Foreign, sys: Sys, sched: Schedule, key: RefKey, h: ManifestHash)
    requires Settled(sys, key, h) && forall e | e in sched :: !Removes(e.1, key)
    ensures Settled(Run(f, sys, sched), key, h)
  {
    if sched != [] {
      var front, last := sched[..|sched| - 1], sched[|sched| - 1];
      assert forall e | e in front :: e in sched;
      RunKeepsSettled(f, sys, front, key, h);
      assert last in sched;
      StepKeepsSettled(f, Run(f, sys, front), last.0, last.1, key, h);
    }
  }

  /** No path under refs/ is both a file and a directory. */
  predicate TreeSound(s: State) {
    s.beside.files.Keys !! s.beside.dirs
  }

  lemma ContinueKeepsTree(f: Foreign, sys: Sys, t: Tid, pick: Hash, listed: set<Hash>)
    requires TreeSound(sys.store)
    ensures TreeSound(Continue(f, sys, t, pick, listed).store)
  {
    if !At(sys, t).RefWrite? && !At(sys, t).UnrefRemove? {
      OtherStepsLeaveRefs(f, sys, t, pick, listed);
    }
  }

  lemma StepKeepsTree(f: Foreign, sys: Sys, t: Tid, act: Action)
    requires TreeSound(sys.store)
    ensures TreeSound(Step(f, sys, t, act).store)
  {
    if act.Advance? {
      ContinueKeepsTree(f, sys, t, act.pick, act.listed);
    } else if act.StartPutRef? && !RefBlocked(sys.store, act.key) {
      var path := PathOf(act.key);
      forall n | 1 <= n < |path| ensures path[..n] !in sys.store.beside.files { }
    }
  }

  lemma {:induction false} RunKeepsLockAndTree(f: Foreign, sys: Sys, sched: Schedule)
    requires LockSafe(sys) && TreeSound(sys.store)
    ensures LockSafe(Run(f, sys, sched)) && TreeSound(Run(f, sys, sched).store)
  {
    if sched != [] {
      var front, last := sched[..|sched| - 1], sched[|sched| - 1];
      RunKeepsLockAndTree(f, sys, front);
      StepKeepsLockSafe(f, Run(f, sys, front), last.0, last.1);
      StepKeepsTree(f, Run(f, sys, front), last.0, last.1);
    }
  }

  /** The collector dies, if there is one, so the lock is free for ref writers. */
  lemma LockFreed(f: Foreign, sys: Sys, t: Tid) returns (sched: Schedule)
    requires LockSafe(sys) && !InGc(At(sys, t))
    ensures |sched| <= 1 && forall e | e in sched :: e.1 == Crash
    ensures var next := Run(f, sys, sched);
            next.exclusive == None && next.store == sys.store && At(next, t) == At(sys, t)
  {
    sched := [];
    if sys.exclusive.Some? {
      sched := [(sys.exclusive.value, Crash)];
      RunOne(f, sys, sys.exclusive.value, Crash);
    }
  }

  /** A process with the lock free, run until its ref is written or removed. */
  lemma EndangeredFalls(f: Foreign, sys: Sys, t: Tid, key: RefKey, h: ManifestHash) returns (sched: Schedule)
    requires sys.exclusive == None && TreeSound(sys.store)
    requires ReadRef(sys.store, key) == Some(Points(h)) && Endangers(At(sys, t), key, h)
    ensures forall e | e in sched :: e.1.Advance?
    ensures ReadRef(Run(f, sys, sched).store, key) != Some(Points(h))
  {
    var go := Advance(h, {});
    var p := At(sys, t);
    if p.RefWait? || p.UnrefWait? {
      sched := [(t, go), (t, go)];
      RunTwo(f, sys, t, go, go);
    } else {
      sched := [(t, go)];
      RunOne(f, sys, t, go);
    }
    SameFileIsSameKey(p.key, key);
    if p.RefWait? || p.RefWrite? {
      WriteThenRead(sys.store, p.key, p.hash, key);
    } else {
      DropThenRead(sys.store, p.key, key);
    }
  }

  lemma EndangeredCanFall(f: Foreign, sys: Sys, t: Tid, key: RefKey, h: ManifestHash) returns (sched: Schedule)
    requires LockSafe(sys) && TreeSound(sys.store)
    requires ReadRef(sys.store, key) == Some(Points(h)) && Endangers(At(sys, t), key, h)
    ensures forall e | e in sched :: e.1.Advance? || e.1.Crash?
    ensures ReadRef(Run(f, sys, sched).store, key) != Some(Points(h))
  {
    var freed := LockFreed(f, sys, t);
    var rest := EndangeredFalls(f, Run(f, sys, freed), t, key, h);
    sched := freed + rest;
    RunAppend(f, sys, freed, rest);
  }

  ghost predicate AlwaysReads(f: Foreign, sys: Sys, key: RefKey, h: ManifestHash) {
    forall sched: Schedule | NeverRemoved(sched, key) :: ReadRef(Run(f, sys, sched).store, key) == Some(Points(h))
  }

  predicate NeverRemoved(sched: Schedule, key: RefKey) {
    forall i | 0 <= i < |sched| :: !Removes(sched[i].1, key)
  }

  /**
   * A written ref keeps its target in every interleaving in which nobody starts to remove it,
   * exactly when no process stands inside a call that will replace or remove it.
   */
  lemma RefIsSafeIffSettled(f: Foreign, sys: Sys, key: RefKey, h: ManifestHash)
    requires LockSafe(sys) && TreeSound(sys.store) && ReadRef(sys.store, key) == Some(Points(h))
    ensures AlwaysReads(f, sys, key, h) <==> Settled(sys, key, h)
  {
    if Settled(sys, key, h) {
      forall sched: Schedule | NeverRemoved(sched, key)
          ensures ReadRef(Run(f, sys, sched).store, key) == Some(Points(h)) {
        RunKeepsSettled(f, sys, sched, key, h);
      }
    } else {
      var t: Tid :| Endangers(At(sys, t), key, h);
      var sched := EndangeredCanFall(f, sys, t, key, h);
      assert NeverRemoved(sched, key) by {
        forall i | 0 <= i < |sched| ensures !Removes(sched[i].1, key) {
          assert sched[i] in sched;
        }
      }
    }
  }

  // ---- what a dying ref writer leaves ----

  lemma TempIsPlain(key: RefKey, temp: string)
    requires TempName(temp)
    ensures PlainKey(key) ==> PlainKey(TempKey(key, temp))
    ensures ValidRefComponent(temp)
  {
    assert temp[0] == '.' && temp[1] == 't' && temp[2] == 'm' && temp[3] == 'p' by {
      assert temp[..4] == ".tmp";
    }
    forall i | 0 < i < |temp| ensures temp[i] != '.' {
      if i >= 4 {
        assert temp[i] == temp[4..][i - 4] && temp[i] in temp[4..];
      }
    }
    forall c | c in temp ensures c != '/' && c != '\\' && !ControlChar(c) {
      assert c in temp[..4] || c in temp[4..] by {
        assert temp == temp[..4] + temp[4..];
      }
    }
  }

  /**
   * A process that dies before the rename leaves a listed ref under a made-up version, and so a
   * pin nobody asked for, exactly when no component of its key is ".".
   */
  lemma DyingWriterPinsIff(f: Foreign, sys: Sys, t: Tid, temp: string)
    requires At(sys, t).RefWrite? && TempName(temp)
    requires RefKey(At(sys, t).key.namespace, At(sys, t).key.name, temp) !in sys.store.refs
    requires At(sys, t).hash !in RefTargets(sys.store.refs)
    ensures var p, next := At(sys, t), Step(f, sys, t, CrashLeaving(temp)).store;
            && (p.hash in RefTargets(next.refs) <==> PlainKey(p.key))
            && next.refs == if PlainKey(p.key)
                            then sys.store.refs[RefKey(p.key.namespace, p.key.name, temp) := Points(p.hash)]
                            else sys.store.refs
  {
    var p, next := At(sys, t), Step(f, sys, t, CrashLeaving(temp)).store;
    PathLength(p.key);
    if PlainKey(p.key) {
      assert next.refs[TempKey(p.key, temp)] == Points(p.hash);
    }
  }

  /**
   * Whatever runs afterwards, collections included, that ref stays and its target stays live,
   * as long as nobody removes it by the name that was made up.
   */
  lemma LeftoverPinsForever(f: Foreign, sys: Sys, t: Tid, temp: string, sched: Schedule)
    requires At(sys, t).RefWrite? && TempName(temp) && PlainKey(At(sys, t).key)
    requires var left := TempKey(At(sys, t).key, temp);
             && left !in sys.store.refs && NeverRemoved(sched, left)
             && forall u: Tid | u != t :: !Endangers(At(sys, u), left, At(sys, t).hash)
    ensures var p, last := At(sys, t), Run(f, Step(f, sys, t, CrashLeaving(temp)), sched).store;
            && ReadRef(last, RefKey(p.key.namespace, p.key.name, temp)) == Some(Points(p.hash))
            && p.hash in LiveManifests(f, last)
  {
    var p, next := At(sys, t), Step(f, sys, t, CrashLeaving(temp));
    var left := TempKey(p.key, temp);
    TempIsPlain(p.key, temp);
    PathLength(p.key);
    forall u: Tid ensures !Endangers(At(next, u), left, p.hash) {
      if u != t { OthersStandStill(f, sys, t, CrashLeaving(temp), u); }
    }
    RunKeepsSettled(f, next, sched, left, p.hash);
    var last := Run(f, next, sched).store;
    assert p.hash in RefTargets(last.refs);
    LiveIsLeastClosed(f, last);
  }
}
