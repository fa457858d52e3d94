/** What the store promises over whole runs of operations, one at a time. */
module StoreProofs {
  import opened Wrappers
  import opened Magic
  import opened Types
  import opened StoreModel

  // ---- reachability, as chains of pins ----

  /** chain[0] is a ref target and every later hash is pinned by the stored manifest before it. */
  ghost predicate IsChain(f: Foreign, s: State, chain: seq<ManifestHash>) {
    && chain != []
    && chain[0] in RefTargets(s.refs)
    && forall i | 0 < i < |chain| :: chain[i] in PinnedDeps(f, s.objects, chain[i - 1])
  }

  ghost predicate Reached(f: Foreign, s: State, h: ManifestHash) {
    exists chain :: IsChain(f, s, chain) && chain[|chain| - 1] == h
  }

  lemma {:induction false} ChainsStayInside(f: Foreign, s: State, chain: seq<ManifestHash>, W: set<ManifestHash>)
    requires IsChain(f, s, chain) && Closed(f, s, W)
    ensures chain[|chain| - 1] in W
    decreases |chain|
  {
    if |chain| > 1 {
      var front := chain[..|chain| - 1];
      ChainsStayInside(f, s, front, W);
      assert chain[|chain| - 1] in PinnedDeps(f, s.objects, front[|front| - 1]);
    }
  }

  lemma ReachedTargets(f: Foreign, s: State, h: ManifestHash)
    requires h in RefTargets(s.refs)
    ensures Reached(f, s, h)
  {
    assert IsChain(f, s, [h]) && [h][|[h]| - 1] == h;
  }

  lemma ReachedPins(f: Foreign, s: State, m: ManifestHash, d: ManifestHash)
    requires Reached(f, s, m) && d in PinnedDeps(f, s.objects, m)
    ensures Reached(f, s, d)
  {
    var chain :| IsChain(f, s, chain) && chain[|chain| - 1] == m;
    var longer := chain + [d];
    assert IsChain(f, s, longer) && longer[|longer| - 1] == d;
  }

  /** The collector keeps exactly the manifests some ref reaches through pinned dependencies. */
  lemma LiveIffReached(f: Foreign, s: State, h: ManifestHash)
    ensures h in LiveManifests(f, s) <==> Reached(f, s, h)
  {
    LiveIsLeastClosed(f, s);
    var live := LiveManifests(f, s);
    if Reached(f, s, h) {
      var chain :| IsChain(f, s, chain) && chain[|chain| - 1] == h;
      ChainsStayInside(f, s, chain, live);
    }
    var R := set m | m in live && Reached(f, s, m);
    forall m | m in RefTargets(s.refs) ensures m in R {
      ReachedTargets(f, s, m);
    }
    forall m, d | m in R && d in PinnedDeps(f, s.objects, m) ensures d in R {
      ReachedPins(f, s, m, d);
    }
    assert Closed(f, s, R);
  }

  // ---- gc is exact ----

  lemma SameManifests(f: Foreign, s: State, t: State, m: ManifestHash)
    requires m in t.objects ==> m in s.objects && t.objects[m] == s.objects[m]
    requires m in s.objects ==> m in t.objects
    ensures PinnedDeps(f, t.objects, m) == PinnedDeps(f, s.objects, m)
    ensures LayersOf(f, t.objects, m) == LayersOf(f, s.objects, m)
  {
  }

  /** Two stores with the same refs and, on what one of them reaches, the same pins reach the same. */
  lemma SameLeast(f: Foreign, s: State, t: State, live: set<ManifestHash>)
    requires s.refs == t.refs && LeastClosed(f, s, live)
    requires forall m | m in live :: PinnedDeps(f, t.objects, m) == PinnedDeps(f, s.objects, m)
    ensures LiveManifests(f, t) == live
  {
    LiveIsLeastClosed(f, t);
    var again := LiveManifests(f, t);
    assert Closed(f, t, live);
    assert Closed(f, s, again * live);
  }

  lemma GcKeepsLive(f: Foreign, s: State)
    ensures LiveManifests(f, AfterGc(f, s)) == LiveManifests(f, s)
    ensures LiveDiffs(f, AfterGc(f, s)) == LiveDiffs(f, s)
    ensures LiveBlobs(f, AfterGc(f, s)) == LiveBlobs(f, s)
  {
    var t := AfterGc(f, s);
    var live := LiveManifests(f, s);
    LiveIsLeastClosed(f, s);
    forall m | m in live
      ensures PinnedDeps(f, t.objects, m) == PinnedDeps(f, s.objects, m)
      ensures LayersOf(f, t.objects, m) == LayersOf(f, s.objects, m)
    {
      SameManifests(f, s, t, m);
    }
    SameLeast(f, s, t, live);
    assert LiveDiffs(f, t) == LiveDiffs(f, s);
    assert TargetsOf(t.diffs, LiveDiffs(f, t)) == TargetsOf(s.diffs, LiveDiffs(f, s));
  }

  lemma NothingDead(f: Foreign, t: State)
    requires t.objects.Keys <= LiveBlobs(f, t) && t.diffs.Keys <= LiveDiffs(f, t)
    ensures DeadBlobs(f, t) == {} && DeadDiffs(f, t) == {} && AfterGc(f, t) == t
  {
    assert t.objects - {} == t.objects && t.diffs - {} == t.diffs;
  }

  /** After gc a stored object or index entry is there exactly when it was there and live. */
  lemma GcIsExact(f: Foreign, s: State)
    ensures forall b :: b in AfterGc(f, s).objects <==> b in s.objects && b in LiveBlobs(f, s)
    ensures forall d :: d in AfterGc(f, s).diffs <==> d in s.diffs && d in LiveDiffs(f, s)
    ensures AfterGc(f, s).refs == s.refs
    ensures DeadBlobs(f, AfterGc(f, s)) == {} && DeadDiffs(f, AfterGc(f, s)) == {}
    ensures AfterGc(f, AfterGc(f, s)) == AfterGc(f, s)
  {
    var t := AfterGc(f, s);
    GcKeepsLive(f, s);
    NothingDead(f, t);
  }

  // ---- runs ----

  datatype Op =
    | DoPutBlob(bytes: Bytes)
    | DoPutManifest(bytes: Bytes)
    | DoPutRef(key: RefKey, hash: ManifestHash)
    | DoRemoveRef(key: RefKey)
    | DoGc
    | DoFsckRepair

  ghost function Step(f: Foreign, s: State, op: Op): State {
    match op
    case DoPutBlob(bytes) => AfterPutBlob(f, s, bytes)
    case DoPutManifest(bytes) => AfterPutManifest(f, s, bytes)
    case DoPutRef(key, hash) => AfterPutRef(s, key, hash)
    case DoRemoveRef(key) => AfterRemoveRef(s, key)
    case DoGc => AfterGc(f, s)
    case DoFsckRepair => AfterRepair(f, s)
  }

  ghost function Run(f: Foreign, s: State, ops: seq<Op>): State {
    if ops == [] then s else Step(f, Run(f, s, ops[..|ops| - 1]), ops[|ops| - 1])
  }

  ghost predicate ObjectsSound(f: Foreign, s: State) {
    forall b | b in s.objects :: f.hash(s.objects[b]) == b
  }

  ghost predicate DiffSound(f: Foreign, s: State, d: DiffId)
    requires d in s.diffs
  {
    && s.diffs[d].Points?
    && s.diffs[d].target in s.objects
    && Holds(f, s.objects[s.diffs[d].target], d)
  }

  /** Every object hashes to its id, every index entry leads to content with that diff id, every ref parses. */
  ghost predicate Sound(f: Foreign, s: State) {
    && ObjectsSound(f, s)
    && (forall d | d in s.diffs :: DiffSound(f, s, d))
    && RefsSound(s)
  }

  ghost predicate RefsSound(s: State) {
    forall k | k in s.refs :: s.refs[k].Points? && PlainKey(k)
  }

  lemma GcKeepsSound(f: Foreign, s: State)
    requires Sound(f, s)
    ensures Sound(f, AfterGc(f, s))
  {
    var t := AfterGc(f, s);
    forall d | d in t.diffs ensures DiffSound(f, t, d) {
      assert DiffSound(f, s, d);
      assert s.diffs[d].target in TargetsOf(s.diffs, LiveDiffs(f, s));
    }
  }

  lemma StoreKeepsSound(f: Foreign, s: State, bytes: Bytes)
    requires CollisionFree(f) && Sound(f, s)
    ensures Sound(f, Store(f, s, bytes))
    ensures f.hash(bytes) in Store(f, s, bytes).objects && Store(f, s, bytes).objects[f.hash(bytes)] == bytes
  {
    var t := Store(f, s, bytes);
    if f.hash(bytes) in s.objects {
      NoCollision(f, s.objects[f.hash(bytes)], bytes);
    } else {
      forall d | d in t.diffs ensures DiffSound(f, t, d) {
        assert DiffSound(f, s, d);
      }
    }
  }

  lemma IndexKeepsSound(f: Foreign, s: State, d: DiffId, b: BlobId)
    requires Sound(f, s)
    requires b in s.objects && Holds(f, s.objects[b], d)
    ensures Sound(f, Index(s, d, b))
  {
    var t := Index(s, d, b);
    forall e | e in t.diffs ensures DiffSound(f, t, e) {
      assert e in s.diffs ==> DiffSound(f, s, e);
    }
  }

  lemma PutBlobKeepsSound(f: Foreign, s: State, bytes: Bytes)
    requires CollisionFree(f) && Sound(f, s)
    ensures Sound(f, AfterPutBlob(f, s, bytes))
  {
    if DiffIdOf(f, bytes).Some? {
      StoreKeepsSound(f, s, bytes);
      IndexKeepsSound(f, Store(f, s, bytes), DiffIdOf(f, bytes).value, f.hash(bytes));
    }
  }

  lemma RefOpsKeepSound(f: Foreign, s: State, t: State)
    requires Sound(f, s) && RefsSound(t) && t.objects == s.objects && t.diffs == s.diffs
    ensures Sound(f, t)
  {
    forall d | d in t.diffs ensures DiffSound(f, t, d) {
      assert DiffSound(f, s, d);
    }
  }

  lemma PutRefKeepsSound(f: Foreign, s: State, key: RefKey, hash: ManifestHash)
    requires Sound(f, s)
    ensures Sound(f, AfterPutRef(s, key, hash))
  {
    RefOpsKeepSound(f, s, AfterPutRef(s, key, hash));
  }

  lemma RemoveRefKeepsSound(f: Foreign, s: State, key: RefKey)
    requires Sound(f, s)
    ensures Sound(f, AfterRemoveRef(s, key))
  {
    RefOpsKeepSound(f, s, AfterRemoveRef(s, key));
  }

  lemma PutManifestKeepsSound(f: Foreign, s: State, bytes: Bytes)
    requires CollisionFree(f) && Sound(f, s)
    ensures Sound(f, AfterPutManifest(f, s, bytes))
  {
    if f.utf8(bytes) {
      StoreKeepsSound(f, s, bytes);
      RefOpsKeepSound(f, Store(f, s, bytes), AfterPutManifest(f, s, bytes));
    }
  }

  lemma RepairKeepsSound(f: Foreign, s: State)
    requires Sound(f, s)
    ensures Sound(f, AfterRepair(f, s))
  {
    var t := AfterRepair(f, s);
    forall d | d in t.diffs ensures DiffSound(f, t, d) {
      assert DiffSound(f, s, d);
    }
  }

  lemma StepKeepsSound(f: Foreign, s: State, op: Op)
    requires CollisionFree(f) && Sound(f, s)
    ensures Sound(f, Step(f, s, op))
  {
    match op
    case DoPutBlob(bytes) => PutBlobKeepsSound(f, s, bytes);
    case DoPutManifest(bytes) => PutManifestKeepsSound(f, s, bytes);
    case DoPutRef(key, hash) => PutRefKeepsSound(f, s, key, hash);
    case DoRemoveRef(key) => RemoveRefKeepsSound(f, s, key);
    case DoGc => GcKeepsSound(f, s);
    case DoFsckRepair => RepairKeepsSound(f, s);
  }

  lemma {:induction false} RunsAreSound(f: Foreign, s: State, ops: seq<Op>)
    requires CollisionFree(f) && Sound(f, s)
    ensures Sound(f, Run(f, s, ops))
  {
    if ops != [] {
      RunsAreSound(f, s, ops[..|ops| - 1]);
      StepKeepsSound(f, Run(f, s, ops[..|ops| - 1]), ops[|ops| - 1]);
    }
  }

  /** After any run from an empty store, fsck has nothing to report but refs without a manifest. */
  lemma OnlyBrokenRefs(f: Foreign, ops: seq<Op>)
    requires CollisionFree(f)
    ensures FsckErrors(f, Run(f, EMPTY, ops)) == BrokenRefs(Run(f, EMPTY, ops))
  {
    RunsAreSound(f, EMPTY, ops);
    var s := Run(f, EMPTY, ops);
    forall d | d in s.diffs ensures !Orphaned(f, s, d) {
      assert DiffSound(f, s, d);
    }
  }

  /**
   * Storing a blob that unpacks and reading it back gives the blob under its hash, and under the
   * hash of its content a blob with that very content; one that does not unpack is not stored.
   */
  lemma PutThenGet(f: Foreign, ops: seq<Op>, bytes: Bytes)
    requires CollisionFree(f)
    ensures var s := Run(f, EMPTY, ops); var t := AfterPutBlob(f, s, bytes);
            && (forall c | Unpacks(f, bytes, c) ::
                  && f.hash(bytes) in t.objects && t.objects[f.hash(bytes)] == bytes
                  && f.hash(c) in t.diffs && t.diffs[f.hash(c)].Points?
                  && t.diffs[f.hash(c)].target in t.objects && Unpacks(f, t.objects[t.diffs[f.hash(c)].target], c))
            && ((forall c :: !Unpacks(f, bytes, c)) ==> t == s)
  {
    RunsAreSound(f, EMPTY, ops);
    var s := Run(f, EMPTY, ops);
    var t := AfterPutBlob(f, s, bytes);
    PutBlobKeepsSound(f, s, bytes);
    forall c | Unpacks(f, bytes, c)
      ensures f.hash(bytes) in t.objects && t.objects[f.hash(bytes)] == bytes
      ensures f.hash(c) in t.diffs && DiffSound(f, t, f.hash(c))
      ensures Unpacks(f, t.objects[t.diffs[f.hash(c)].target], c)
    {
      assert DiffIdOf(f, bytes) == Some(f.hash(c));
      StoreKeepsSound(f, s, bytes);
      var blob := t.objects[t.diffs[f.hash(c)].target];
      var x :| Unpacks(f, blob, x) && f.hash(x) == f.hash(c);
      NoCollision(f, x, c);
    }
  }

  // ---- refs ----

  /** A put that succeeds is read back under every key that names the file, and changes no other. */
  lemma PutRefThenGet(s: State, key: RefKey, hash: ManifestHash, other: RefKey)
    requires PutRefError(s, key, hash).None?
    ensures ReadRef(AfterPutRef(s, key, hash), other) ==
        if SameFile(key, other) then Some(Points(hash)) else ReadRef(s, other)
  {
    PathLength(key);
    PathLength(other);
    if ReadRef(s, key).None? {
      assert forall n | 1 <= n < |PathOf(key)| :: |PathOf(key)[..n]| < |PathOf(key)|;
      WriteThenRead(WithRefDirs(s, key), key, hash, other);
      assert ReadRef(WithRefDirs(s, key), other) == ReadRef(s, other);
    }
  }

  lemma PutRefKeepsRefs(s: State, key: RefKey, hash: ManifestHash, other: RefKey)
    requires ReadRef(s, other).Some?
    ensures ReadRef(AfterPutRef(s, key, hash), other) == ReadRef(s, other)
  {
    if PutRefError(s, key, hash).None? {
      PutRefThenGet(s, key, hash, other);
      PathLength(key);
      PathLength(other);
    }
  }

  /** One call at a time, a ref once written keeps its text until it is removed or repaired away. */
  lemma {:induction false} RefsAreImmutable(f: Foreign, s: State, ops: seq<Op>, key: RefKey)
    requires ReadRef(s, key).Some?
    requires forall op | op in ops :: op != DoFsckRepair && (op.DoRemoveRef? ==> !SameFile(op.key, key))
    ensures ReadRef(Run(f, s, ops), key) == ReadRef(s, key)
  {
    if ops != [] {
      var front, op := ops[..|ops| - 1], ops[|ops| - 1];
      assert forall o | o in front :: o in ops;
      RefsAreImmutable(f, s, front, key);
      assert op in ops;
      if op.DoPutRef? {
        PutRefKeepsRefs(Run(f, s, front), op.key, op.hash, key);
      } else if op.DoRemoveRef? {
        DropThenRead(Run(f, s, front), op.key, key);
      }
    }
  }

  // ---- what one ref protects ----

  /** A chain of pins that starts at the target of this ref. */
  ghost predicate Anchored(f: Foreign, s: State, key: RefKey, m: ManifestHash) {
    exists chain :: IsChain(f, s, chain) && chain[|chain| - 1] == m
                    && key in s.refs && s.refs[key] == Points(chain[0])
  }

  /** t still has, unchanged, everything that s reaches from the ref. */
  ghost predicate Protects(f: Foreign, s: State, t: State, key: RefKey)
    requires Sound(f, s) && key in s.refs
  {
    && key in t.refs && t.refs[key] == s.refs[key]
    && (forall m | Anchored(f, s, key, m) && m in s.objects :: m in t.objects && t.objects[m] == s.objects[m])
    && (forall m, d | Anchored(f, s, key, m) && d in LayersOf(f, s.objects, m) && d in s.diffs ::
          DiffSound(f, s, d) && d in t.diffs && t.diffs[d] == s.diffs[d]
          && s.diffs[d].target in t.objects && t.objects[s.diffs[d].target] == s.objects[s.diffs[d].target])
  }

  lemma AnchoredPins(f: Foreign, s: State, t: State, key: RefKey, m: ManifestHash, d: ManifestHash)
    requires Sound(f, s) && key in s.refs && Protects(f, s, t, key)
    requires Anchored(f, s, key, m) && d in PinnedDeps(f, s.objects, m)
    ensures d in PinnedDeps(f, t.objects, m)
  {
  }

  lemma PrefixAnchored(f: Foreign, s: State, key: RefKey, chain: seq<ManifestHash>, i: nat)
    requires IsChain(f, s, chain) && key in s.refs && s.refs[key] == Points(chain[0]) && i < |chain|
    ensures Anchored(f, s, key, chain[i])
  {
    var front := chain[..i + 1];
    assert IsChain(f, s, front) && front[|front| - 1] == chain[i];
  }

  /** A chain from the ref in s is a chain in t. */
  lemma AnchoredChainStays(f: Foreign, s: State, t: State, key: RefKey, chain: seq<ManifestHash>)
    requires Sound(f, s) && key in s.refs && Protects(f, s, t, key)
    requires IsChain(f, s, chain) && s.refs[key] == Points(chain[0])
    ensures IsChain(f, t, chain)
  {
    assert chain[0] in RefTargets(t.refs) by {
      assert t.refs[key] == Points(chain[0]);
    }
    forall i | 0 < i < |chain| ensures chain[i] in PinnedDeps(f, t.objects, chain[i - 1]) {
      PrefixAnchored(f, s, key, chain, i - 1);
      AnchoredPins(f, s, t, key, chain[i - 1], chain[i]);
    }
  }

  lemma GcProtects(f: Foreign, s: State, t: State, key: RefKey)
    requires Sound(f, s) && key in s.refs && Protects(f, s, t, key)
    ensures Protects(f, s, AfterGc(f, t), key)
  {
    forall m | Anchored(f, s, key, m) && m in s.objects
      ensures m in LiveManifests(f, t)
      ensures LayersOf(f, t.objects, m) == LayersOf(f, s.objects, m)
    {
      var chain :| IsChain(f, s, chain) && chain[|chain| - 1] == m && s.refs[key] == Points(chain[0]);
      AnchoredChainStays(f, s, t, key, chain);
      LiveIffReached(f, t, m);
    }
    forall m, d | Anchored(f, s, key, m) && d in LayersOf(f, s.objects, m) && d in s.diffs
      ensures d in LiveDiffs(f, t) && s.diffs[d].target in LiveBlobs(f, t)
    {
      assert d in LayersOf(f, t.objects, m);
      assert s.diffs[d].target in TargetsOf(t.diffs, LiveDiffs(f, t));
    }
  }

  /**
   * While a ref stays, the manifest it names, every manifest pinned from there, their index
   * entries and the blobs behind them survive any run, whatever else is stored or collected.
   */
  lemma {:induction false} RefProtectsClosure(f: Foreign, s: State, ops: seq<Op>, key: RefKey)
    requires CollisionFree(f) && Sound(f, s)
    requires key in s.refs && s.refs[key].target in s.objects
    requires forall op | op in ops :: op != DoRemoveRef(key)
    ensures Protects(f, s, Run(f, s, ops), key)
  {
    if ops == [] {
      forall m, d | Anchored(f, s, key, m) && d in LayersOf(f, s.objects, m) && d in s.diffs
          ensures DiffSound(f, s, d) { }
    } else {
      var front, op := ops[..|ops| - 1], ops[|ops| - 1];
      assert forall o | o in front :: o in ops;
      RefProtectsClosure(f, s, front, key);
      var t := Run(f, s, front);
      RunsAreSound(f, s, front);
      assert op in ops;
      match op
      case DoGc => GcProtects(f, s, t, key);
      case DoFsckRepair => RepairProtects(f, s, t, key);
      case _ =>
        WritesOnlyAdd(f, t, op);
        RefStays(f, t, op, key);
        GrowthProtects(f, s, t, Step(f, t, op), key);
    }
  }

  lemma RefStays(f: Foreign, s: State, op: Op, key: RefKey)
    requires key in s.refs && PlainKey(key) && op != DoRemoveRef(key) && !op.DoFsckRepair?
    ensures key in Step(f, s, op).refs && Step(f, s, op).refs[key] == s.refs[key]
  {
  }

  lemma SameRefsSameLive(f: Foreign, s: State, t: State)
    requires s.refs == t.refs && s.objects == t.objects && s.diffs == t.diffs
    ensures LiveBlobs(f, t) == LiveBlobs(f, s)
  {
    LiveIsLeastClosed(f, s);
    SameLeast(f, s, t, LiveManifests(f, s));
  }

  /**
   * Among the keys put_ref accepts, those with a component "." name a file no listing finds:
   * the ref reads back, yet the next collection deletes a manifest that nothing else reaches.
   */
  lemma PutRefProtectsIff(f: Foreign, s: State, key: RefKey, hash: ManifestHash)
    requires PutRefError(s, key, hash).None? && hash in s.objects && hash !in LiveBlobs(f, s)
    ensures ReadRef(AfterPutRef(s, key, hash), key) == Some(Points(hash))
    ensures hash in AfterGc(f, AfterPutRef(s, key, hash)).objects <==> PlainKey(key)
  {
    var t := AfterPutRef(s, key, hash);
    if PlainKey(key) {
      assert t.refs[key] == Points(hash);
      LiveIsLeastClosed(f, t);
      assert hash in RefTargets(t.refs);
    } else {
      PutRefThenGet(s, key, hash, key);
      SameRefsSameLive(f, s, t);
    }
  }

  /** The others protect what their target reaches, over every run. */
  lemma PlainPutProtects(f: Foreign, s: State, key: RefKey, hash: ManifestHash, ops: seq<Op>)
    requires CollisionFree(f) && Sound(f, s) && hash in s.objects
    requires PutRefError(s, key, hash).None? && PlainKey(key)
    requires forall op | op in ops :: op != DoRemoveRef(key)
    ensures var t := AfterPutRef(s, key, hash);
            Sound(f, t) && key in t.refs && t.refs[key] == Points(hash) && Protects(f, t, Run(f, t, ops), key)
  {
    StepKeepsSound(f, s, DoPutRef(key, hash));
    RefProtectsClosure(f, AfterPutRef(s, key, hash), ops, key);
  }

  lemma WritesOnlyAdd(f: Foreign, s: State, op: Op)
    requires !op.DoGc? && !op.DoFsckRepair?
    ensures s.objects.Items <= Step(f, s, op).objects.Items
    ensures s.diffs.Items <= Step(f, s, op).diffs.Items
  {
  }

  lemma GrowthProtects(f: Foreign, s: State, t: State, u: State, key: RefKey)
    requires Sound(f, s) && key in s.refs && Protects(f, s, t, key)
    requires key in u.refs && u.refs[key] == t.refs[key]
    requires t.objects.Items <= u.objects.Items && t.diffs.Items <= u.diffs.Items
    ensures Protects(f, s, u, key)
  {
    assert forall b | b in t.objects :: (b, t.objects[b]) in t.objects.Items;
    assert forall d | d in t.diffs :: (d, t.diffs[d]) in t.diffs.Items;
  }

  lemma RepairProtects(f: Foreign, s: State, t: State, key: RefKey)
    requires Sound(f, s) && Sound(f, t) && key in s.refs && s.refs[key].target in s.objects
    requires Protects(f, s, t, key)
    ensures Protects(f, s, AfterRepair(f, t), key)
  {
    var h := s.refs[key].target;
    assert IsChain(f, s, [h]) && [h][|[h]| - 1] == h;
    assert Anchored(f, s, key, h);
    forall d | d in t.diffs ensures !Orphaned(f, t, d) {
      assert DiffSound(f, t, d);
    }
  }

  // ---- fsck ----

  ghost predicate Clean(f: Foreign, s: State) {
    && (forall b | b in s.objects :: !Corrupted(f, s, b))
    && (forall d | d in s.diffs :: !Orphaned(f, s, d))
    && (forall k | k in s.refs :: !Broken(s, k))
  }

  lemma CleanIffNoErrors(f: Foreign, s: State)
    ensures FsckErrors(f, s) == {} <==> Clean(f, s)
  {
    forall b | Corrupted(f, s, b) ensures FsckErrors(f, s) != {} {
      assert HashMismatch(b, f.hash(s.objects[b])) in Mismatches(f, s);
    }
    forall d | Orphaned(f, s, d) ensures FsckErrors(f, s) != {} {
      assert OrphanedDiff(d, s.diffs[d].target) in Orphans(f, s);
    }
    forall k | Broken(s, k) ensures FsckErrors(f, s) != {} {
      assert BrokenRef(k, s.refs[k].target) in BrokenRefs(s);
    }
  }

  /** The tests skip what does not parse: an empty report means a sound store exactly when all else parses. */
  lemma EmptyReportIsSoundIff(f: Foreign, s: State)
    requires FsckErrors(f, s) == {}
    ensures ObjectsSound(f, s)
    ensures forall d | d in s.diffs :: DiffSound(f, s, d) <==> s.diffs[d].Points?
    ensures Sound(f, s) <==> RefsSound(s) && forall d | d in s.diffs :: s.diffs[d].Points?
  {
    CleanIffNoErrors(f, s);
    forall b | b in s.objects ensures f.hash(s.objects[b]) == b {
      assert !Corrupted(f, s, b);
    }
    forall d | d in s.diffs ensures DiffSound(f, s, d) <==> s.diffs[d].Points? {
      assert !Orphaned(f, s, d);
    }
  }

  /** gc takes away objects, yet a store without errors stays without errors. */
  lemma GcKeepsClean(f: Foreign, s: State)
    requires FsckErrors(f, s) == {}
    ensures FsckErrors(f, AfterGc(f, s)) == {}
  {
    var t := AfterGc(f, s);
    CleanIffNoErrors(f, s);
    CleanIffNoErrors(f, t);
    LiveIsLeastClosed(f, s);
    forall d | d in t.diffs && t.diffs[d].Points? ensures !Orphaned(f, t, d) {
      assert s.diffs[d].target in TargetsOf(s.diffs, LiveDiffs(f, s));
      assert !Orphaned(f, s, d);
    }
    forall k | k in t.refs ensures !Broken(t, k) {
      assert !Broken(s, k);
    }
  }

  /**
   * Whatever the store looked like, after a repair fsck reports exactly the hash mismatches it
   * reported before: all the rest is fixed, nothing new appears, and no object is deleted.
   */
  lemma RepairLeavesMismatches(f: Foreign, s: State)
    ensures FsckErrors(f, AfterRepair(f, s)) == Mismatches(f, s)
    ensures AfterRepair(f, s).objects == s.objects
    ensures AfterRepair(f, AfterRepair(f, s)) == AfterRepair(f, s)
  {
    var t := AfterRepair(f, s);
    assert forall d | d in t.diffs :: !Orphaned(f, t, d) by {
      assert forall d | d in t.diffs :: Orphaned(f, t, d) == Orphaned(f, s, d);
    }
    assert forall k | k in t.refs :: !Broken(t, k) by {
      assert forall k | k in t.refs :: Broken(t, k) == Broken(s, k);
    }
    assert (set d | d in t.diffs && Orphaned(f, t, d)) == {};
    assert (set k | k in t.refs && Broken(t, k)) == {};
  }
}
