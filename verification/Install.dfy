/** Fetching what a resolution needs and recording it (crates/elu-cli/src/cmd/install.rs). */
module Install {
  import opened Wrappers
  import opened Magic
  import opened Types
  import opened StoreModel
  import opened StoreProofs
  import opened Resolver
  import opened ResolverProofs
  import opened LockfileOps
  import opened LockfileProofs
  import FsStore
  import Stage

  datatype FetchKind = FetchManifest(hash: ManifestHash) | FetchLayer(diffId: DiffId)

  datatype LayerRecord = LayerRecord(diffId: DiffId, blobId: BlobId)

  datatype InstallError = Unfetched(item: FetchKind) | Mismatch(item: FetchKind) | StoreFailed(error: StoreError)

  // ---- the fetch plan ----

  predicate Present(s: State, item: FetchKind) {
    match item
    case FetchManifest(h) => h in s.objects
    case FetchLayer(d) => d in s.diffs
  }

  ghost function Needs(r: Resolution): set<FetchKind> {
    (set m | m in r.manifests :: FetchManifest(m.hash)) + (set d | d in r.layers :: FetchLayer(d))
  }

  method BuildFetchPlan(store: FsStore.Store, r: Resolution) returns (items: seq<FetchKind>)
    ensures forall item :: item in items <==> item in Needs(r) && !Present(store.Snapshot(), item)
  {
    items := [];
    for i := 0 to |r.manifests|
      invariant forall item :: item in items <==>
          (exists j :: 0 <= j < i && item == FetchManifest(r.manifests[j].hash)) && !Present(store.Snapshot(), item)
    {
      var stored := store.Get(r.manifests[i].hash);
      if stored.None? {
        items := items + [FetchManifest(r.manifests[i].hash)];
      }
    }
    for i := 0 to |r.layers|
      invariant forall item :: item in items <==>
        ((exists j :: 0 <= j < |r.manifests| && item == FetchManifest(r.manifests[j].hash))
            || (exists j :: 0 <= j < i && item == FetchLayer(r.layers[j])))
        && !Present(store.Snapshot(), item)
    {
      var indexed := store.HasDiff(r.layers[i]);
      if !indexed {
        items := items + [FetchLayer(r.layers[i])];
      }
    }
  }

  // ---- executing it ----

  /** t has everything s had, unchanged, and the same refs. */
  ghost predicate Gained(s: State, t: State) {
    s.objects.Items <= t.objects.Items && s.diffs.Items <= t.diffs.Items && s.refs == t.refs && s.beside == t.beside
  }

  /** What is new is right: objects under their hashes, index entries that lead to their content. */
  ghost predicate GainedSound(f: Foreign, s: State, t: State) {
    Gained(s, t) && ObjectsSound(f, t) && forall d | d in t.diffs && d !in s.diffs :: DiffSound(f, t, d)
  }

  /** Every new object is a manifest asked for, or the target of a new index entry. */
  ghost predicate Accounted(s: State, t: State, items: set<FetchKind>) {
    forall b | b in t.objects && b !in s.objects :: FetchManifest(b) in items || NewlyIndexed(s, t, b)
  }

  ghost predicate NewlyIndexed(s: State, t: State, b: BlobId) {
    exists d :: d in t.diffs && d !in s.diffs && t.diffs[d] == Points(b)
  }

  lemma GainsKeep(s: State, t: State)
    requires Gained(s, t)
    ensures forall b | b in s.objects :: b in t.objects && t.objects[b] == s.objects[b]
    ensures forall d | d in s.diffs :: d in t.diffs && t.diffs[d] == s.diffs[d]
  {
    assert forall b | b in s.objects :: (b, s.objects[b]) in t.objects.Items;
    assert forall d | d in s.diffs :: (d, s.diffs[d]) in t.diffs.Items;
  }

  lemma GainsAddUp(f: Foreign, s: State, t: State, u: State)
    requires GainedSound(f, s, t) && GainedSound(f, t, u)
    ensures GainedSound(f, s, u)
  {
    GainsKeep(s, t);
    GainsKeep(t, u);
    forall d | d in u.diffs && d !in s.diffs ensures DiffSound(f, u, d) {
      if d in t.diffs { assert DiffSound(f, t, d); }
    }
  }

  lemma AccountsAddUp(s: State, t: State, u: State, x: set<FetchKind>, y: set<FetchKind>)
    requires Gained(s, t) && Gained(t, u) && Accounted(s, t, x) && Accounted(t, u, y)
    ensures Accounted(s, u, x + y)
  {
    GainsKeep(s, t);
    GainsKeep(t, u);
    forall b | b in u.objects && b !in s.objects && FetchManifest(b) !in x + y ensures NewlyIndexed(s, u, b) {
      if b in t.objects {
        var d :| d in t.diffs && d !in s.diffs && t.diffs[d] == Points(b);
        assert d in u.diffs && u.diffs[d] == Points(b);
      } else {
        var d :| d in u.diffs && d !in t.diffs && u.diffs[d] == Points(b);
        assert d !in s.diffs;
      }
    }
  }

  /** A store without errors stays without errors. */
  lemma GainsKeepSound(f: Foreign, s: State, t: State)
    requires Sound(f, s) && GainedSound(f, s, t)
    ensures Sound(f, t)
  {
    GainsKeep(s, t);
    forall d | d in t.diffs ensures DiffSound(f, t, d) {
      if d in s.diffs { assert DiffSound(f, s, d); }
    }
  }

  /** Record i is the first for d. */
  predicate IsFirst(cache: seq<LayerRecord>, d: DiffId, i: int) {
    0 <= i < |cache| && cache[i].diffId == d && forall j | 0 <= j < i :: cache[j].diffId != d
  }

  function RecordFor(cache: seq<LayerRecord>, d: DiffId): (r: Option<LayerRecord>)
    ensures forall i | IsFirst(cache, d, i) :: r == Some(cache[i])
    ensures r.None? <==> forall i :: !IsFirst(cache, d, i)
  {
    if cache == [] then None
    else if cache[0].diffId == d then
      assert IsFirst(cache, d, 0);
      Some(cache[0])
    else
      assert forall i | IsFirst(cache, d, i) :: IsFirst(cache[1..], d, i - 1);
      assert forall i | IsFirst(cache[1..], d, i) :: IsFirst(cache, d, i + 1);
      RecordFor(cache[1..], d)
  }

  /** The bytes are what the item asks for; a layer's blob is the one its first record names. */
  ghost predicate Delivers(f: Foreign, item: FetchKind, cache: seq<LayerRecord>, bytes: Option<Bytes>) {
    match item
    case FetchManifest(h) => bytes.Some? && f.hash(bytes.value) == h && f.utf8(bytes.value)
    case FetchLayer(d) =>
      && bytes.Some? && Holds(f, bytes.value, d)
      && exists i :: IsFirst(cache, d, i) && f.hash(bytes.value) == cache[i].blobId
  }

  function AfterDelivery(f: Foreign, s: State, item: FetchKind, bytes: Bytes): State {
    match item
    case FetchManifest(_) => AfterPutManifest(f, s, bytes)
    case FetchLayer(_) => AfterPutBlob(f, s, bytes)
  }

  /** One item; `bytes` is whatever the network returned for it, if anything. */
  method FetchOne(store: FsStore.Store, item: FetchKind, cache: seq<LayerRecord>, bytes: Option<Bytes>)
      returns (error: Option<InstallError>)
    modifies store
    ensures Gained(old(store.Snapshot()), store.Snapshot())
    ensures CollisionFree(store.f) && ObjectsSound(store.f, old(store.Snapshot())) ==>
        GainedSound(store.f, old(store.Snapshot()), store.Snapshot())
    ensures error.None? ==>
        Present(store.Snapshot(), item) && Accounted(old(store.Snapshot()), store.Snapshot(), {item})
    ensures error.None? <==> Present(old(store.Snapshot()), item) || Delivers(store.f, item, cache, bytes)
    ensures store.Snapshot() == old(store.Snapshot())
            || (!Present(old(store.Snapshot()), item) && bytes.Some?
                && store.Snapshot() == AfterDelivery(store.f, old(store.Snapshot()), item, bytes.value))
  {
    ghost var s := store.Snapshot();
    match item {
      case FetchManifest(h) =>
        var stored := store.Get(h);
        if stored.Some? {
          return None;
        }
        if bytes.None? {
          return Some(Unfetched(item));
        }
        if store.f.hash(bytes.value) != h {
          return Some(Mismatch(item));
        }
        PutManifestGains(store.f, s, bytes.value);
        ManifestAccounted(store.f, s, bytes.value);
        var put := store.PutManifest(bytes.value);
        if put.Failure? {
          return Some(StoreFailed(put.error));
        }
        if put.value != h {
          return Some(Mismatch(item));
        }
      case FetchLayer(d) =>
        var indexed := store.HasDiff(d);
        if indexed {
          return None;
        }
        var record := RecordFor(cache, d);
        if record.None? || bytes.None? {
          return Some(Unfetched(item));
        }
        if store.f.hash(bytes.value) != record.value.blobId {
          return Some(Mismatch(item));
        }
        PutBlobGains(store.f, s, bytes.value);
        BlobAccounted(store.f, s, bytes.value, item);
        var put := store.PutBlob(bytes.value);
        if put.Failure? {
          return Some(StoreFailed(put.error));
        }
        if put.value.blobId != record.value.blobId || put.value.diffId != record.value.diffId {
          return Some(Mismatch(item));
        }
    }
    error := None;
  }

  lemma StoreGains(f: Foreign, s: State, bytes: Bytes)
    ensures Gained(s, Store(f, s, bytes))
    ensures CollisionFree(f) && ObjectsSound(f, s) ==> GainedSound(f, s, Store(f, s, bytes))
    ensures f.hash(bytes) in Store(f, s, bytes).objects
    ensures CollisionFree(f) && ObjectsSound(f, s) ==> Store(f, s, bytes).objects[f.hash(bytes)] == bytes
  {
    if f.hash(bytes) in s.objects && CollisionFree(f) && ObjectsSound(f, s) {
      NoCollision(f, s.objects[f.hash(bytes)], bytes);
    }
  }

  lemma PutManifestGains(f: Foreign, s: State, bytes: Bytes)
    ensures Gained(s, AfterPutManifest(f, s, bytes))
    ensures CollisionFree(f) && ObjectsSound(f, s) ==> GainedSound(f, s, AfterPutManifest(f, s, bytes))
    ensures f.utf8(bytes) ==> f.hash(bytes) in AfterPutManifest(f, s, bytes).objects
  {
    StoreGains(f, s, bytes);
  }

  lemma ManifestAccounted(f: Foreign, s: State, bytes: Bytes)
    ensures Accounted(s, AfterPutManifest(f, s, bytes), {FetchManifest(f.hash(bytes))})
  {
  }

  lemma PutBlobGains(f: Foreign, s: State, bytes: Bytes)
    ensures Gained(s, AfterPutBlob(f, s, bytes))
    ensures CollisionFree(f) && ObjectsSound(f, s) ==> GainedSound(f, s, AfterPutBlob(f, s, bytes))
    ensures DiffIdOf(f, bytes).Some? ==> DiffIdOf(f, bytes).value in AfterPutBlob(f, s, bytes).diffs
  {
    StoreGains(f, s, bytes);
  }

  lemma BlobAccounted(f: Foreign, s: State, bytes: Bytes, item: FetchKind)
    ensures DiffIdOf(f, bytes).Some? && DiffIdOf(f, bytes).value !in s.diffs ==>
        Accounted(s, AfterPutBlob(f, s, bytes), {item})
  {
    if DiffIdOf(f, bytes).Some? && DiffIdOf(f, bytes).value !in s.diffs {
      var d, t := DiffIdOf(f, bytes).value, AfterPutBlob(f, s, bytes);
      assert d in t.diffs && t.diffs[d] == Points(f.hash(bytes));
    }
  }

  lemma PresentGains(s: State, t: State, item: FetchKind)
    requires Gained(s, t) && Present(s, item)
    ensures Present(t, item)
  {
    match item
    case FetchManifest(h) => assert (h, s.objects[h]) in t.objects.Items;
    case FetchLayer(d) => assert (d, s.diffs[d]) in t.diffs.Items;
  }

  /**
   * Whatever the network returns, the store only gains, and only what is right; on success every
   * item of the plan is present and every new object is accounted for.
   */
  method ExecuteFetchPlan(store: FsStore.Store, items: seq<FetchKind>, cache: seq<LayerRecord>,
                          network: FetchKind -> Option<Bytes>)
      returns (error: Option<InstallError>)
    modifies store
    ensures Gained(old(store.Snapshot()), store.Snapshot())
    ensures CollisionFree(store.f) && ObjectsSound(store.f, old(store.Snapshot())) ==>
        GainedSound(store.f, old(store.Snapshot()), store.Snapshot())
    ensures error.None? ==> forall item | item in items :: Present(store.Snapshot(), item)
    ensures error.None? ==> Accounted(old(store.Snapshot()), store.Snapshot(), FsStore.Elements(items))
    ensures (forall item | item in items ::
        Present(old(store.Snapshot()), item) || Delivers(store.f, item, cache, network(item))) ==>
              error.None?
  {
    ghost var start := store.Snapshot();
    for i := 0 to |items|
      invariant Gained(old(store.Snapshot()), store.Snapshot())
      invariant CollisionFree(store.f) && ObjectsSound(store.f, start) ==> GainedSound(store.f, start, store.Snapshot())
      invariant Accounted(start, store.Snapshot(), FsStore.Elements(items[..i]))
      invariant forall j | 0 <= j < i :: Present(store.Snapshot(), items[j])
    {
      ghost var before := store.Snapshot();
      if Present(start, items[i]) { PresentGains(start, before, items[i]); }
      error := FetchOne(store, items[i], cache, network(items[i]));
      if CollisionFree(store.f) && ObjectsSound(store.f, start) {
        GainsAddUp(store.f, start, before, store.Snapshot());
      }
      if error.Some? {
        return;
      }
      AccountsAddUp(start, before, store.Snapshot(), FsStore.Elements(items[..i]), {items[i]});
      assert FsStore.Elements(items[..i + 1]) == FsStore.Elements(items[..i]) + {items[i]};
      forall j | 0 <= j < i ensures Present(store.Snapshot(), items[j]) {
        PresentGains(before, store.Snapshot(), items[j]);
      }
    }
    assert items[..|items|] == items;
    error := None;
  }

  function RefOf(m: ResolvedManifest): RefKey {
    RefKey(m.package.namespace, m.package.name, m.manifest.version.text)
  }

  /** Package names and versions, as parsed, are never ".". */
  ghost predicate PlainNames(ms: seq<ResolvedManifest>) {
    forall m | m in ms :: PlainKey(RefOf(m))
  }

  /** Every ref that was there is unchanged, and every resolved manifest has its ref. */
  ghost predicate RefsWritten(s: State, t: State, ms: seq<ResolvedManifest>) {
    && t == s.(refs := t.refs, beside := t.beside) && t.beside.files == s.beside.files
    && (forall k | k in s.refs :: k in t.refs && t.refs[k] == s.refs[k])
    && (forall k | k in t.refs && k !in s.refs :: PlainKey(k) && exists m :: m in ms && RefOf(m) == k)
    && (forall m | m in ms :: RefOf(m) in t.refs && t.refs[RefOf(m)] == Points(m.hash))
  }

  /** Every name is a valid ref with no file in its way, and none is or will be taken by another manifest. */
  ghost predicate RefsFree(s: State, ms: seq<ResolvedManifest>) {
    && (forall m | m in ms :: RefKeyError(RefOf(m)).None?)
    && (forall m | m in ms && RefOf(m) in s.refs :: s.refs[RefOf(m)] == Points(m.hash))
    && (forall m | m in ms && RefOf(m) !in s.refs :: !RefBlocked(s, RefOf(m)))
    && (forall m, x | m in ms && x in ms && RefOf(m) == RefOf(x) :: m.hash == x.hash)
  }

  /** Each manifest's ref reads back under its package's namespace and name and its own version. */
  predicate ReadBack(t: State, ms: seq<ResolvedManifest>) {
    forall i | 0 <= i < |ms| ::
      var p, version := ms[i].package, ms[i].manifest.version;
      ReadRef(t, RefKey(p.namespace, p.name, version.text)) == Some(Points(ms[i].hash))
  }

  method WriteRefs(store: FsStore.Store, ms: seq<ResolvedManifest>) returns (error: Option<StoreError>)
    requires PlainNames(ms)
    modifies store`refs, store`beside
    ensures error.None? ==> ReadBack(store.Snapshot(), ms)
    ensures error.None? ==> RefsWritten(old(store.Snapshot()), store.Snapshot(), ms)
    ensures error.None? <==> RefsFree(old(store.Snapshot()), ms)
    ensures exists n :: 0 <= n <= |ms| && RefsWritten(old(store.Snapshot()), store.Snapshot(), ms[..n])
  {
    ghost var start := store.Snapshot();
    for i := 0 to |ms|
      invariant RefsWritten(start, store.Snapshot(), ms[..i])
      invariant RefsFree(start, ms[..i])
    {
      ghost var before := store.Snapshot();
      assert ms[..i + 1] == ms[..i] + [ms[i]];
      error := store.PutRef(RefOf(ms[i]), ms[i].hash);
      if error.Some? {
        NotFree(start, before, ms, i);
        return;
      }
      StillFree(start, before, ms[..i], ms[i]);
      WrittenToo(start, before, store.Snapshot(), ms[..i], ms[i]);
    }
    assert ms[..|ms|] == ms;
    error := None;
  }

  /** A ref that cannot be written clashes with a ref from the start or from this install. */
  lemma NotFree(start: State, s: State, ms: seq<ResolvedManifest>, i: nat)
    requires i < |ms| && PlainNames(ms) && RefsWritten(start, s, ms[..i])
    requires PutRefError(s, RefOf(ms[i]), ms[i].hash).Some?
    ensures !RefsFree(start, ms)
  {
    var m := ms[i];
    assert m in ms && forall x | x in ms[..i] :: x in ms;
    if RefKeyError(RefOf(m)).None? && RefOf(m) !in start.refs && RefOf(m) in s.refs {
      var x :| x in ms[..i] && RefOf(x) == RefOf(m);
      assert s.refs[RefOf(x)] == Points(x.hash);
    }
  }

  lemma PlainPut(s: State, key: RefKey, h: ManifestHash)
    requires PlainKey(key) && PutRefError(s, key, h).None?
    ensures var t := AfterPutRef(s, key, h);
            && t.refs == s.refs[key := Points(h)] && t.beside.files == s.beside.files
            && t == s.(refs := t.refs, beside := t.beside)
  {
    if key in s.refs {
      assert s.refs[key := Points(h)] == s.refs;
    }
  }

  lemma WrittenToo(start: State, s: State, t: State, written: seq<ResolvedManifest>, m: ResolvedManifest)
    requires RefsWritten(start, s, written) && PlainKey(RefOf(m)) && PutRefError(s, RefOf(m), m.hash).None?
    requires t == AfterPutRef(s, RefOf(m), m.hash)
    ensures RefsWritten(start, t, written + [m])
  {
    PlainPut(s, RefOf(m), m.hash);
    assert forall x | x in written :: x in written + [m];
    assert m in written + [m];
  }

  lemma StillFree(start: State, s: State, written: seq<ResolvedManifest>, m: ResolvedManifest)
    requires RefsWritten(start, s, written) && RefsFree(start, written) && PlainKey(RefOf(m))
    requires PutRefError(s, RefOf(m), m.hash).None?
    ensures RefsFree(start, written + [m])
  {
    forall x | x in written && RefOf(x) == RefOf(m) ensures x.hash == m.hash {
      assert s.refs[RefOf(x)] == Points(x.hash);
    }
  }

  /** Everything the resolution needs is there, and nothing else is new. */
  ghost predicate Complete(s: State, t: State, r: Resolution) {
    Gained(s, t) && Accounted(s, t, Needs(r)) && forall item | item in Needs(r) :: Present(t, item)
  }

  /** The three steps between resolution and stacking. */
  method FetchAndRecord(store: FsStore.Store, r: Resolution, cache: seq<LayerRecord>,
                        network: FetchKind -> Option<Bytes>)
      returns (error: Option<InstallError>)
    requires PlainNames(r.manifests)
    modifies store
    ensures error.None? ==> ReadBack(store.Snapshot(), r.manifests)
    ensures error.None? ==>
        exists mid: State :: Complete(old(store.Snapshot()), mid, r) && RefsWritten(mid, store.Snapshot(), r.manifests)
                                && (CollisionFree(store.f) && ObjectsSound(store.f, old(store.Snapshot())) ==>
                                    GainedSound(store.f, old(store.Snapshot()), mid))
    ensures RefsFree(old(store.Snapshot()), r.manifests)
            && (forall item | item in Needs(r) ::
                Present(old(store.Snapshot()), item) || Delivers(store.f, item, cache, network(item)))
            ==> error.None?
  {
    ghost var s := store.Snapshot();
    var items := BuildFetchPlan(store, r);
    error := ExecuteFetchPlan(store, items, cache, network);
    if error.Some? {
      return;
    }
    ghost var mid := store.Snapshot();
    forall item | item in Needs(r) ensures Present(mid, item) {
      if Present(s, item) {
        PresentGains(s, mid, item);
      }
    }
    var failed := WriteRefs(store, r.manifests);
    error := if failed.Some? then Some(StoreFailed(failed.value)) else None;
  }

  // ---- installing with --locked ----

  datatype LockDiff =
    | NoLockfile(pins: nat)
    | NewPin(package: PackageRef, version: Version)
    | HashDiffers(package: PackageRef, locked: ManifestHash, resolved: ManifestHash)

  /** The lockfile has an entry with this manifest's hash under the name it was reached by. */
  predicate Covered(lock: Lockfile, m: ResolvedManifest) {
    var entry := Lookup(lock.packages, m.package);
    entry.Some? && entry.value.hash == m.hash
  }

  lemma CoveredIff(lock: Lockfile, m: ResolvedManifest)
    ensures Covered(lock, m) <==> exists i :: FirstNamed(lock.packages, m.package, i) && lock.packages[i].hash == m.hash
  {
    forall i | FirstNamed(lock.packages, m.package, i)
      ensures Lookup(lock.packages, m.package) == Some(lock.packages[i])
    {
      LookupFindsFirst(lock.packages, m.package, i);
    }
    if Covered(lock, m) {
      var i := SomeFirst(lock.packages, m.package);
    }
  }

  predicate Matches(lock: Option<Lockfile>, ms: seq<ResolvedManifest>) {
    match lock case None => ms == [] case Some(l) => forall i | 0 <= i < |ms| :: Covered(l, ms[i])
  }

  /** No difference exactly when everything resolved is covered; else the first that is not. */
  method LockfileDiff(lock: Option<Lockfile>, r: Resolution) returns (diff: Option<LockDiff>)
    ensures diff.None? <==> Matches(lock, r.manifests)
    ensures diff.Some? && lock.None? ==> diff.value == NoLockfile(|r.manifests|)
    ensures diff.Some? && lock.Some? ==>
        exists i :: 0 <= i < |r.manifests| && diff == DiffAt(lock.value, r.manifests, i)
  {
    if lock.None? {
      return if r.manifests == [] then None else Some(NoLockfile(|r.manifests|));
    }
    for i := 0 to |r.manifests|
      invariant forall j | 0 <= j < i :: Covered(lock.value, r.manifests[j])
    {
      var m := r.manifests[i];
      match Lookup(lock.value.packages, m.package) {
        case None =>
          assert DiffAt(lock.value, r.manifests, i).Some?;
          return Some(NewPin(m.package, m.manifest.version));
        case Some(entry) =>
          if entry.hash != m.hash {
            assert DiffAt(lock.value, r.manifests, i).Some?;
            return Some(HashDiffers(m.package, entry.hash, m.hash));
          }
      }
    }
    diff := None;
  }

  /** What to report of ms[i], if it is the first that is not covered. */
  function DiffAt(lock: Lockfile, ms: seq<ResolvedManifest>, i: nat): Option<LockDiff>
    requires i < |ms|
  {
    if Covered(lock, ms[i]) || exists j :: 0 <= j < i && !Covered(lock, ms[j]) then None
    else
      match Lookup(lock.packages, ms[i].package)
      case None => Some(NewPin(ms[i].package, ms[i].manifest.version))
      case Some(entry) => Some(HashDiffers(ms[i].package, entry.hash, ms[i].hash))
  }

  /**
   * If no package is locked twice, `--locked` accepts the lockfile made from a resolution for
   * that resolution exactly when every manifest was first reached under its own name.
   */
  lemma LockedAcceptsOwnLockfile(content: Content, ms: seq<ResolvedManifest>)
    requires LockedOnce(ms) && forall m | m in ms :: m.manifest == content(m.hash)
    ensures Matches(Some(ToLockfile(ms)), ms) <==> forall m | m in ms :: m.package == m.manifest.package
  {
    var lock := ToLockfile(ms);
    forall i | 0 <= i < |ms| ensures Covered(lock, ms[i]) <==> ms[i].package == ms[i].manifest.package {
      CoveredIffOwnName(content, ms, ms[i]);
    }
  }

  lemma CoveredIffOwnName(content: Content, ms: seq<ResolvedManifest>, m: ResolvedManifest)
    requires LockedOnce(ms) && m in ms && forall x | x in ms :: x.manifest == content(x.hash)
    ensures Covered(ToLockfile(ms), m) <==> m.package == m.manifest.package
  {
    var lock := ToLockfile(ms);
    if m.package == m.manifest.package {
      var x := EntryOrigin(ms, m);
    }
    if Covered(lock, m) {
      var entry := Lookup(lock.packages, m.package).value;
      var j :| 0 <= j < |ms| && lock.packages[j] == entry;
      assert ms[j] in ms;
    }
  }

  // ---- what a successful install leaves behind ----

  /** The store after a successful install of r from the store s, whose objects hash to their ids. */
  ghost predicate Installed(f: Foreign, s: State, t: State, r: Resolution) {
    exists mid: State :: Complete(s, mid, r) && GainedSound(f, s, mid) && RefsWritten(mid, t, r.manifests)
  }

  /** An index entry from before whose missing blob came in as a manifest of the resolution. */
  ghost predicate Revived(f: Foreign, s: State, t: State, r: Resolution, d: DiffId) {
    && d in s.diffs && s.diffs[d].Points? && s.diffs[d].target !in s.objects
    && s.diffs[d].target in t.objects && Holds(f, t.objects[s.diffs[d].target], d)
    && exists m :: m in r.manifests && m.hash == s.diffs[d].target
  }

  /**
   * Every manifest of the resolution is stored under its hash, and every layer has an index
   * entry. It leads to content with that diff id exactly when it is new or did so before, since
   * an entry that is there is never looked into (a manifest may happen to be its missing blob);
   * then, of all the ways opening the layer can fail, only an unreadable tar stream is left.
   */
  lemma InstalledIsComplete(tools: Stage.Tools, s: State, t: State, r: Resolution)
    requires Installed(tools.f, s, t, r)
    ensures forall m | m in r.manifests :: m.hash in t.objects && tools.f.hash(t.objects[m.hash]) == m.hash
    ensures forall d | d in r.layers :: d in t.diffs && (DiffSound(tools.f, t, d) <==>
                d !in s.diffs || DiffSound(tools.f, s, d) || Revived(tools.f, s, t, r, d))
    ensures forall d | d in r.layers && DiffSound(tools.f, t, d) && Stage.OpenLayer(tools, t, d).Failure? ::
        Stage.OpenLayer(tools, t, d).error == Stage.Unreadable
    ensures Sound(tools.f, s) ==> Sound(tools.f, t) && forall d | d in r.layers :: DiffSound(tools.f, t, d)
  {
    var f := tools.f;
    var mid: State :| Complete(s, mid, r) && GainedSound(f, s, mid) && RefsWritten(mid, t, r.manifests);
    forall m | m in r.manifests ensures m.hash in t.objects {
      assert FetchManifest(m.hash) in Needs(r);
    }
    forall d | d in r.layers
      ensures d in t.diffs
      ensures DiffSound(f, t, d) <==> d !in s.diffs || DiffSound(f, s, d) || Revived(f, s, t, r, d)
    {
      assert FetchLayer(d) in Needs(r);
      EntrySoundIff(f, s, mid, t, r, d);
    }
    forall d | d in r.layers && DiffSound(f, t, d) && Stage.OpenLayer(tools, t, d).Failure?
      ensures Stage.OpenLayer(tools, t, d).error == Stage.Unreadable
    {
      SoundLayerOpens(tools, t, d);
    }
    if Sound(f, s) {
      RefsWrittenKeepSound(f, s, mid, t, r.manifests);
    }
  }

  lemma SoundLayerOpens(tools: Stage.Tools, t: State, d: DiffId)
    requires d in t.diffs && DiffSound(tools.f, t, d)
    ensures Stage.OpenLayer(tools, t, d).Failure? ==> Stage.OpenLayer(tools, t, d).error == Stage.Unreadable
  {
  }

  lemma RefsWrittenKeepSound(f: Foreign, s: State, mid: State, t: State, ms: seq<ResolvedManifest>)
    requires Sound(f, s) && GainedSound(f, s, mid) && RefsWritten(mid, t, ms)
    ensures Sound(f, t)
  {
    GainsKeepSound(f, s, mid);
    assert RefsSound(t) by {
      forall k | k in t.refs && k !in mid.refs ensures t.refs[k].Points? {
        var m :| m in ms && RefOf(m) == k;
      }
    }
    RefOpsKeepSound(f, mid, t);
  }

  lemma EntrySoundIff(f: Foreign, s: State, mid: State, t: State, r: Resolution, d: DiffId)
    requires Complete(s, mid, r) && GainedSound(f, s, mid) && t.objects == mid.objects && t.diffs == mid.diffs
    requires d in t.diffs
    ensures DiffSound(f, t, d) <==> d !in s.diffs || DiffSound(f, s, d) || Revived(f, s, t, r, d)
  {
    GainsKeep(s, mid);
    if d in s.diffs && DiffSound(f, t, d) && !DiffSound(f, s, d) {
      BlobCameAsManifest(f, s, mid, r, d);
    }
  }

  lemma BlobCameAsManifest(f: Foreign, s: State, t: State, r: Resolution, d: DiffId)
    requires Complete(s, t, r) && GainedSound(f, s, t)
    requires d in s.diffs && d in t.diffs && DiffSound(f, t, d) && !DiffSound(f, s, d)
    ensures Revived(f, s, t, r, d)
  {
    GainsKeep(s, t);
    var b := s.diffs[d].target;
    assert b !in s.objects;
    forall e | e in t.diffs && e !in s.diffs ensures t.diffs[e] != Points(b) {
      assert DiffSound(f, t, e);
    }
    assert FetchManifest(b) in Needs(r);
  }
}
