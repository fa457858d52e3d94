/** Applying a whole archive in place against the meaning of its layer. */
module LayerRefinement {
  import opened Wrappers
  import opened LayerTree
  import opened LayerOverlay

  /** The directory whose opaque marker is honoured when this effect is met. */
  function Trigger(e: Effect): Option<Path> {
    match e
    case ClearDir(d) => Some(d)
    case Ignore(d) => Some(d)
    case Put(p, _) => Some(Parent(p))
    case _ => None
  }

  function Triggered(es: seq<Effect>): set<Path> {
    set e | e in es && Trigger(e).Some? :: Trigger(e).value
  }

  /** Effects that come from sanitised entries. */
  predicate WellFormed(e: Effect) {
    && (e.Put? ==> e.node != Dir(None) && (e.path == [] ==> e.node.Dir?))
    && (e.Erase? ==> e.victim != [])
  }

  lemma EntriesAreWellFormed(e: Entry)
    ensures WellFormed(EffectOf(e))
  {
  }

  /** Meeting e wipes what stands at p: a whiteout or a file over it, or a late clearing above it. */
  predicate Wipes(opaques: set<Path>, cleared: set<Path>, e: Effect, p: Path) {
    || (e.Erase? && AtOrBelow(p, e.victim))
    || (e.Put? && !e.node.Dir? && Below(p, e.path))
    || (Trigger(e).Some? && Trigger(e).value in opaques - cleared && Below(p, Trigger(e).value))
  }

  ghost predicate Distinct(es: seq<Effect>) {
    forall i, j | 0 <= i < j < |es| && es[i].Put? && es[j].Put? :: es[i].path != es[j].path
  }

  /**
   * Nothing the archive writes is wiped by a later entry of the same archive: whiteouts and
   * files precede what they cover, and an opaque directory is met, through its marker or a
   * direct child, before anything deeper in it.
   */
  ghost predicate InOrder(opaques: set<Path>, es: seq<Effect>) {
    forall i, j | 0 <= i < j < |es| && es[i].Put? :: !Wipes(opaques, Triggered(es[..j]), es[j], es[i].path)
  }

  lemma PrefixOf(opaques: set<Path>, es: seq<Effect>)
    requires es != []
    ensures InOrder(opaques, es) ==> InOrder(opaques, es[..|es| - 1])
    ensures Distinct(es) ==> Distinct(es[..|es| - 1])
    ensures Triggered(es) == Triggered(es[..|es| - 1]) + Triggered([es[|es| - 1]])
  {
    var front := es[..|es| - 1];
    assert es == front + [es[|es| - 1]];
    if InOrder(opaques, es) {
      forall i, j | 0 <= i < j < |front| && front[i].Put?
          ensures !Wipes(opaques, Triggered(front[..j]), front[j], front[i].path) {
        assert front[..j] == es[..j];
        assert !Wipes(opaques, Triggered(es[..j]), es[j], es[i].path);
      }
    }
  }

  // ---- invariants of a successful run ----

  lemma StepClosed(opaques: set<Path>, s: Progress, e: Effect)
    requires PrefixClosed(s.tree) && WellFormed(e) && ApplyEffect(opaques, s, e).Success?
    ensures PrefixClosed(ApplyEffect(opaques, s, e).value.tree)
    ensures ApplyEffect(opaques, s, e).value.cleared == s.cleared + Triggered([e]) * opaques
  {
    assert e in [e];
    match e
    case ClearDir(d) => RemoveChildrenClosed(s.tree, d);
    case Ignore(d) => RemoveChildrenClosed(s.tree, d);
    case Erase(v) => RemoveSubtreeClosed(s.tree, v);
    case Put(p, node) =>
      RemoveChildrenClosed(s.tree, Parent(p));
      PutNodeClosed(ClearOnce(opaques, s, Parent(p)).value.tree, p, node);
  }

  lemma {:induction false} RunClosed(opaques: set<Path>, s: Progress, es: seq<Effect>)
    requires PrefixClosed(s.tree) && s.cleared == {} && ApplyEffects(opaques, s, es).Success?
    requires forall e | e in es :: WellFormed(e)
    ensures PrefixClosed(ApplyEffects(opaques, s, es).value.tree)
    ensures ApplyEffects(opaques, s, es).value.cleared == Triggered(es) * opaques
  {
    if es != [] {
      var front, last := es[..|es| - 1], es[|es| - 1];
      assert forall e | e in front :: e in es;
      RunClosed(opaques, s, front);
      PrefixOf(opaques, es);
      StepClosed(opaques, ApplyEffects(opaques, s, front).value, last);
    }
  }

  lemma StepRefines(opaques: set<Path>, s: Progress, lower: Tree, l: Layer, e: Effect)
    requires PrefixClosed(s.tree) && WellFormed(e) && ApplyEffect(opaques, s, e).Success?
    requires IsOverlay(s.tree, lower, l, s.cleared)
    requires forall p | p in l.puts :: !Wipes(opaques, s.cleared, e, p)
    requires e.Put? ==> e.path !in l.puts
    ensures var r := ApplyEffect(opaques, s, e).value; IsOverlay(r.tree, lower, Add(l, e), r.cleared)
  {
    if e.Erase? {
      EraseRefines(s.tree, lower, l, s.cleared, e.victim);
    } else {
      var d := Trigger(e).value;
      if d in opaques && d !in s.cleared {
        ClearRefines(s.tree, lower, l, s.cleared, d);
        RemoveChildrenClosed(s.tree, d);
      }
      var c := ClearOnce(opaques, s, d).value;
      if e.Put? {
        if e.node.Dir? {
          PutDirRefines(c.tree, lower, l, c.cleared, e.path, e.node);
        } else {
          PutLeafRefines(c.tree, lower, l, c.cleared, e.path, e.node);
        }
      }
    }
  }

  lemma {:induction false} PutsAreEntries(es: seq<Effect>, p: Path) returns (i: nat)
    requires p in LayerOf(es).puts
    ensures i < |es| && es[i].Put? && es[i].path == p
  {
    var last := |es| - 1;
    if es[last].Put? && es[last].path == p {
      i := last;
    } else {
      i := PutsAreEntries(es[..last], p);
    }
  }

  lemma EmptyLayer(t: Tree)
    ensures IsOverlay(t, t, LayerOf([]), {})
  {
  }

  /** A run that wipes nothing it wrote builds the overlay, up to the directories cleared so far. */
  lemma {:induction false} RunRefines(opaques: set<Path>, s: Progress, es: seq<Effect>)
    requires PrefixClosed(s.tree) && s.cleared == {} && ApplyEffects(opaques, s, es).Success?
    requires forall e | e in es :: WellFormed(e)
    requires Distinct(es) && InOrder(opaques, es)
    ensures IsOverlay(ApplyEffects(opaques, s, es).value.tree, s.tree, LayerOf(es), Triggered(es) * opaques)
  {
    if es == [] {
      EmptyLayer(s.tree);
    } else {
      var front, last := es[..|es| - 1], es[|es| - 1];
      assert forall e | e in front :: e in es;
      PrefixOf(opaques, es);
      RunRefines(opaques, s, front);
      RunClosed(opaques, s, front);
      RunClosed(opaques, s, es);
      var before := ApplyEffects(opaques, s, front).value;
      forall p | p in LayerOf(front).puts
        ensures !Wipes(opaques, before.cleared, last, p) && (last.Put? ==> last.path != p)
      {
        var i := PutsAreEntries(front, p);
        assert !Wipes(opaques, Triggered(es[..|es| - 1]), es[|es| - 1], es[i].path);
      }
      StepRefines(opaques, before, s.tree, LayerOf(front), last);
    }
  }

  // ---- what is wiped stays lost ----

  predicate Lost(t: Tree, p: Path) {
    p in t ==> t[p] == Dir(None)
  }

  lemma PutNodeKeepsLost(t: Tree, p: Path, q: Path, node: Node)
    requires PrefixClosed(t) && Lost(t, p) && p != q && PutNode(t, q, node).Success?
    ensures Lost(PutNode(t, q, node).value, p)
  {
    MakeDirsAt(t, if node.Dir? then q else Parent(q), p);
  }

  lemma StepKeepsLost(opaques: set<Path>, s: Progress, e: Effect, p: Path)
    requires PrefixClosed(s.tree) && WellFormed(e) && ApplyEffect(opaques, s, e).Success?
    requires Lost(s.tree, p) && !(e.Put? && e.path == p)
    ensures Lost(ApplyEffect(opaques, s, e).value.tree, p)
  {
    if e.Put? {
      RemoveChildrenClosed(s.tree, Parent(e.path));
      PutNodeKeepsLost(ClearOnce(opaques, s, Parent(e.path)).value.tree, p, e.path, e.node);
    }
  }

  lemma WipeLoses(opaques: set<Path>, s: Progress, e: Effect, p: Path)
    requires PrefixClosed(s.tree) && WellFormed(e) && ApplyEffect(opaques, s, e).Success?
    requires Wipes(opaques, s.cleared, e, p) && !(e.Put? && e.path == p)
    ensures Lost(ApplyEffect(opaques, s, e).value.tree, p)
  {
    if e.Erase? {
      EraseRemoves(s.tree, e.victim);
    } else {
      var c := ClearOnce(opaques, s, Trigger(e).value).value;
      if e.Put? {
        RemoveChildrenClosed(s.tree, Trigger(e).value);
        if Lost(c.tree, p) {
          PutNodeKeepsLost(c.tree, p, e.path, e.node);
        }
      }
    }
  }

  lemma {:induction false} LostToTheEnd(opaques: set<Path>, s: Progress, es: seq<Effect>, i: nat, j: nat)
    requires PrefixClosed(s.tree) && s.cleared == {} && ApplyEffects(opaques, s, es).Success?
    requires forall e | e in es :: WellFormed(e)
    requires Distinct(es) && i < j < |es| && es[i].Put?
    requires Wipes(opaques, Triggered(es[..j]), es[j], es[i].path)
    ensures Lost(ApplyEffects(opaques, s, es).value.tree, es[i].path)
  {
    var front, last := es[..|es| - 1], es[|es| - 1];
    assert forall e | e in front :: e in es;
    assert last in es;
    PrefixOf(opaques, es);
    RunClosed(opaques, s, front);
    var before := ApplyEffects(opaques, s, front).value;
    if j == |es| - 1 {
      WipeLoses(opaques, before, last, es[i].path);
    } else {
      assert front[..j] == es[..j];
      LostToTheEnd(opaques, s, front, i, j);
      StepKeepsLost(opaques, before, last, es[i].path);
    }
  }

  lemma {:induction false} PutsHoldEntries(es: seq<Effect>, i: nat)
    requires Distinct(es) && i < |es| && es[i].Put?
    ensures es[i].path in LayerOf(es).puts && LayerOf(es).puts[es[i].path] == es[i].node
  {
    if i < |es| - 1 {
      PrefixOf({}, es);
      PutsHoldEntries(es[..|es| - 1], i);
    }
  }

  // ---- the theorem ----

  /** Both passes name every opaque directory alike. */
  ghost predicate MarkersAgree(entries: seq<Entry>) {
    CollectedOpaques(entries) == OpaqueDirs(Effects(entries))
  }

  function Start(t: Tree): Tree {
    MakeDirs(t, [])
  }

  lemma EffectsWellFormed(entries: seq<Entry>)
    ensures forall e | e in Effects(entries) :: WellFormed(e)
  {
    forall e | e in Effects(entries) ensures WellFormed(e) {
      var i :| 0 <= i < |entries| && Effects(entries)[i] == e;
      EntriesAreWellFormed(entries[i]);
    }
  }

  lemma AllCleared(es: seq<Effect>)
    ensures Triggered(es) * OpaqueDirs(es) == OpaqueDirs(es)
  {
    forall d | d in OpaqueDirs(es) ensures d in Triggered(es) {
      assert ClearDir(d) in es && Trigger(ClearDir(d)) == Some(d);
    }
  }

  /**
   * Take any archive whose entries write distinct paths and whose opaque markers both passes
   * name alike, on any tree. If applying it succeeds, the result is the declarative overlay
   * exactly when no entry is wiped by a later one; and the result is a tree either way.
   */
  lemma ArchiveIsOverlay(t: Tree, entries: seq<Entry>)
    requires PrefixClosed(t) && ApplyArchive(t, entries).Success?
    requires Distinct(Effects(entries)) && MarkersAgree(entries)
    ensures PrefixClosed(ApplyArchive(t, entries).value.tree)
    ensures IsOverlay(ApplyArchive(t, entries).value.tree, Start(t), LayerOf(Effects(entries)),
        OpaqueDirs(Effects(entries)))
            <==> InOrder(OpaqueDirs(Effects(entries)), Effects(entries))
  {
    var es := Effects(entries);
    var opaques := OpaqueDirs(es);
    var s := Progress(Start(t), {}, 0, 0);
    MakeDirsClosed(t, []);
    EffectsWellFormed(entries);
    RunClosed(opaques, s, es);
    AllCleared(es);
    var r := ApplyEffects(opaques, s, es).value;
    if InOrder(opaques, es) {
      RunRefines(opaques, s, es);
    } else {
      var i, j :| 0 <= i < j < |es| && es[i].Put? && Wipes(opaques, Triggered(es[..j]), es[j], es[i].path);
      LostToTheEnd(opaques, s, es, i, j);
      PutsHoldEntries(es, i);
      assert es[i] in es;
      assert NodeAt(r.tree, es[i].path) != Overlay(s.tree, LayerOf(es), opaques, es[i].path);
    }
  }

  lemma PutMembers(es: seq<Effect>, p: Path, node: Node)
    requires Distinct(es)
    ensures (p in LayerOf(es).puts && LayerOf(es).puts[p] == node) <==> Put(p, node) in es
  {
    if p in LayerOf(es).puts {
      var i := PutsAreEntries(es, p);
      PutsHoldEntries(es, i);
    }
    if Put(p, node) in es {
      var i :| 0 <= i < |es| && es[i] == Put(p, node);
      PutsHoldEntries(es, i);
    }
  }

  lemma {:induction false} ErasedMembers(es: seq<Effect>, v: Path)
    ensures v in LayerOf(es).erased <==> Erase(v) in es
  {
    if es != [] {
      var front, last := es[..|es| - 1], es[|es| - 1];
      ErasedMembers(front, v);
      assert Erase(v) in es <==> Erase(v) in front || Erase(v) == last by {
        assert es == front + [last];
      }
    }
  }

  lemma SameEntriesSameLayer(es: seq<Effect>, fs: seq<Effect>)
    requires Distinct(es) && Distinct(fs) && forall e :: e in es <==> e in fs
    ensures LayerOf(es) == LayerOf(fs) && OpaqueDirs(es) == OpaqueDirs(fs)
  {
    var a, b := LayerOf(es), LayerOf(fs);
    forall p ensures NodeAt(a.puts, p) == NodeAt(b.puts, p) && (p in a.erased <==> p in b.erased) {
      var node := if p in a.puts then a.puts[p] else if p in b.puts then b.puts[p] else Dir(None);
      PutMembers(es, p, node);
      PutMembers(fs, p, node);
      ErasedMembers(es, p);
      ErasedMembers(fs, p);
    }
    assert a.puts == b.puts by {
      forall p ensures p in a.puts <==> p in b.puts { assert NodeAt(a.puts, p) == NodeAt(b.puts, p); }
      forall p | p in a.puts ensures a.puts[p] == b.puts[p] { assert NodeAt(a.puts, p) == NodeAt(b.puts, p); }
    }
    assert a.erased == b.erased;
  }

  lemma OverlayIsUnique(a: Tree, b: Tree, lower: Tree, l: Layer, opaques: set<Path>)
    requires IsOverlay(a, lower, l, opaques) && IsOverlay(b, lower, l, opaques)
    ensures a == b
  {
    forall p ensures p in a <==> p in b { assert NodeAt(a, p) == NodeAt(b, p); }
    forall p | p in a ensures a[p] == b[p] { assert NodeAt(a, p) == NodeAt(b, p); }
  }

  /** Two orderings of the same entries, neither wiping its own, give the same tree. */
  lemma OrderIsIrrelevant(t: Tree, entries: seq<Entry>, others: seq<Entry>)
    requires PrefixClosed(t) && ApplyArchive(t, entries).Success? && ApplyArchive(t, others).Success?
    requires forall e :: e in entries <==> e in others
    requires Distinct(Effects(entries)) && Distinct(Effects(others)) && MarkersAgree(entries) && MarkersAgree(others)
    requires InOrder(OpaqueDirs(Effects(entries)), Effects(entries))
    requires InOrder(OpaqueDirs(Effects(others)), Effects(others))
    ensures ApplyArchive(t, entries).value.tree == ApplyArchive(t, others).value.tree
  {
    ArchiveIsOverlay(t, entries);
    ArchiveIsOverlay(t, others);
    SameEffects(entries, others);
    SameEffects(others, entries);
    SameEntriesSameLayer(Effects(entries), Effects(others));
    OverlayIsUnique(ApplyArchive(t, entries).value.tree, ApplyArchive(t, others).value.tree,
                    Start(t), LayerOf(Effects(entries)), OpaqueDirs(Effects(entries)));
  }

  lemma SameEffects(entries: seq<Entry>, others: seq<Entry>)
    requires forall e :: e in entries ==> e in others
    ensures forall e :: e in Effects(entries) ==> e in Effects(others)
  {
    forall e | e in Effects(entries) ensures e in Effects(others) {
      var i :| 0 <= i < |entries| && Effects(entries)[i] == e;
      assert entries[i] in others;
      var j :| 0 <= j < |others| && others[j] == entries[i];
      assert Effects(others)[j] == e;
    }
  }

  // ---- when both passes name a marker alike ----

  lemma {:induction false} CleanAppend(a: seq<string>, b: seq<string>)
    ensures Clean(a + b) == Clean(a) + Clean(b)
  {
    if a == [] {
      assert a + b == b;
    } else {
      assert (a + b)[1..] == a[1..] + b;
      CleanAppend(a[1..], b);
    }
  }

  lemma {:induction false} TrimEndKeeps(pieces: seq<string>)
    ensures Clean(TrimEnd(pieces)) == Clean(pieces)
    ensures TrimEnd(pieces) <= pieces
    ensures TrimEnd(pieces) != [] ==> TrimEnd(pieces)[|TrimEnd(pieces)| - 1] != ""
  {
    if pieces != [] && pieces[|pieces| - 1] == "" {
      var front := pieces[..|pieces| - 1];
      TrimEndKeeps(front);
      assert pieces == front + [""];
      CleanAppend(front, [""]);
    }
  }

  /** No "." in front of the path or after the marker. */
  predicate Plain(pieces: seq<string>) {
    var trimmed := TrimEnd(pieces);
    pieces != [] && pieces[0] != "." && trimmed != [] && trimmed[|trimmed| - 1] != "."
  }

  /** A name is a whiteout of x exactly when it is x behind the prefix, unless it is the marker. */
  lemma WhiteoutNames(b: string, x: string)
    ensures Classify(b) == Remove(x) <==> b == WHITEOUT_PREFIX + x && b != OPAQUE_NAME
    ensures Classify(b) == Opaque <==> b == OPAQUE_NAME
    ensures Classify(b) == NoWhiteout <==> !(WHITEOUT_PREFIX <= b)
  {
    if WHITEOUT_PREFIX <= b {
      assert b == WHITEOUT_PREFIX + b[|WHITEOUT_PREFIX|..];
    }
    assert (WHITEOUT_PREFIX + x)[|WHITEOUT_PREFIX|..] == x;
    assert WHITEOUT_PREFIX <= OPAQUE_NAME by {
      assert OPAQUE_NAME == WHITEOUT_PREFIX + ".wh..opq";
    }
  }

  lemma RawKeyIsClean(front: seq<string>)
    requires !IsAbsolute(front)
    ensures RawKey(front) == Clean(front) <==> front == [] || front[0] != "."
  {
    if front != [] && front[0] == "." {
      assert RawKey(front)[0] == "." && "." !in Clean(front);
    }
  }

  lemma LastPiece(pieces: seq<string>)
    requires TrimEnd(pieces) != [] && TrimEnd(pieces)[|TrimEnd(pieces)| - 1] != "."
    ensures var trimmed := TrimEnd(pieces);
            Clean(pieces) == Clean(trimmed[..|trimmed| - 1]) + [trimmed[|trimmed| - 1]]
  {
    var trimmed := TrimEnd(pieces);
    TrimEndKeeps(pieces);
    var front, last := trimmed[..|trimmed| - 1], trimmed[|trimmed| - 1];
    assert trimmed == front + [last];
    CleanAppend(front, [last]);
    assert Clean([last]) == [last];
  }

  /**
   * The first pass records a marker under the name the second pass looks up exactly when the
   * path is written plainly: with a leading "./" the directory is never emptied.
   */
  lemma MarkerSeenIffPlain(e: Entry)
    requires EffectOf(e).ClearDir?
    ensures OpaqueKey(e) == Some(EffectOf(e).dir) <==> Plain(e.path.value)
  {
    var pieces := e.path.value;
    var trimmed := TrimEnd(pieces);
    TrimEndKeeps(pieces);
    assert trimmed != [] && pieces[0] == trimmed[0];
    if trimmed[|trimmed| - 1] == "." {
      assert OpaqueKey(e) == None;
    } else {
      LastPiece(pieces);
      var front := trimmed[..|trimmed| - 1];
      assert OpaqueKey(e) == Some(RawKey(front));
      assert EffectOf(e).dir == Clean(front) by {
        assert (Clean(front) + [OPAQUE_NAME])[..|Clean(front)|] == Clean(front);
      }
      assert front != [] ==> front[0] == pieces[0];
      assert pieces[0] == "." ==> front != [];
      RawKeyIsClean(front);
    }
  }

  lemma MarkersAreClearings(e: Entry)
    requires OpaqueKey(e).Some? && !EffectOf(e).Reject?
    ensures EffectOf(e).ClearDir?
  {
    LastPiece(e.path.value);
  }

  lemma {:induction false} CollectedMembers(entries: seq<Entry>, d: Path)
    ensures d in CollectedOpaques(entries) <==> exists e :: e in entries && OpaqueKey(e) == Some(d)
  {
    if entries != [] {
      var front, last := entries[..|entries| - 1], entries[|entries| - 1];
      CollectedMembers(front, d);
      assert entries == front + [last];
      assert last in entries;
      assert forall e :: e in entries <==> e in front || e == last;
    }
  }

  /** Plainly written markers meet the condition of ArchiveIsOverlay. */
  lemma PlainMarkersAgree(entries: seq<Entry>)
    requires forall e | e in entries :: !EffectOf(e).Reject?
    requires forall e | e in entries && EffectOf(e).ClearDir? :: Plain(e.path.value)
    ensures MarkersAgree(entries)
  {
    forall d ensures d in CollectedOpaques(entries) <==> d in OpaqueDirs(Effects(entries)) {
      CollectedMembers(entries, d);
      if e :| e in entries && OpaqueKey(e) == Some(d) {
        MarkersAreClearings(e);
        MarkerSeenIffPlain(e);
        var i :| 0 <= i < |entries| && entries[i] == e;
        assert Effects(entries)[i] == ClearDir(d);
      }
      if d in OpaqueDirs(Effects(entries)) {
        var i :| 0 <= i < |entries| && Effects(entries)[i] == ClearDir(d);
        MarkerSeenIffPlain(entries[i]);
        assert entries[i] in entries;
      }
    }
  }
}
