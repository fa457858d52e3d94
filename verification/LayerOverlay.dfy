/**
 * What a layer means, independent of the order in which its archive is read, and when the
 * two-pass application of LayerTree computes it.
 */
module LayerOverlay {
  import opened Wrappers
  import opened LayerTree

  /** What the entries read so far ask for, with their order forgotten. */
  datatype Layer = Layer(puts: map<Path, Node>, erased: set<Path>)

  function Add(l: Layer, e: Effect): Layer {
    match e
    case Put(p, node) => l.(puts := l.puts[p := node])
    case Erase(v) => l.(erased := l.erased + {v})
    case _ => l
  }

  function LayerOf(es: seq<Effect>): Layer {
    if es == [] then Layer(map[], {}) else Add(LayerOf(es[..|es| - 1]), es[|es| - 1])
  }

  function OpaqueDirs(es: seq<Effect>): set<Path> {
    set e | e in es && e.ClearDir? :: e.dir
  }

  // ---- the declarative overlay ----

  /** The lower tree's node at q does not show through. */
  ghost predicate Hidden(l: Layer, opaques: set<Path>, q: Path) {
    || (exists d :: d in opaques && Below(q, d))
    || (exists v :: v in l.erased && AtOrBelow(q, v))
    || (exists p :: p in l.puts && !l.puts[p].Dir? && Below(q, p))
  }

  ghost predicate Implied(l: Layer, q: Path) {
    exists p :: p in l.puts && Below(p, q)
  }

  /**
   * The layer's own node if it has one; else the lower node unless hidden; else a directory
   * where something of this layer needs one.
   */
  ghost function Overlay(lower: Tree, l: Layer, opaques: set<Path>, q: Path): Option<Node> {
    if q in l.puts then Some(l.puts[q])
    else if q in lower && !Hidden(l, opaques, q) then Some(lower[q])
    else if Implied(l, q) then Some(Dir(None))
    else None
  }

  function NodeAt(t: Tree, q: Path): Option<Node> {
    if q in t then Some(t[q]) else None
  }

  ghost predicate IsOverlay(t: Tree, lower: Tree, l: Layer, opaques: set<Path>) {
    forall q: Path :: NodeAt(t, q) == Overlay(lower, l, opaques, q)
  }

  // ---- trees stay trees ----

  lemma {:induction false} AncestorsAreDirs(t: Tree, p: Path, q: Path)
    requires PrefixClosed(t) && p in t && Below(p, q)
    ensures q in t && t[q].Dir?
    decreases |p|
  {
    var up := Parent(p);
    assert up in t && t[up].Dir?;
    if |q| < |up| {
      assert Below(up, q);
      AncestorsAreDirs(t, up, q);
    } else {
      assert up == q;
    }
  }

  /** A usable directory path meets nothing but directories on its way. */
  lemma {:induction false} UsableMeansDirs(t: Tree, p: Path)
    requires PrefixClosed(t) && StatusError(DirStatus(t, p)).None?
    ensures DirStatus(t, p).IsDir? <==> p in t
    ensures forall q | q in t && AtOrBelow(p, q) :: t[q].Dir?
    decreases |p|
  {
    if p != [] {
      UsableMeansDirs(t, Parent(p));
      forall q | q in t && AtOrBelow(p, q) ensures t[q].Dir? {
        if q != p {
          assert AtOrBelow(Parent(p), q);
        }
      }
    }
  }

  lemma {:induction false} MakeDirsAt(t: Tree, p: Path, q: Path)
    requires PrefixClosed(t)
    ensures NodeAt(MakeDirs(t, p), q) ==
        if q in t then Some(t[q]) else if AtOrBelow(p, q) then Some(Dir(None)) else None
    decreases |p|
  {
    if p in t {
      if AtOrBelow(p, q) && p != q {
        AncestorsAreDirs(t, p, q);
      }
    } else if p != [] {
      MakeDirsAt(t, Parent(p), q);
      assert AtOrBelow(p, q) <==> p == q || AtOrBelow(Parent(p), q);
    }
  }

  lemma MakeDirsClosed(t: Tree, p: Path)
    requires PrefixClosed(t) && StatusError(DirStatus(t, p)).None?
    ensures PrefixClosed(MakeDirs(t, p))
    ensures p in MakeDirs(t, p) && MakeDirs(t, p)[p].Dir?
    ensures DirStatus(t, p).IsDir? ==> MakeDirs(t, p) == t
  {
    UsableMeansDirs(t, p);
    var made := MakeDirs(t, p);
    MakeDirsAt(t, p, p);
    forall q | q in made && q != [] ensures Parent(q) in made && made[Parent(q)].Dir? {
      MakeDirsAt(t, p, q);
      MakeDirsAt(t, p, Parent(q));
      if q !in t {
        assert AtOrBelow(p, Parent(q));
      }
    }
  }

  lemma RemoveSubtreeClosed(t: Tree, p: Path)
    requires PrefixClosed(t)
    ensures PrefixClosed(RemoveSubtree(t, p))
  {
    var r := RemoveSubtree(t, p);
    forall q | q in r && q != [] ensures Parent(q) in r && r[Parent(q)].Dir? {
      assert AtOrBelow(Parent(q), p) ==> AtOrBelow(q, p);
    }
  }

  lemma RemoveChildrenClosed(t: Tree, p: Path)
    requires PrefixClosed(t)
    ensures PrefixClosed(RemoveChildren(t, p))
  {
    var r := RemoveChildren(t, p);
    forall q | q in r && q != [] ensures Parent(q) in r && r[Parent(q)].Dir? {
      assert Below(Parent(q), p) ==> Below(q, p);
    }
  }

  lemma PutNodeClosed(t: Tree, p: Path, node: Node)
    requires PrefixClosed(t) && PutNode(t, p, node).Success? && (p == [] ==> node.Dir?)
    ensures PrefixClosed(PutNode(t, p, node).value)
  {
    if node.Dir? {
      MakeDirsClosed(t, p);
    } else {
      MakeDirsClosed(t, Parent(p));
      var made := MakeDirs(t, Parent(p));
      var r := RemoveSubtree(made, p)[p := node];
      RemoveSubtreeClosed(made, p);
      forall q | q in r && q != [] ensures Parent(q) in r && r[Parent(q)].Dir? {
        if q == p {
          assert !AtOrBelow(Parent(p), p);
        } else {
          assert Parent(q) == p ==> AtOrBelow(q, p);
        }
      }
    }
  }

  // ---- one effect at a time ----

  lemma NothingImplied(l: Layer, q: Path)
    requires forall p | p in l.puts :: !Below(p, q)
    ensures !Implied(l, q)
  {
  }

  lemma HiddenAfterPut(l: Layer, cleared: set<Path>, p: Path, node: Node, q: Path)
    requires p !in l.puts
    ensures Hidden(Add(l, Put(p, node)), cleared, q) <==> Hidden(l, cleared, q) || (!node.Dir? && Below(q, p))
    ensures Implied(Add(l, Put(p, node)), q) <==> Implied(l, q) || Below(p, q)
  {
    var l' := Add(l, Put(p, node));
    assert p in l'.puts;
    assert forall r | r in l.puts :: r in l'.puts && l'.puts[r] == l.puts[r];
  }

  lemma ClearRefines(t: Tree, lower: Tree, l: Layer, cleared: set<Path>, d: Path)
    requires IsOverlay(t, lower, l, cleared)
    requires forall p | p in l.puts :: !Below(p, d)
    ensures IsOverlay(RemoveChildren(t, d), lower, l, cleared + {d})
  {
    forall q: Path ensures NodeAt(RemoveChildren(t, d), q) == Overlay(lower, l, cleared + {d}, q) {
      assert NodeAt(t, q) == Overlay(lower, l, cleared, q);
      assert Hidden(l, cleared + {d}, q) <==> Hidden(l, cleared, q) || Below(q, d);
      if Below(q, d) {
        assert forall p | Below(p, q) :: Below(p, d);
        NothingImplied(l, q);
      }
    }
  }

  lemma EraseRefines(t: Tree, lower: Tree, l: Layer, cleared: set<Path>, v: Path)
    requires IsOverlay(t, lower, l, cleared) && PrefixClosed(t) && v != []
    requires EraseVictim(t, v).Success?
    requires forall p | p in l.puts :: !AtOrBelow(p, v)
    ensures IsOverlay(EraseVictim(t, v).value, lower, Add(l, Erase(v)), cleared)
    ensures PrefixClosed(EraseVictim(t, v).value)
  {
    var t' := EraseVictim(t, v).value;
    var l' := Add(l, Erase(v));
    RemoveSubtreeClosed(t, v);
    EraseRemoves(t, v);
    forall q: Path ensures NodeAt(t', q) == Overlay(lower, l', cleared, q) {
      assert NodeAt(t, q) == Overlay(lower, l, cleared, q);
      assert Hidden(l', cleared, q) <==> Hidden(l, cleared, q) || AtOrBelow(q, v);
      if AtOrBelow(q, v) {
        assert forall p | Below(p, q) :: AtOrBelow(p, v);
        NothingImplied(l, q);
      }
    }
  }

  /** Whether or not the parent is there, afterwards nothing is left at or below the victim. */
  lemma EraseRemoves(t: Tree, v: Path)
    requires PrefixClosed(t) && v != [] && EraseVictim(t, v).Success?
    ensures EraseVictim(t, v).value == RemoveSubtree(t, v)
  {
    if !DirStatus(t, Parent(v)).IsDir? {
      forall q | q in t ensures !AtOrBelow(q, v) {
        if AtOrBelow(q, v) {
          assert Below(q, Parent(v));
          AncestorsAreDirs(t, q, Parent(v));
          DirsAreDirs(t, Parent(v));
        }
      }
      assert RemoveSubtree(t, v) == t;
    }
  }

  lemma {:induction false} DirsAreDirs(t: Tree, p: Path)
    requires PrefixClosed(t) && p in t && t[p].Dir?
    ensures DirStatus(t, p).IsDir?
    decreases |p|
  {
    if p != [] {
      DirsAreDirs(t, Parent(p));
    }
  }

  lemma PutDirRefines(t: Tree, lower: Tree, l: Layer, cleared: set<Path>, p: Path, node: Node)
    requires IsOverlay(t, lower, l, cleared) && PrefixClosed(t)
    requires node.Dir? && p !in l.puts && PutNode(t, p, node).Success?
    ensures IsOverlay(PutNode(t, p, node).value, lower, Add(l, Put(p, node)), cleared)
  {
    var t', l' := PutNode(t, p, node).value, Add(l, Put(p, node));
    forall q: Path ensures NodeAt(t', q) == Overlay(lower, l', cleared, q) {
      assert NodeAt(t, q) == Overlay(lower, l, cleared, q);
      MakeDirsAt(t, p, q);
      assert p[..|p|] == p && (AtOrBelow(p, q) <==> Below(p, q) || p == q);
      HiddenAfterPut(l, cleared, p, node, q);
    }
  }

  lemma PutLeafRefines(t: Tree, lower: Tree, l: Layer, cleared: set<Path>, p: Path, node: Node)
    requires IsOverlay(t, lower, l, cleared) && PrefixClosed(t)
    requires !node.Dir? && p !in l.puts && p != [] && PutNode(t, p, node).Success?
    requires forall r | r in l.puts :: !Below(r, p)
    ensures IsOverlay(PutNode(t, p, node).value, lower, Add(l, Put(p, node)), cleared)
  {
    var t', l' := PutNode(t, p, node).value, Add(l, Put(p, node));
    forall q: Path ensures NodeAt(t', q) == Overlay(lower, l', cleared, q) {
      assert NodeAt(t, q) == Overlay(lower, l, cleared, q);
      MakeDirsAt(t, Parent(p), q);
      assert AtOrBelow(Parent(p), q) <==> Below(p, q);
      assert q[..|q|] == q && (AtOrBelow(q, p) <==> Below(q, p) || p == q);
      HiddenAfterPut(l, cleared, p, node, q);
      if Below(q, p) {
        assert forall r | Below(r, q) :: Below(r, p);
        NothingImplied(l, q);
      }
    }
  }
}
