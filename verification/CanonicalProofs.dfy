/** What canonical JSON keeps of a value, and that it keeps nothing else. */
module CanonicalProofs {
  import opened Canonical
  import opened Texts

  /** Objects as a map type yields them: no key twice, at any depth. */
  predicate WellFormed(v: Json) {
    match v
    case Array(items) => forall i | 0 <= i < |items| :: WellFormed(items[i])
    case Object(ms) => DistinctKeys(ms) && forall i | 0 <= i < |ms| :: WellFormed(ms[i].value)
    case _ => true
  }

  predicate DistinctKeys(ms: seq<Member>) {
    forall i, j | 0 <= i < j < |ms| :: ms[i].key != ms[j].key
  }

  ghost predicate SortedKeys(ms: seq<Member>) {
    forall i, j | 0 <= i < j < |ms| :: Precedes(ms[i].key, ms[j].key)
  }

  /** Keys sorted and distinct and no empty collection as a member, at any depth. */
  ghost predicate IsCanonical(v: Json) {
    match v
    case Array(items) => forall i | 0 <= i < |items| :: IsCanonical(items[i])
    case Object(ms) =>
      SortedKeys(ms) && forall i | 0 <= i < |ms| :: IsCanonical(ms[i].value) && !IsEmptyCollection(ms[i].value)
    case _ => true
  }

  // ---- meaning: objects as maps, without members that mean nothing ----

  datatype Meaning =
    | MNull
    | MBool(b: bool)
    | MNumber(n: int)
    | MStr(s: string)
    | MArray(items: seq<Meaning>)
    | MObject(members: map<string, Meaning>)

  predicate Nothing(m: Meaning) {
    m == MArray([]) || m == MObject(map[])
  }

  function Means(v: Json): Meaning {
    match v
    case Null => MNull
    case Bool(b) => MBool(b)
    case Number(n) => MNumber(n)
    case Str(s) => MStr(s)
    case Array(items) => MArray(ItemsMean(items))
    case Object(ms) => MObject(MembersMean(ms))
  }

  function ItemsMean(items: seq<Json>): (r: seq<Meaning>)
    ensures |r| == |items| && forall i | 0 <= i < |items| :: r[i] == Means(items[i])
  {
    if items == [] then [] else [Means(items[0])] + ItemsMean(items[1..])
  }

  function MembersMean(ms: seq<Member>): map<string, Meaning> {
    if ms == [] then map[]
    else
      var rest, m := MembersMean(ms[1..]), Means(ms[0].value);
      if Nothing(m) then rest else rest[ms[0].key := m]
  }

  predicate Stands(ms: seq<Member>, k: string, m: Meaning) {
    exists i :: 0 <= i < |ms| && ms[i].key == k && Means(ms[i].value) == m && !Nothing(m)
  }

  /** A key means m exactly when one of the members says so and m is not nothing. */
  lemma {:induction false} MembersMeanAt(ms: seq<Member>, k: string, m: Meaning)
    requires DistinctKeys(ms)
    ensures (k in MembersMean(ms) && MembersMean(ms)[k] == m) <==> Stands(ms, k, m)
    ensures k in MembersMean(ms) ==> exists i :: 0 <= i < |ms| && ms[i].key == k
  {
    if ms != [] {
      var rest := ms[1..];
      assert DistinctKeys(rest);
      MembersMeanAt(rest, k, m);
      if i :| 0 <= i < |rest| && rest[i].key == k && Means(rest[i].value) == m && !Nothing(m) {
        assert ms[i + 1] == rest[i];
      }
      if i :| 0 <= i < |ms| && ms[i].key == k && Means(ms[i].value) == m && !Nothing(m) {
        assert i > 0 ==> rest[i - 1] == ms[i];
      }
      if i :| 0 <= i < |rest| && rest[i].key == k {
        assert ms[i + 1] == rest[i];
      }
    }
  }

  // ---- the order of keys ----

  lemma SortedMeansDistinct(ms: seq<Member>)
    requires SortedKeys(ms)
    ensures DistinctKeys(ms)
  {
    forall i, j | 0 <= i < j < |ms| ensures ms[i].key != ms[j].key {
      PrecedesStrict(ms[i].key, ms[j].key);
    }
  }

  lemma {:induction false} InsertKeepsSorted(m: Member, ms: seq<Member>)
    requires SortedKeys(ms) && forall x | x in ms :: x.key != m.key
    ensures SortedKeys(InsertMember(m, ms))
  {
    if ms == [] {
    } else if Precedes(m.key, ms[0].key) {
      forall j | 0 <= j < |ms| ensures Precedes(m.key, ms[j].key) {
        if j > 0 {
          PrecedesTrans(m.key, ms[0].key, ms[j].key);
        }
      }
    } else {
      PrecedesTotal(m.key, ms[0].key);
      InsertKeepsSorted(m, ms[1..]);
      var rest := InsertMember(m, ms[1..]);
      forall j | 0 <= j < |rest| ensures Precedes(ms[0].key, rest[j].key) {
        assert rest[j] in rest;
      }
    }
  }

  // ---- normalising ----

  lemma {:induction false} NormalizeMembersOrigin(ms: seq<Member>, x: Member)
    requires x in NormalizeMembers(ms)
    ensures !IsEmptyCollection(x.value)
    ensures exists i :: 0 <= i < |ms| && ms[i].key == x.key && x.value == Normalize(ms[i].value)
  {
    if x in NormalizeMembers(ms[1..]) {
      NormalizeMembersOrigin(ms[1..], x);
      var i :| 0 <= i < |ms[1..]| && ms[1..][i].key == x.key && x.value == Normalize(ms[1..][i].value);
      assert ms[i + 1] == ms[1..][i];
    } else {
      assert ms[0].key == x.key && x.value == Normalize(ms[0].value);
    }
  }

  lemma {:induction false} NormalizeMembersSorted(ms: seq<Member>)
    requires DistinctKeys(ms)
    ensures SortedKeys(NormalizeMembers(ms))
  {
    if ms != [] {
      NormalizeMembersSorted(ms[1..]);
      var rest, v := NormalizeMembers(ms[1..]), Normalize(ms[0].value);
      forall x | x in rest ensures x.key != ms[0].key {
        NormalizeMembersOrigin(ms[1..], x);
        var i :| 0 <= i < |ms[1..]| && ms[1..][i].key == x.key;
        assert ms[i + 1] == ms[1..][i];
      }
      InsertKeepsSorted(Member(ms[0].key, v), rest);
    }
  }

  lemma {:induction false} NormalizeItemsAt(items: seq<Json>, i: nat)
    requires i < |items|
    ensures NormalizeItems(items)[i] == Normalize(items[i])
  {
    if i > 0 {
      NormalizeItemsAt(items[1..], i - 1);
    }
  }

  lemma {:induction false} NormalizeIsCanonical(v: Json)
    requires WellFormed(v)
    ensures IsCanonical(Normalize(v))
  {
    match v
    case Array(items) =>
      forall i | 0 <= i < |items| ensures IsCanonical(NormalizeItems(items)[i]) {
        NormalizeItemsAt(items, i);
        NormalizeIsCanonical(items[i]);
      }
    case Object(ms) =>
      NormalizeMembersSorted(ms);
      var rs := NormalizeMembers(ms);
      forall j | 0 <= j < |rs| ensures IsCanonical(rs[j].value) && !IsEmptyCollection(rs[j].value) {
        NormalizeMembersOrigin(ms, rs[j]);
        var i :| 0 <= i < |ms| && ms[i].key == rs[j].key && rs[j].value == Normalize(ms[i].value);
        NormalizeIsCanonical(ms[i].value);
      }
    case _ =>
  }

  /** A canonical value means nothing only if it is an empty collection. */
  lemma CanonicalNothing(v: Json)
    requires IsCanonical(v)
    ensures Nothing(Means(v)) <==> IsEmptyCollection(v)
  {
    if v.Object? && v.members != [] {
      SortedMeansDistinct(v.members);
      CanonicalNothingMember(v.members);
    }
  }

  lemma {:induction false} CanonicalNothingMember(ms: seq<Member>)
    requires IsCanonical(Object(ms)) && ms != []
    ensures MembersMean(ms) != map[]
    decreases ms
  {
    CanonicalNothing(ms[0].value);
    assert ms[0].key in MembersMean(ms);
  }

  lemma MembersMeanCons(m: Member, ms: seq<Member>)
    ensures MembersMean([m] + ms) ==
        if Nothing(Means(m.value)) then MembersMean(ms) else MembersMean(ms)[m.key := Means(m.value)]
  {
    assert ([m] + ms)[1..] == ms;
  }

  lemma {:induction false} InsertMeans(m: Member, ms: seq<Member>)
    requires forall x | x in ms :: x.key != m.key
    ensures MembersMean(InsertMember(m, ms)) ==
        if Nothing(Means(m.value)) then MembersMean(ms) else MembersMean(ms)[m.key := Means(m.value)]
  {
    if ms != [] && !Precedes(m.key, ms[0].key) {
      assert ms == [ms[0]] + ms[1..] && ms[0] in ms;
      InsertMeans(m, ms[1..]);
      InsertBehind(m, ms[0], ms[1..]);
    } else {
      MembersMeanCons(m, ms);
    }
  }

  lemma InsertBehind(m: Member, first: Member, rest: seq<Member>)
    requires first.key != m.key
    requires MembersMean(InsertMember(m, rest)) ==
        if Nothing(Means(m.value)) then MembersMean(rest) else MembersMean(rest)[m.key := Means(m.value)]
    ensures MembersMean([first] + InsertMember(m, rest)) ==
        if Nothing(Means(m.value)) then MembersMean([first] + rest)
        else MembersMean([first] + rest)[m.key := Means(m.value)]
  {
    MembersMeanCons(first, InsertMember(m, rest));
    MembersMeanCons(first, rest);
    var a, b := Means(first.value), Means(m.value);
    assert MembersMean(rest)[m.key := b][first.key := a] == MembersMean(rest)[first.key := a][m.key := b];
  }

  lemma {:induction false} NormalizeMembersMeans(ms: seq<Member>)
    requires DistinctKeys(ms) && forall i | 0 <= i < |ms| :: WellFormed(ms[i].value)
    ensures MembersMean(NormalizeMembers(ms)) == MembersMean(ms)
    decreases ms
  {
    if ms != [] {
      var rest, v := NormalizeMembers(ms[1..]), Normalize(ms[0].value);
      NormalizeMembersMeans(ms[1..]);
      NormalizeKeepsMeaning(ms[0].value);
      NormalizeIsCanonical(ms[0].value);
      CanonicalNothing(v);
      forall x | x in rest ensures x.key != ms[0].key {
        NormalizeMembersOrigin(ms[1..], x);
        var i :| 0 <= i < |ms[1..]| && ms[1..][i].key == x.key;
        assert ms[i + 1] == ms[1..][i];
      }
      InsertMeans(Member(ms[0].key, v), rest);
    }
  }

  lemma {:induction false} NormalizeKeepsMeaning(v: Json)
    requires WellFormed(v)
    ensures Means(Normalize(v)) == Means(v)
  {
    match v
    case Array(items) =>
      forall i | 0 <= i < |items| ensures Means(NormalizeItems(items)[i]) == Means(items[i]) {
        NormalizeItemsAt(items, i);
        NormalizeKeepsMeaning(items[i]);
      }
      assert ItemsMean(NormalizeItems(items)) == ItemsMean(items);
    case Object(ms) => NormalizeMembersMeans(ms);
    case _ =>
  }

  // ---- canonical values with one meaning are one value ----

  lemma {:induction false} CanonicalIsUnique(x: Json, y: Json)
    requires IsCanonical(x) && IsCanonical(y) && Means(x) == Means(y)
    ensures x == y
  {
    match x
    case Array(items) =>
      forall i | 0 <= i < |items| ensures items[i] == y.items[i] {
        assert ItemsMean(items)[i] == ItemsMean(y.items)[i];
        CanonicalIsUnique(items[i], y.items[i]);
      }
      assert items == y.items;
    case Object(ms) => CanonicalMembersUnique(ms, y.members);
    case _ =>
  }

  lemma {:induction false} CanonicalMembersUnique(ms: seq<Member>, ns: seq<Member>)
    requires IsCanonical(Object(ms)) && IsCanonical(Object(ns)) && MembersMean(ms) == MembersMean(ns)
    ensures ms == ns
    decreases ms
  {
    if ms == [] || ns == [] {
      if ms != [] { CanonicalNothingMember(ms); }
      if ns != [] { CanonicalNothingMember(ns); }
    } else {
      FirstKeyIsLeast(ms, ns);
      FirstKeyIsLeast(ns, ms);
      PrecedesTotal(ms[0].key, ns[0].key);
      CanonicalTail(ms);
      CanonicalTail(ns);
      TailIsCanonical(ms);
      TailIsCanonical(ns);
      CanonicalIsUnique(ms[0].value, ns[0].value);
      assert MembersMean(ms[1..]) == MembersMean(ms) - {ms[0].key} == MembersMean(ns[1..]);
      CanonicalMembersUnique(ms[1..], ns[1..]);
      assert ms == [ms[0]] + ms[1..] && ns == [ns[0]] + ns[1..];
    }
  }

  lemma TailLacksFirstKey(ms: seq<Member>)
    requires DistinctKeys(ms) && ms != []
    ensures ms[0].key !in MembersMean(ms[1..])
  {
    var rest := ms[1..];
    assert DistinctKeys(rest);
    MembersMeanAt(rest, ms[0].key, MNull);
    forall i | 0 <= i < |rest| ensures rest[i].key != ms[0].key {
      assert rest[i] == ms[i + 1];
    }
  }

  lemma TailIsCanonical(ms: seq<Member>)
    requires IsCanonical(Object(ms)) && ms != []
    ensures IsCanonical(Object(ms[1..]))
  {
  }

  lemma CanonicalTail(ms: seq<Member>)
    requires IsCanonical(Object(ms)) && ms != []
    ensures ms[0].key in MembersMean(ms) && MembersMean(ms)[ms[0].key] == Means(ms[0].value)
    ensures MembersMean(ms[1..]) == MembersMean(ms) - {ms[0].key}
  {
    CanonicalNothing(ms[0].value);
    SortedMeansDistinct(ms);
    TailLacksFirstKey(ms);
  }

  /** No key of a value with the same meaning comes before the first key. */
  lemma FirstKeyIsLeast(ms: seq<Member>, ns: seq<Member>)
    requires IsCanonical(Object(ms)) && IsCanonical(Object(ns)) && MembersMean(ms) == MembersMean(ns) && ms != []
    requires ns != []
    ensures !Precedes(ns[0].key, ms[0].key)
  {
    CanonicalTail(ns);
    SortedMeansDistinct(ms);
    MembersMeanAt(ms, ns[0].key, MembersMean(ns)[ns[0].key]);
    var i :| 0 <= i < |ms| && ms[i].key == ns[0].key;
    if Precedes(ns[0].key, ms[0].key) {
      PrecedesStrict(ms[i].key, ms[0].key);
    }
  }

  // ---- the theorems ----

  /**
   * Two values have the same canonical form exactly when they mean the same: when they differ
   * in nothing but the order of keys and in members that come out empty.
   */
  lemma SameFormIffSameMeaning(a: Json, b: Json)
    requires WellFormed(a) && WellFormed(b)
    ensures Normalize(a) == Normalize(b) <==> Means(a) == Means(b)
  {
    NormalizeKeepsMeaning(a);
    NormalizeKeepsMeaning(b);
    if Means(a) == Means(b) {
      NormalizeIsCanonical(a);
      NormalizeIsCanonical(b);
      CanonicalIsUnique(Normalize(a), Normalize(b));
    }
  }

  lemma {:induction false} CanonicalIsWellFormed(v: Json)
    requires IsCanonical(v)
    ensures WellFormed(v)
  {
    match v
    case Array(items) =>
      forall i | 0 <= i < |items| ensures WellFormed(items[i]) { CanonicalIsWellFormed(items[i]); }
    case Object(ms) =>
      SortedMeansDistinct(ms);
      forall i | 0 <= i < |ms| ensures WellFormed(ms[i].value) { CanonicalIsWellFormed(ms[i].value); }
    case _ =>
  }

  /** Normalising a canonical value changes nothing, so normalising twice is normalising once. */
  lemma NormalizeIsIdempotent(v: Json)
    ensures IsCanonical(v) ==> Normalize(v) == v
    ensures WellFormed(v) ==> Normalize(Normalize(v)) == Normalize(v)
  {
    if IsCanonical(v) {
      CanonicalIsWellFormed(v);
      NormalizeIsCanonical(v);
      NormalizeKeepsMeaning(v);
      CanonicalIsUnique(Normalize(v), v);
    }
    if WellFormed(v) {
      var n := Normalize(v);
      NormalizeIsCanonical(v);
      CanonicalIsWellFormed(n);
      NormalizeIsCanonical(n);
      NormalizeKeepsMeaning(n);
      CanonicalIsUnique(Normalize(n), n);
    }
  }

  lemma SameMembersSameMeaning(ms: seq<Member>, ns: seq<Member>)
    requires DistinctKeys(ms) && DistinctKeys(ns) && forall m :: m in ms <==> m in ns
    ensures MembersMean(ms) == MembersMean(ns)
  {
    var a, b := MembersMean(ms), MembersMean(ns);
    forall k, m ensures Stands(ms, k, m) <==> Stands(ns, k, m) {
      SameStands(ms, ns, k, m);
      SameStands(ns, ms, k, m);
    }
    forall k ensures k in a <==> k in b {
      if k in a { MembersMeanAt(ms, k, a[k]); MembersMeanAt(ns, k, a[k]); }
      if k in b { MembersMeanAt(ns, k, b[k]); MembersMeanAt(ms, k, b[k]); }
    }
    forall k | k in a ensures a[k] == b[k] {
      MembersMeanAt(ms, k, a[k]);
      MembersMeanAt(ns, k, a[k]);
    }
  }

  /** Reordering members, or adding one that comes out empty, does not change the canonical form. */
  lemma OrderAndEmptiesDoNotMatter(ms: seq<Member>, ns: seq<Member>, empty: Member)
    requires WellFormed(Object(ms)) && WellFormed(Object(ns)) && forall m :: m in ms <==> m in ns
    requires WellFormed(Object([empty] + ns)) && IsEmptyCollection(Normalize(empty.value))
    ensures Normalize(Object(ms)) == Normalize(Object(ns)) == Normalize(Object([empty] + ns))
  {
    SameMembersSameMeaning(ms, ns);
    SameFormIffSameMeaning(Object(ms), Object(ns));
    var more := [empty] + ns;
    assert more[0] == empty && more[1..] == ns;
    assert WellFormed(empty.value);
    NormalizeKeepsMeaning(empty.value);
    assert Nothing(Means(Normalize(empty.value)));
    SameFormIffSameMeaning(Object(ns), Object(more));
  }

  lemma SameStands(ms: seq<Member>, ns: seq<Member>, k: string, m: Meaning)
    requires forall x | x in ms :: x in ns
    ensures Stands(ms, k, m) ==> Stands(ns, k, m)
  {
    if i :| 0 <= i < |ms| && ms[i].key == k && Means(ms[i].value) == m && !Nothing(m) {
      assert ms[i] in ns;
      var j :| 0 <= j < |ns| && ns[j] == ms[i];
    }
  }

  // ---- the loop ----

  function SortMembers(ms: seq<Member>): (r: seq<Member>)
    ensures forall m :: m in r <==> m in ms
  {
    if ms == [] then [] else
      assert ms == [ms[0]] + ms[1..];
      InsertMember(ms[0], SortMembers(ms[1..]))
  }

  lemma {:induction false} SortMembersSorted(ms: seq<Member>)
    requires DistinctKeys(ms)
    ensures SortedKeys(SortMembers(ms))
  {
    if ms != [] {
      SortMembersSorted(ms[1..]);
      forall x | x in SortMembers(ms[1..]) ensures x.key != ms[0].key {
        assert x in ms[1..];
        var i :| 0 <= i < |ms[1..]| && ms[1..][i] == x;
        assert ms[i + 1] == x;
      }
      InsertKeepsSorted(ms[0], SortMembers(ms[1..]));
    }
  }

  lemma {:induction false} AppendMeans(ms: seq<Member>, m: Member)
    requires DistinctKeys(ms + [m])
    ensures MembersMean(ms + [m]) ==
        if Nothing(Means(m.value)) then MembersMean(ms) else MembersMean(ms)[m.key := Means(m.value)]
  {
    var all := ms + [m];
    if ms == [] {
      assert all[1..] == [];
    } else {
      assert all[0] == ms[0] && all[1..] == ms[1..] + [m];
      assert DistinctKeys(ms[1..] + [m]) by {
        forall i, j | 0 <= i < j < |ms[1..] + [m]| ensures (ms[1..] + [m])[i].key != (ms[1..] + [m])[j].key {
          assert all[i + 1].key != all[j + 1].key;
        }
      }
      AppendMeans(ms[1..], m);
      assert all[0].key != all[|ms|].key;
    }
  }

  /** The rounds so far have built the canonical form of the first i members. */
  ghost predicate Built(out: seq<Member>, ms: seq<Member>, i: nat)
    requires i <= |ms|
  {
    && IsCanonical(Object(out)) && MembersMean(out) == MembersMean(ms[..i])
    && forall x | x in out :: exists j :: 0 <= j < i && ms[j].key == x.key
  }

  lemma PrefixMeans(ms: seq<Member>, i: nat)
    requires SortedKeys(ms) && i < |ms|
    ensures MembersMean(ms[..i + 1]) ==
            if Nothing(Means(ms[i].value)) then MembersMean(ms[..i])
            else MembersMean(ms[..i])[ms[i].key := Means(ms[i].value)]
  {
    SortedMeansDistinct(ms);
    assert ms[..i + 1] == ms[..i] + [ms[i]];
    AppendMeans(ms[..i], ms[i]);
  }

  /** A member with a later key goes at the end. */
  lemma AppendCanonical(out: seq<Member>, m: Member)
    requires IsCanonical(Object(out)) && IsCanonical(m.value) && !IsEmptyCollection(m.value)
    requires forall x | x in out :: Precedes(x.key, m.key)
    ensures IsCanonical(Object(out + [m]))
    ensures MembersMean(out + [m]) == MembersMean(out)[m.key := Means(m.value)]
  {
    var next := out + [m];
    forall a | 0 <= a < |out| ensures Precedes(out[a].key, m.key) {
      assert out[a] in out;
    }
    assert SortedKeys(next);
    SortedMeansDistinct(next);
    CanonicalNothing(m.value);
    AppendMeans(out, m);
  }

  lemma EarlierKeysAreLess(out: seq<Member>, ms: seq<Member>, i: nat)
    requires SortedKeys(ms) && i < |ms| && Built(out, ms, i)
    ensures forall x | x in out :: Precedes(x.key, ms[i].key)
  {
    forall x | x in out ensures Precedes(x.key, ms[i].key) {
      var j :| 0 <= j < i && ms[j].key == x.key;
    }
  }

  lemma KeysSoFar(out: seq<Member>, ms: seq<Member>, i: nat, m: Member)
    requires i < |ms| && Built(out, ms, i) && m.key == ms[i].key
    ensures forall x | x in out + [m] :: exists j :: 0 <= j < i + 1 && ms[j].key == x.key
  {
    forall x | x in out + [m] ensures exists j :: 0 <= j < i + 1 && ms[j].key == x.key {
      if x in out {
        var j :| 0 <= j < i && ms[j].key == x.key;
      } else {
        assert x == m;
      }
    }
  }

  /** One round of the loop over sorted keys. */
  lemma AppendRound(out: seq<Member>, ms: seq<Member>, i: nat, v: Json)
    requires SortedKeys(ms) && i < |ms| && IsCanonical(v) && Means(v) == Means(ms[i].value)
    requires Built(out, ms, i)
    ensures Built(if IsEmptyCollection(v) then out else out + [Member(ms[i].key, v)], ms, i + 1)
  {
    var m := Member(ms[i].key, v);
    CanonicalNothing(v);
    PrefixMeans(ms, i);
    KeysSoFar(out, ms, i, m);
    if IsEmptyCollection(v) {
      assert forall x | x in out :: x in out + [m];
    } else {
      EarlierKeysAreLess(out, ms, i);
      AppendCanonical(out, m);
    }
  }

  lemma SortedMembersAreWellFormed(members: seq<Member>, i: nat)
    requires WellFormed(Object(members)) && i < |SortMembers(members)|
    ensures WellFormed(SortMembers(members)[i].value) && SortMembers(members)[i].value < Object(members)
  {
    var ms := SortMembers(members);
    assert ms[i] in members;
    var k :| 0 <= k < |members| && members[k] == ms[i];
  }

  lemma AllRoundsGiveForm(out: seq<Member>, members: seq<Member>)
    requires WellFormed(Object(members)) && SortedKeys(SortMembers(members))
    requires Built(out, SortMembers(members), |SortMembers(members)|)
    ensures Object(out) == Normalize(Object(members))
  {
    var ms := SortMembers(members);
    assert ms[..|ms|] == ms;
    SortedMeansDistinct(ms);
    SameMembersSameMeaning(ms, members);
    NormalizeKeepsMeaning(Object(members));
    NormalizeIsCanonical(Object(members));
    CanonicalIsUnique(Object(out), Normalize(Object(members)));
  }

  method NormalizeArray(items: seq<Json>) returns (out: seq<Json>)
    requires WellFormed(Array(items))
    ensures out == NormalizeItems(items)
    decreases Array(items), 0
  {
    out := [];
    for i := 0 to |items|
      invariant |out| == i && forall j | 0 <= j < i :: out[j] == NormalizeItems(items)[j]
    {
      var x := NormalizeValue(items[i]);
      NormalizeItemsAt(items, i);
      out := out + [x];
    }
  }

  /** The loop over sorted keys. */
  method NormalizeObject(members: seq<Member>) returns (out: seq<Member>)
    requires WellFormed(Object(members))
    ensures Object(out) == Normalize(Object(members))
    decreases Object(members), 0
  {
    var ms := SortMembers(members);
    SortMembersSorted(members);
    out := [];
    for i := 0 to |ms|
      invariant Built(out, ms, i)
    {
      SortedMembersAreWellFormed(members, i);
      var x := NormalizeValue(ms[i].value);
      NormalizeKeepsMeaning(ms[i].value);
      AppendRound(out, ms, i, x);
      if !IsEmptyCollection(x) {
        out := out + [Member(ms[i].key, x)];
      }
    }
    AllRoundsGiveForm(out, members);
  }

  /** normalize as it runs: recursion, a loop over array items, and a loop over sorted keys. */
  method NormalizeValue(v: Json) returns (r: Json)
    requires WellFormed(v)
    ensures r == Normalize(v) && IsCanonical(r)
    decreases v, 1
  {
    NormalizeIsCanonical(v);
    match v {
      case Array(items) =>
        var out := NormalizeArray(items);
        r := Array(out);
      case Object(members) =>
        var out := NormalizeObject(members);
        r := Object(out);
      case _ =>
        r := v;
    }
  }
}
