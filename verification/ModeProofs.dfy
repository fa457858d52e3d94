/** What applying a permission spec does to each bit of a mode. */
module ModeProofs {
  import opened Bits
  import opened Mode

  // ---- every spec is one pair of masks ----

  const ALL_ONES: bv32 := 0xFFFF_FFFF

  function Masked(x: bv32, keep: bv32, force: bv32): bv32 {
    (x & keep) | force
  }

  lemma AddIsMasks(shifted: bv32, mask: bv32, x: bv32, keep: bv32, force: bv32)
    ensures ApplyOp(Add, shifted, mask, Masked(x, keep, force))
         == Masked(x, ApplyOp(Add, shifted, mask, keep), ApplyOp(Add, shifted, mask, force))
  {}

  lemma RemoveIsMasks(shifted: bv32, mask: bv32, x: bv32, keep: bv32, force: bv32)
    ensures ApplyOp(Remove, shifted, mask, Masked(x, keep, force))
         == Masked(x, ApplyOp(Remove, shifted, mask, keep), ApplyOp(Remove, shifted, mask, force))
  {}

  lemma SetIsMasks(shifted: bv32, mask: bv32, x: bv32, keep: bv32, force: bv32)
    ensures ApplyOp(Set, shifted, mask, Masked(x, keep, force))
         == Masked(x, ApplyOp(Set, shifted, mask, keep), ApplyOp(Set, shifted, mask, force))
  {}

  lemma OpIsMasks(op: SymOp, shifted: bv32, mask: bv32, x: bv32, keep: bv32, force: bv32)
    ensures ApplyOp(op, shifted, mask, Masked(x, keep, force))
         == Masked(x, ApplyOp(op, shifted, mask, keep), ApplyOp(op, shifted, mask, force))
  {
    match op
    case Add => AddIsMasks(shifted, mask, x, keep, force);
    case Remove => RemoveIsMasks(shifted, mask, x, keep, force);
    case Set => SetIsMasks(shifted, mask, x, keep, force);
  }

  lemma {:induction false} WhosAreMasks(c: SymbolicClause, ws: seq<Who>, x: bv32, keep: bv32, force: bv32)
    ensures ApplyWhos(c, ws, Masked(x, keep, force))
         == Masked(x, ApplyWhos(c, ws, keep), ApplyWhos(c, ws, force))
  {
    if ws != [] {
      var w, init := ws[|ws| - 1], ws[..|ws| - 1];
      WhosAreMasks(c, init, x, keep, force);
      OpIsMasks(c.op, ShiftBits(w, c.bits), ShiftBits(w, RWX), x, ApplyWhos(c, init, keep), ApplyWhos(c, init, force));
    }
  }

  lemma {:induction false} ClausesAreMasks(cs: seq<SymbolicClause>, x: bv32)
    ensures ApplyClauses(cs, x) == Masked(x, ApplyClauses(cs, ALL_ONES), ApplyClauses(cs, 0))
  {
    if cs != [] {
      var init := cs[..|cs| - 1];
      ClausesAreMasks(init, x);
      WhosAreMasks(cs[|cs| - 1], EVERYONE, x, ApplyClauses(init, ALL_ONES), ApplyClauses(init, 0));
    }
  }

  lemma OctalIsMasks(val: bv32, x: bv32)
    ensures (x & !LOW_TWELVE) | val == (x & ((ALL_ONES & !LOW_TWELVE) | val)) | ((0 & !LOW_TWELVE) | val)
  {}

  /** A spec only masks and sets: the masks are what it makes of all ones and of zero. */
  lemma SpecIsMasks(spec: ModeSpec, x: bv32)
    ensures ApplySpec(spec, x) == (x & ApplySpec(spec, ALL_ONES)) | ApplySpec(spec, 0)
  {
    match spec
    case Octal(val) => OctalIsMasks(val, x);
    case Symbolic(cs) => ClausesAreMasks(cs, x);
  }

  lemma MasksTwice(x: bv32, keep: bv32, force: bv32)
    ensures (((x & keep) | force) & keep) | force == (x & keep) | force
  {}

  lemma ApplyIsIdempotent(spec: ModeSpec, x: bv32)
    ensures ApplySpec(spec, ApplySpec(spec, x)) == ApplySpec(spec, x)
  {
    SpecIsMasks(spec, x);
    SpecIsMasks(spec, ApplySpec(spec, x));
    MasksTwice(x, ApplySpec(spec, ALL_ONES), ApplySpec(spec, 0));
  }

  // ---- the bits a parsed spec can touch ----

  lemma LowTwelveOnly(val: bv32, x: bv32)
    requires val <= LOW_TWELVE
    ensures ((x & !LOW_TWELVE) | val) & 0xFFFF_F000 == x & 0xFFFF_F000
    ensures ((x & !LOW_TWELVE) | val) & 0x0000_0FFF == val
  {}

  /** Octal digits with a value of up to 0o7777 are accepted, and replace the low twelve bits by it. */
  lemma OctalReplacesLowTwelve(t: string, spec: ModeSpec, x: bv32)
    requires t != [] && forall i | 0 <= i < |t| :: '0' <= t[i] <= '7'
    ensures Accepted(t) <==> OctalValue(t) <= 0xFFF
    ensures Denotes(t, spec) ==>
            && ApplySpec(spec, x) & 0xFFFF_F000 == x & 0xFFFF_F000
            && (ApplySpec(spec, x) & 0x0000_0FFF) as nat == OctalValue(t)
  {
    if Denotes(t, spec) {
      LowTwelveOnly(spec.val, x);
    }
  }

  lemma OpKeepsOutside(op: SymOp, shifted: bv32, mask: bv32, x: bv32, outside: bv32)
    requires shifted & outside == 0 && mask & outside == 0
    ensures ApplyOp(op, shifted, mask, x) & outside == x & outside
  {}

  lemma ShiftStaysLow(w: Who, bits: bv32)
    requires bits & !RWX == 0
    ensures ShiftBits(w, bits) & !LOW_NINE == 0
  {}

  lemma {:induction false} WhosTouchLowNine(c: SymbolicClause, ws: seq<Who>, x: bv32)
    requires InRange(c)
    ensures ApplyWhos(c, ws, x) & !LOW_NINE == x & !LOW_NINE
  {
    if ws != [] {
      var init := ws[..|ws| - 1];
      var w := ws[|ws| - 1];
      WhosTouchLowNine(c, init, x);
      ShiftStaysLow(w, c.bits);
      ShiftStaysLow(w, RWX);
      OpKeepsOutside(c.op, ShiftBits(w, c.bits), ShiftBits(w, RWX), ApplyWhos(c, init, x), !LOW_NINE);
    }
  }

  lemma {:induction false} ClausesTouchLowNine(cs: seq<SymbolicClause>, x: bv32)
    requires forall i | 0 <= i < |cs| :: InRange(cs[i])
    ensures ApplyClauses(cs, x) & !LOW_NINE == x & !LOW_NINE
  {
    if cs != [] {
      var init := cs[..|cs| - 1];
      ClausesTouchLowNine(init, x);
      WhosTouchLowNine(cs[|cs| - 1], EVERYONE, ApplyClauses(init, x));
    }
  }

  lemma ParsedIsInRange(t: string, spec: ModeSpec, k: nat)
    requires Denotes(t, spec) && !AllDigits(t) && k < |spec.clauses|
    ensures InRange(spec.clauses[k])
  {
    var part := Trim(SplitCommas(t)[k]);
    var n: nat :| n < |part| && Says(part, n, spec.clauses[k]);
  }

  /** Letters leave everything above the nine permission bits alone. */
  lemma SymbolicTouchesLowNine(t: string, spec: ModeSpec, x: bv32)
    requires Denotes(t, spec) && !AllDigits(t)
    ensures ApplySpec(spec, x) & !LOW_NINE == x & !LOW_NINE
  {
    forall i | 0 <= i < |spec.clauses| ensures InRange(spec.clauses[i]) { ParsedIsInRange(t, spec, i); }
    ClausesTouchLowNine(spec.clauses, x);
  }

  // ---- who decides a bit ----

  predicate Touches(c: SymbolicClause, w: Who, p: Perm) {
    Names(c.who, w) && (c.op == Set || Grants(c.bits, p))
  }

  predicate Verdict(c: SymbolicClause, p: Perm) {
    c.op != Remove && Grants(c.bits, p)
  }

  lemma AddOnOwnDigit(w: Who, bits: bv32, x: bv32, p: Perm)
    ensures Allows(ApplyOp(Add, ShiftBits(w, bits), ShiftBits(w, RWX), x), w, p) <==> Grants(bits, p) || Allows(x, w, p)
  {
    match w
    case User => assert true;
    case Group => assert true;
    case Other => assert true;
  }

  lemma RemoveOnOwnDigit(w: Who, bits: bv32, x: bv32, p: Perm)
    ensures Allows(ApplyOp(Remove, ShiftBits(w, bits), ShiftBits(w, RWX), x), w, p) <==>
        !Grants(bits, p) && Allows(x, w, p)
  {
    match w
    case User => assert true;
    case Group => assert true;
    case Other => assert true;
  }

  lemma SetOnOwnDigit(w: Who, bits: bv32, x: bv32, p: Perm)
    ensures Allows(ApplyOp(Set, ShiftBits(w, bits), ShiftBits(w, RWX), x), w, p) <==> Grants(bits, p)
  {
    match w
    case User => assert true;
    case Group => assert true;
    case Other => assert true;
  }

  lemma OpOnOwnDigit(op: SymOp, w: Who, bits: bv32, x: bv32, p: Perm)
    ensures Allows(ApplyOp(op, ShiftBits(w, bits), ShiftBits(w, RWX), x), w, p)
       <==> (if op == Set || Grants(bits, p) then op != Remove && Grants(bits, p) else Allows(x, w, p))
  {
    match op
    case Add => AddOnOwnDigit(w, bits, x, p);
    case Remove => RemoveOnOwnDigit(w, bits, x, p);
    case Set => SetOnOwnDigit(w, bits, x, p);
  }

  lemma OpOnOtherDigit(op: SymOp, v: Who, bits: bv32, x: bv32, w: Who, p: Perm)
    requires bits & !RWX == 0 && v != w
    ensures Allows(ApplyOp(op, ShiftBits(v, bits), ShiftBits(v, RWX), x), w, p) <==> Allows(x, w, p)
  {
    var digit := ShiftBits(w, RWX);
    ShiftsApart(v, bits, w);
    ShiftsApart(v, RWX, w);
    OpKeepsOutside(op, ShiftBits(v, bits), ShiftBits(v, RWX), x, digit);
    AllowsByDigit(x, ApplyOp(op, ShiftBits(v, bits), ShiftBits(v, RWX), x), w, p);
  }

  lemma ShiftsApart(v: Who, bits: bv32, w: Who)
    requires bits & !RWX == 0 && v != w
    ensures ShiftBits(v, bits) & ShiftBits(w, RWX) == 0
  {}

  lemma AllowsByDigit(x: bv32, y: bv32, w: Who, p: Perm)
    requires x & ShiftBits(w, RWX) == y & ShiftBits(w, RWX)
    ensures Allows(x, w, p) <==> Allows(y, w, p)
  {}

  lemma NamedWho(c: SymbolicClause, v: Who, x: bv32)
    requires Names(c.who, v)
    ensures ApplyWho(c, v, x) == ApplyOp(c.op, ShiftBits(v, c.bits), ShiftBits(v, RWX), x)
  {
  }

  lemma WhoDecides(c: SymbolicClause, v: Who, x: bv32, w: Who, p: Perm)
    requires InRange(c)
    ensures Allows(ApplyWho(c, v, x), w, p)
       <==> (if v == w && Touches(c, w, p) then Verdict(c, p) else Allows(x, w, p))
  {
    if Names(c.who, v) {
      NamedWho(c, v, x);
      if v == w {
        OpOnOwnDigit(c.op, w, c.bits, x, p);
      } else {
        OpOnOtherDigit(c.op, v, c.bits, x, w, p);
      }
    }
  }

  lemma {:induction false} WhosDecide(c: SymbolicClause, ws: seq<Who>, x: bv32, w: Who, p: Perm)
    requires InRange(c)
    ensures Allows(ApplyWhos(c, ws, x), w, p)
       <==> (if w in ws && Touches(c, w, p) then Verdict(c, p) else Allows(x, w, p))
  {
    if ws != [] {
      var v, init := ws[|ws| - 1], ws[..|ws| - 1];
      assert ws == init + [v];
      WhosDecide(c, init, x, w, p);
      WhoDecides(c, v, ApplyWhos(c, init, x), w, p);
    }
  }

  /** The last clause that touches a bit decides it, and a bit none touches keeps its value. */
  lemma {:induction false} LastClauseDecides(cs: seq<SymbolicClause>, x: bv32, w: Who, p: Perm, k: nat)
    requires forall i | 0 <= i < |cs| :: InRange(cs[i])
    requires k <= |cs| && forall i | k <= i < |cs| :: !Touches(cs[i], w, p)
    requires k > 0 ==> Touches(cs[k - 1], w, p)
    ensures Allows(ApplyClauses(cs, x), w, p) <==> (if k > 0 then Verdict(cs[k - 1], p) else Allows(x, w, p))
  {
    if cs != [] {
      var last, init := cs[|cs| - 1], cs[..|cs| - 1];
      WhosDecide(last, EVERYONE, ApplyClauses(init, x), w, p);
      assert w in EVERYONE by { WhoIsSomeone(w); }
      if k < |cs| { LastClauseDecides(init, x, w, p, k); }
    }
  }

  lemma WhoIsSomeone(w: Who)
    ensures w in EVERYONE
  {
    assert EVERYONE[0] == User && EVERYONE[1] == Group && EVERYONE[2] == Other;
  }

  // ---- the same, read off the text ----

  function JoinCommas(parts: seq<string>): string
    requires parts != []
  {
    if |parts| == 1 then parts[0] else parts[0] + "," + JoinCommas(parts[1..])
  }

  /** The parts are the text cut at its commas, all of them and nowhere else. */
  lemma {:induction false} SplitCutsAtCommas(s: string)
    ensures IsCutOf(s, SplitCommas(s))
  {
    if s != [] {
      var rest := SplitCommas(s[1..]);
      SplitCutsAtCommas(s[1..]);
      assert s == [s[0]] + s[1..];
      if s[0] == ',' {
        assert SplitCommas(s)[1..] == rest;
      } else {
        assert SplitCommas(s)[1..] == rest[1..];
        if |rest| == 1 {
          assert JoinCommas(SplitCommas(s)) == [s[0]] + rest[0];
        } else {
          assert JoinCommas(SplitCommas(s)) == ([s[0]] + rest[0]) + "," + JoinCommas(rest[1..]);
        }
      }
    }
  }

  /** The clause text with its operator at n speaks about w's right to p. */
  predicate SpeaksOf(part: string, n: nat, w: Who, p: Perm)
    requires n < |part|
  {
    NamesWho(part, n, w) && (part[n] == '=' || NamesPerm(part, n, p))
  }

  predicate PartTouches(part: string, w: Who, p: Perm) {
    exists n: nat :: n < |part| && ClauseAt(part, n) && SpeaksOf(part, n, w, p)
  }

  predicate PartGrants(part: string, p: Perm) {
    exists n: nat :: n < |part| && ClauseAt(part, n) && part[n] != '-' && NamesPerm(part, n, p)
  }

  lemma OneOperator(part: string, m: nat, n: nat)
    requires ClauseAt(part, m) && ClauseAt(part, n)
    ensures m == n
  {
    OperatorPlace(part, m, n);
  }

  lemma ClauseReadsAsText(part: string, c: SymbolicClause, w: Who, p: Perm)
    requires SaysSo(part, c)
    ensures Touches(c, w, p) <==> PartTouches(part, w, p)
    ensures Verdict(c, p) <==> PartGrants(part, p)
  {
    var n: nat :| n < |part| && Says(part, n, c);
    forall m: nat | m < |part| && ClauseAt(part, m) ensures m == n { OneOperator(part, m, n); }
  }

  /** The text cut at its commas: joined again it is the text, and no part has a comma. */
  predicate IsCutOf(t: string, parts: seq<string>) {
    parts != [] && JoinCommas(parts) == t && forall i | 0 <= i < |parts| :: ',' !in parts[i]
  }

  lemma {:induction false} SplitOfPart(part: string, rest: string)
    requires ',' !in part
    ensures SplitCommas(part + "," + rest) == [part] + SplitCommas(rest)
    ensures SplitCommas(part) == [part]
  {
    if part == [] {
      assert part + "," + rest == [','] + rest;
      assert ([','] + rest)[1..] == rest;
    } else {
      assert ',' !in part[1..];
      SplitOfPart(part[1..], rest);
      assert (part + "," + rest)[1..] == part[1..] + "," + rest;
      assert [part[0]] + part[1..] == part;
    }
  }

  /** There is only one such cut, the one parse makes. */
  lemma {:induction false} OnlyOneCut(t: string, parts: seq<string>)
    requires IsCutOf(t, parts)
    ensures SplitCommas(t) == parts
    decreases |parts|
  {
    SplitOfPart(parts[0], if |parts| == 1 then "" else JoinCommas(parts[1..]));
    if |parts| == 1 {
      assert parts == [parts[0]];
    } else {
      OnlyOneCut(JoinCommas(parts[1..]), parts[1..]);
      assert parts == [parts[0]] + parts[1..];
    }
  }

  /**
   * From text to bit: however the text is cut at its commas, the last part that speaks of a
   * bit decides it, and a bit no part speaks of keeps its value.
   */
  lemma LastPartDecides(t: string, parts: seq<string>, spec: ModeSpec, x: bv32, w: Who, p: Perm, k: nat)
    requires Denotes(t, spec) && !AllDigits(t) && IsCutOf(t, parts)
    requires k <= |parts| && forall i | k <= i < |parts| :: !PartTouches(Trim(parts[i]), w, p)
    requires k > 0 ==> PartTouches(Trim(parts[k - 1]), w, p)
    ensures Allows(ApplySpec(spec, x), w, p) <==> (if k > 0 then PartGrants(Trim(parts[k - 1]), p) else Allows(x, w, p))
  {
    OnlyOneCut(t, parts);
    PartsReadAsClauses(t, spec, w, p);
    LastClauseDecides(spec.clauses, x, w, p, k);
  }

  lemma PartsReadAsClauses(t: string, spec: ModeSpec, w: Who, p: Perm)
    requires Denotes(t, spec) && !AllDigits(t)
    ensures |SplitCommas(t)| == |spec.clauses|
    ensures forall i | 0 <= i < |spec.clauses| :: InRange(spec.clauses[i])
    ensures forall i | 0 <= i < |spec.clauses| :: Touches(spec.clauses[i], w, p) <==>
        PartTouches(Trim(SplitCommas(t)[i]), w, p)
    ensures forall i | 0 <= i < |spec.clauses| :: Verdict(spec.clauses[i], p) <==>
        PartGrants(Trim(SplitCommas(t)[i]), p)
  {
    var parts, cs := SplitCommas(t), spec.clauses;
    forall i | 0 <= i < |cs|
      ensures InRange(cs[i]) && (Touches(cs[i], w, p) <==> PartTouches(Trim(parts[i]), w, p))
      ensures Verdict(cs[i], p) <==> PartGrants(Trim(parts[i]), p)
    {
      ParsedIsInRange(t, spec, i);
      ClauseReadsAsText(Trim(parts[i]), cs[i], w, p);
    }
  }

  // ---- blanks around a text ----

  /** The white space of plain text; every other character of it belongs to the spec. */
  lemma AsciiBlanks(c: char)
    requires c as int < 0x80
    ensures IsWhitespace(c) <==> c in [' ', '\t', '\n', '\r', 0x0B as char, 0x0C as char]
  {
  }

  /** What is left of a text is what stands between its blanks. */
  lemma {:induction false} TrimCuts(s: string, a: nat, b: nat)
    requires a <= b <= |s|
    requires (forall i | 0 <= i < a :: IsWhitespace(s[i])) && (forall i | b <= i < |s| :: IsWhitespace(s[i]))
    requires a < b ==> !IsWhitespace(s[a]) && !IsWhitespace(s[b - 1])
    ensures Trim(s) == s[a..b]
    decreases |s|
  {
    if s != [] {
      if a > 0 {
        TrimCuts(s[1..], a - 1, b - 1);
        assert s[1..][a - 1..b - 1] == s[a..b];
      } else if b == 0 {
        TrimCuts(s[1..], 0, 0);
      } else if b < |s| {
        TrimCuts(s[..|s| - 1], a, b);
        assert s[..|s| - 1][a..b] == s[a..b];
      }
    }
  }
}
