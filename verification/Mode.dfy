/** Permission specs: parsing and applying them (crates/elu-hooks/src/mode.rs). */
module Mode {
  import opened Wrappers
  import opened Bits

  datatype SymOp = Add | Remove | Set

  /** who: one bit in each of three octal digits; bits: rwx in the low octal digit. */
  datatype SymbolicClause = SymbolicClause(who: bv32, op: SymOp, bits: bv32)

  datatype ModeSpec = Octal(val: bv32) | Symbolic(clauses: seq<SymbolicClause>)

  datatype Who = User | Group | Other
  datatype Perm = Read | Write | Exec

  const EVERYONE: seq<Who> := [User, Group, Other]
  const WHO_ALL: bv32 := 0x49
  const RWX: bv32 := 0x7
  /** 0o777 and 0o7777. */
  const LOW_NINE: bv32 := 0x1FF
  const LOW_TWELVE: bv32 := 0xFFF
  const U32_LIMIT: nat := 0x1_0000_0000

  predicate Names(who: bv32, w: Who) {
    match w case User => who & 0x40 != 0 case Group => who & 0x08 != 0 case Other => who & 0x01 != 0
  }

  predicate Grants(bits: bv32, p: Perm) {
    match p case Read => bits & 0x4 != 0 case Write => bits & 0x2 != 0 case Exec => bits & 0x1 != 0
  }

  /** The rwx bits moved to w's octal digit. */
  function ShiftBits(w: Who, perm: bv32): bv32 {
    match w case User => perm << 6 case Group => perm << 3 case Other => perm
  }

  /** Does mode m let w do p? */
  predicate Allows(m: bv32, w: Who, p: Perm) {
    match w case User => Grants(m >> 6, p) case Group => Grants(m >> 3, p) case Other => Grants(m, p)
  }

  // ---- what a spec does to a mode ----

  function ApplyOp(op: SymOp, shifted: bv32, mask: bv32, mode: bv32): bv32 {
    match op
    case Add => mode | shifted
    case Remove => mode & !shifted
    case Set => (mode & !mask) | shifted
  }

  function ApplyWho(c: SymbolicClause, w: Who, mode: bv32): bv32 {
    if Names(c.who, w) then ApplyOp(c.op, ShiftBits(w, c.bits), ShiftBits(w, RWX), mode) else mode
  }

  function ApplyWhos(c: SymbolicClause, ws: seq<Who>, mode: bv32): bv32 {
    if ws == [] then mode
    else ApplyWho(c, ws[|ws| - 1], ApplyWhos(c, ws[..|ws| - 1], mode))
  }

  function ApplyClauses(cs: seq<SymbolicClause>, mode: bv32): bv32 {
    if cs == [] then mode
    else ApplyWhos(cs[|cs| - 1], EVERYONE, ApplyClauses(cs[..|cs| - 1], mode))
  }

  function ApplySpec(spec: ModeSpec, mode: bv32): bv32 {
    match spec
    case Octal(val) => (mode & !LOW_TWELVE) | val
    case Symbolic(cs) => ApplyClauses(cs, mode)
  }

  method ApplyAll(clauses: seq<SymbolicClause>, current: bv32) returns (mode: bv32)
    ensures mode == ApplyClauses(clauses, current)
  {
    mode := current;
    for i := 0 to |clauses|
      invariant mode == ApplyClauses(clauses[..i], current)
    {
      var clause := clauses[i];
      assert clauses[..i + 1][..i] == clauses[..i];
      assert ApplyClauses(clauses[..i + 1], current) == ApplyWhos(clause, EVERYONE, mode);
      ghost var before := mode;
      for k := 0 to 3
        invariant mode == ApplyWhos(clause, EVERYONE[..k], before)
      {
        var w := EVERYONE[k];
        if Names(clause.who, w) {
          mode := ApplyOp(clause.op, ShiftBits(w, clause.bits), ShiftBits(w, RWX), mode);
        }
        assert EVERYONE[..k + 1][..k] == EVERYONE[..k];
      }
      assert EVERYONE[..3] == EVERYONE;
    }
    assert clauses[..|clauses|] == clauses;
  }

  method Apply(spec: ModeSpec, current: bv32) returns (mode: bv32)
    ensures mode == ApplySpec(spec, current)
  {
    match spec
    case Octal(val) => mode := (current & !LOW_TWELVE) | val;
    case Symbolic(clauses) => mode := ApplyAll(clauses, current);
  }

  // ---- what a spec's text says ----

  predicate IsWhitespace(c: char) {
    var n := c as int;
    9 <= n <= 13 || n == 0x20 || n == 0x85 || n == 0xA0 || n == 0x1680 || 0x2000 <= n <= 0x200A
    || n == 0x2028 || n == 0x2029 || n == 0x202F || n == 0x205F || n == 0x3000
  }

  function Trim(s: string): string
    decreases |s|
  {
    if s == [] then s
    else if IsWhitespace(s[0]) then Trim(s[1..])
    else if IsWhitespace(s[|s| - 1]) then Trim(s[..|s| - 1])
    else s
  }

  /** The pieces between commas: one more than there are commas. */
  function SplitCommas(s: string): (r: seq<string>)
    ensures |r| > 0
  {
    if s == [] then [[]]
    else
      var rest := SplitCommas(s[1..]);
      if s[0] == ',' then [[]] + rest else [[s[0]] + rest[0]] + rest[1..]
  }

  predicate AllDigits(s: string) {
    forall i | 0 <= i < |s| :: '0' <= s[i] <= '9'
  }

  predicate AllOctal(s: string) {
    forall i | 0 <= i < |s| :: '0' <= s[i] <= '7'
  }

  function OctalValue(s: string): nat
    requires AllOctal(s)
  {
    if s == [] then 0 else 8 * OctalValue(s[..|s| - 1]) + (s[|s| - 1] as int - '0' as int)
  }

  function WhoChar(w: Who): char {
    match w case User => 'u' case Group => 'g' case Other => 'o'
  }

  function PermChar(p: Perm): char {
    match p case Read => 'r' case Write => 'w' case Exec => 'x'
  }

  function OpChar(op: SymOp): char {
    match op case Add => '+' case Remove => '-' case Set => '='
  }

  /** A clause whose operator stands at n: letters of u g o a before it, letters of r w x after it. */
  predicate ClauseAt(part: string, n: nat) {
    && n < |part|
    && (forall i | 0 <= i < n :: part[i] in "ugoa")
    && part[n] in "+-="
    && (forall i | n < i < |part| :: part[i] in "rwx")
  }

  predicate IsClause(part: string) {
    exists n: nat :: n < |part| && ClauseAt(part, n)
  }

  /** Nobody named means everybody. */
  predicate NamesWho(part: string, n: nat, w: Who)
    requires n < |part|
  {
    n == 0 || 'a' in part[..n] || WhoChar(w) in part[..n]
  }

  predicate NamesPerm(part: string, n: nat, p: Perm)
    requires n < |part|
  {
    PermChar(p) in part[n + 1..]
  }

  predicate InRange(c: SymbolicClause) {
    c.who & !WHO_ALL == 0 && c.bits & !RWX == 0
  }

  /** Clause c says what the text part with its operator at n says, and nothing more. */
  predicate Says(part: string, n: nat, c: SymbolicClause) {
    && ClauseAt(part, n)
    && InRange(c)
    && part[n] == OpChar(c.op)
    && (forall w :: Names(c.who, w) <==> NamesWho(part, n, w))
    && (forall p :: Grants(c.bits, p) <==> NamesPerm(part, n, p))
  }

  predicate SaysSo(part: string, c: SymbolicClause) {
    exists n: nat :: n < |part| && Says(part, n, c)
  }

  /** The trimmed texts parse accepts. */
  predicate Accepted(t: string) {
    && t != []
    && if AllDigits(t) then AllOctal(t) && OctalValue(t) <= 0xFFF
       else forall i | 0 <= i < |SplitCommas(t)| :: IsClause(Trim(SplitCommas(t)[i]))
  }

  predicate Denotes(t: string, spec: ModeSpec) {
    if AllDigits(t) then AllOctal(t) && OctalValue(t) <= 0xFFF && spec == Octal(LowBits(OctalValue(t)))
    else
      && spec.Symbolic?
      && |spec.clauses| == |SplitCommas(t)|
      && forall i | 0 <= i < |spec.clauses| :: SaysSo(Trim(SplitCommas(t)[i]), spec.clauses[i])
  }

  // ---- the scanners ----

  lemma {:induction false} PrefixIsSmaller(s: string, i: nat)
    requires i <= |s| && AllOctal(s)
    ensures AllOctal(s[..i]) && OctalValue(s[..i]) <= OctalValue(s)
    decreases |s|
  {
    if i < |s| {
      var t := s[..|s| - 1];
      PrefixIsSmaller(t, i);
      assert t[..i] == s[..i];
    } else {
      assert s[..i] == s;
    }
  }

  /** u32::from_str_radix(digits, 8): fails on 8, 9 and on anything past 32 bits. */
  method FromOctal(digits: string) returns (r: Option<nat>)
    requires digits != [] && AllDigits(digits)
    ensures r.Some? <==> AllOctal(digits) && OctalValue(digits) < U32_LIMIT
    ensures r.Some? ==> r.value == OctalValue(digits)
  {
    var val, i := 0, 0;
    while i < |digits|
      invariant 0 <= i <= |digits|
      invariant AllOctal(digits[..i]) && val == OctalValue(digits[..i]) < U32_LIMIT
    {
      if digits[i] > '7' {
        return None;
      }
      assert digits[..i + 1][..i] == digits[..i];
      val := 8 * val + (digits[i] as int - '0' as int);
      if val >= U32_LIMIT {
        if AllOctal(digits) { PrefixIsSmaller(digits, i + 1); }
        return None;
      }
      i := i + 1;
    }
    assert digits[..i] == digits;
    r := Some(val);
  }

  lemma {:induction false} LeadingZero(s: string)
    requires s != [] && s[0] == '0' && AllOctal(s[1..])
    ensures AllOctal(s) && OctalValue(s) == OctalValue(s[1..])
  {
    assert s == [s[0]] + s[1..];
    if |s| == 1 {
      assert s[..0] == [] && s[1..] == [];
    } else {
      var t := s[..|s| - 1];
      assert t[1..] == s[1..][..|s| - 2];
      LeadingZero(t);
    }
  }

  method ParseWho(part: string) returns (who: bv32, i: nat)
    ensures i <= |part| && (forall k | 0 <= k < i :: part[k] in "ugoa")
    ensures i < |part| ==> part[i] !in "ugoa"
    ensures who & !WHO_ALL == 0
    ensures forall w :: Names(who, w) <==> i == 0 || 'a' in part[..i] || WhoChar(w) in part[..i]
  {
    who, i := 0, 0;
    while i < |part| && part[i] in "ugoa"
      decreases |part| - i
      invariant 0 <= i <= |part| && (forall k | 0 <= k < i :: part[k] in "ugoa")
      invariant who & !WHO_ALL == 0
      invariant who == 0 <==> i == 0
      invariant forall w :: Names(who, w) <==> 'a' in part[..i] || WhoChar(w) in part[..i]
    {
      assert part[..i + 1] == part[..i] + [part[i]];
      match part[i] {
        case 'u' => who := who | 0x40;
        case 'g' => who := who | 0x08;
        case 'o' => who := who | 0x01;
        case _ => who := who | WHO_ALL;
      }
      i := i + 1;
    }
    if who == 0 { who := WHO_ALL; }
  }

  method ParsePerms(part: string, start: nat) returns (r: Option<bv32>)
    requires start <= |part|
    ensures r.Some? <==> forall k | start <= k < |part| :: part[k] in "rwx"
    ensures r.Some? ==> r.value & !RWX == 0
    ensures r.Some? ==> forall p :: Grants(r.value, p) <==> PermChar(p) in part[start..]
  {
    var bits: bv32, i := 0, start;
    while i < |part|
      decreases |part| - i
      invariant start <= i <= |part| && (forall k | start <= k < i :: part[k] in "rwx")
      invariant bits & !RWX == 0
      invariant forall p :: Grants(bits, p) <==> PermChar(p) in part[start..i]
    {
      assert part[start..i + 1] == part[start..i] + [part[i]];
      match part[i] {
        case 'r' => bits := bits | 0x4;
        case 'w' => bits := bits | 0x2;
        case 'x' => bits := bits | 0x1;
        case _ => return None;
      }
      i := i + 1;
    }
    assert part[start..i] == part[start..];
    r := Some(bits);
  }

  /** The operator stands right after the leading who letters, nowhere else. */
  lemma OperatorPlace(part: string, i: nat, n: nat)
    requires i <= |part| && (forall k | 0 <= k < i :: part[k] in "ugoa")
    requires i < |part| ==> part[i] !in "ugoa"
    requires ClauseAt(part, n)
    ensures n == i
  {
  }

  method ParseSymbolicClause(part: string) returns (r: Option<SymbolicClause>)
    ensures r.Some? <==> IsClause(part)
    ensures r.Some? ==> SaysSo(part, r.value)
  {
    var who, i := ParseWho(part);
    forall n: nat | n < |part| && ClauseAt(part, n) ensures n == i { OperatorPlace(part, i, n); }
    if i >= |part| || part[i] !in "+-=" { return None; }
    var op := match part[i] case '+' => Add case '-' => Remove case _ => Set;
    var perms := ParsePerms(part, i + 1);
    if perms.None? { return None; }
    assert ClauseAt(part, i);
    r := Some(SymbolicClause(who, op, perms.value));
    assert Says(part, i, r.value);
  }

  method ParseSymbolic(t: string) returns (r: Result<ModeSpec, string>)
    ensures r.Success? <==> forall i | 0 <= i < |SplitCommas(t)| :: IsClause(Trim(SplitCommas(t)[i]))
    ensures r.Success? ==> r.value.Symbolic? && |r.value.clauses| == |SplitCommas(t)|
    ensures r.Success? ==> forall i | 0 <= i < |r.value.clauses| :: SaysSo(Trim(SplitCommas(t)[i]), r.value.clauses[i])
    ensures r.Failure? ==> r.error == t
  {
    var parts, clauses := SplitCommas(t), [];
    for i := 0 to |parts|
      invariant |clauses| == i
      invariant forall k | 0 <= k < i :: IsClause(Trim(parts[k])) && SaysSo(Trim(parts[k]), clauses[k])
    {
      var part := Trim(parts[i]);
      if part == [] {
        assert Trim(SplitCommas(t)[i]) == part && !IsClause(part);
        return Failure(t);
      }
      var clause := ParseSymbolicClause(part);
      if clause.None? { return Failure(t); }
      clauses := clauses + [clause.value];
    }
    r := Success(Symbolic(clauses));
  }

  /** parse accepts exactly the accepted texts; with or without a leading zero, digits mean the same. */
  method Parse(text: string) returns (r: Result<ModeSpec, string>)
    ensures r.Success? <==> Accepted(Trim(text))
    ensures r.Success? ==> Denotes(Trim(text), r.value)
    ensures r.Failure? ==> r.error == Trim(text)
  {
    var s := Trim(text);
    if s == [] { return Failure(s); }
    if s[0] == '0' && |s| > 1 && AllDigits(s[1..]) {
      assert AllDigits(s) by { assert s == [s[0]] + s[1..]; }
      if AllOctal(s[1..]) { LeadingZero(s); }
      var val := FromOctal(s[1..]);
      if val.None? || val.value > 0xFFF { return Failure(s); }
      return Success(Octal(LowBits(val.value)));
    }
    if AllDigits(s) {
      var val := FromOctal(s);
      if val.None? || val.value > 0xFFF { return Failure(s); }
      return Success(Octal(LowBits(val.value)));
    }
    r := ParseSymbolic(s);
  }
}
