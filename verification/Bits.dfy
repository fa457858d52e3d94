/** Numbers up to 0o7777 as mode bits, one octal digit after the other. */
module Bits {
  function Digit(n: nat): (r: bv12)
    requires n < 8
    ensures r <= 7 && r as nat == n
  {
    if n == 0 then 0 else if n == 1 then 1 else if n == 2 then 2 else if n == 3 then 3
    else if n == 4 then 4 else if n == 5 then 5 else if n == 6 then 6 else 7
  }

  lemma ShiftIn(v: bv12, d: bv12)
    requires v <= 0x1FF && d <= 7
    ensures ((v << 3) | d) as nat == 8 * (v as nat) + (d as nat)
    ensures v == 0 ==> (v << 3) | d <= 7
    ensures v <= 7 ==> (v << 3) | d <= 0x3F
    ensures v <= 0x3F ==> (v << 3) | d <= 0x1FF
  {}

  /** One more digit behind the others. */
  function Push(v: bv12, d: nat): (r: bv12)
    requires v <= 0x1FF && d < 8
    ensures r as nat == 8 * (v as nat) + d
    ensures (v <= 7 ==> r <= 0x3F) && (v <= 0x3F ==> r <= 0x1FF)
  {
    ShiftIn(v, Digit(d));
    (v << 3) | Digit(d)
  }

  function Digits(n: nat): (r: bv12)
    requires n <= 0xFFF
    ensures r as nat == n
    ensures (n < 8 ==> r <= 7) && (n < 0x40 ==> r <= 0x3F) && (n < 0x200 ==> r <= 0x1FF)
  {
    if n < 8 then Digit(n) else Push(Digits(n / 8), n % 8)
  }

  lemma Widened(v: bv12)
    ensures (v as bv32) as nat == v as nat && v as bv32 <= 0xFFF
  {}

  function LowBits(n: nat): (r: bv32)
    requires n <= 0xFFF
    ensures r as nat == n && r <= 0xFFF
  {
    Widened(Digits(n));
    Digits(n) as bv32
  }
}
