/** Numbers as upper-case hexadecimal digits (`{:04X}` and `{:08X}`). */
module Hexadecimal {
  function HexDigit(d: nat): nat
    requires d < 16
  {
    if d < 10 then 0x30 + d else 0x41 + (d - 10)
  }

  function Hex(v: nat, n: nat): (s: seq<nat>)
    ensures |s| == n
  {
    if n == 0 then [] else Hex(v / 16, n - 1) + [HexDigit(v % 16)]
  }

  /** The number that hexadecimal digits spell, most significant first. */
  function Spelled(s: seq<nat>): nat {
    if s == [] then 0 else 16 * Spelled(s[..|s| - 1]) + DigitValue(s[|s| - 1])
  }

  function DigitValue(c: nat): nat {
    if '0' as nat <= c <= '9' as nat then c - '0' as nat
    else if 'A' as nat <= c <= 'F' as nat then c - 'A' as nat + 10 else 16
  }

  function Pow16(n: nat): nat {
    if n == 0 then 1 else 16 * Pow16(n - 1)
  }

  /** Upper-case digits, and they spell the number. */
  lemma {:induction false} HexSpells(v: nat, n: nat)
    requires v < Pow16(n)
    ensures Spelled(Hex(v, n)) == v && forall i :: 0 <= i < n ==> DigitValue(Hex(v, n)[i]) < 16
    decreases n
  {
    if n > 0 {
      HexSpells(v / 16, n - 1);
      assert Hex(v, n)[..n - 1] == Hex(v / 16, n - 1);
    }
  }
}
