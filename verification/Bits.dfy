/** Fixed-width machine integers seen through their bits, most significant bit first.

    The modelled drivers never do arithmetic on framebuffer bytes and words: they only
    combine them with `&`, `|`, `^`, `~`, `<<` and `>>`.  A value of width n is therefore
    the sequence of its n bits, and each C operator is its bitwise definition. */
module Bits {

  type Bits = seq<bool>

  type Word = w: Bits | |w| == 32 witness seq(32, _ => false)
  type Byte = b: Bits | |b| == 8 witness seq(8, _ => false)

  function And(a: Bits, b: Bits): Bits
    requires |a| == |b|
  {
    seq(|a|, i requires 0 <= i < |a| => a[i] && b[i])
  }

  function Or(a: Bits, b: Bits): Bits
    requires |a| == |b|
  {
    seq(|a|, i requires 0 <= i < |a| => a[i] || b[i])
  }

  function Xor(a: Bits, b: Bits): Bits
    requires |a| == |b|
  {
    seq(|a|, i requires 0 <= i < |a| => a[i] != b[i])
  }

  function Not(a: Bits): Bits {
    seq(|a|, i requires 0 <= i < |a| => !a[i])
  }

  function Fill(n: nat, v: bool): Bits {
    seq(n, _ => v)
  }

  function Shl(a: Bits, n: nat): Bits {
    seq(|a|, i requires 0 <= i < |a| => i + n < |a| && a[i + n])
  }

  function Shr(a: Bits, n: nat): Bits {
    seq(|a|, i requires 0 <= i < |a| => i >= n && a[i - n])
  }

  // COMBINE_PARTIAL: the bits of s where m is set, those of d elsewhere
  function Combine(d: Bits, s: Bits, m: Bits): Bits
    requires |d| == |s| == |m|
  {
    Or(And(d, Not(m)), And(s, m))
  }

  lemma CombineBits(d: Bits, s: Bits, m: Bits)
    requires |d| == |s| == |m|
    ensures forall k | 0 <= k < |d| :: Combine(d, s, m)[k] == if m[k] then s[k] else d[k]
  {
  }
}
