/**
 * The Internet checksum of RFC 1071, as the ICMPv4 sender needs it (the
 * checksum field of the RFC 792 header). The repository's `checksum`
 * (src/icmp/icmp4.rs) is not part of this model; this is the algorithm of
 * RFC 1071 section 4.1: sum the big-endian 16-bit words (an odd trailing
 * byte padded with zero), fold the carries back in, complement.
 */
module Checksum {
  import opened Wire

  const WordMax := 0xFFFF

  /** Sum of the big-endian 16-bit words of `s`, without folding. */
  function WordSum(s: seq<byte>): nat
    decreases |s|
  {
    if |s| == 0 then 0
    else if |s| == 1 then BeU16(s[0], 0)
    else BeU16(s[0], s[1]) + WordSum(s[2..])
  }

  /**
   * End-around carry: `while x > 0xFFFF { x = (x & 0xFFFF) + (x >> 16) }`.
   * The result is the one's-complement sum: congruent to x modulo 0xFFFF
   * and zero only for x == 0.
   */
  function Fold(x: nat): (r: nat)
    ensures r <= WordMax
    ensures r % WordMax == x % WordMax
    ensures r == 0 <==> x == 0
    decreases x
  {
    if x <= WordMax then x
    else
      var lo, hi := x % 0x10000, x / 0x10000;
      CarryShrinks(x);
      Fold(lo + hi)
  }

  lemma CarryShrinks(x: nat)
    requires x > WordMax
    ensures 0 < x % 0x10000 + x / 0x10000 < x
    ensures (x % 0x10000 + x / 0x10000) % WordMax == x % WordMax
  {
    var lo, hi := x % 0x10000, x / 0x10000;
    assert x == hi * 0x10000 + lo;
    assert hi >= 1;
    assert x == hi * WordMax + (hi + lo);
    ModShift(hi + lo, hi);
  }

  lemma ModShift(y: nat, k: nat)
    ensures (k * WordMax + y) % WordMax == y % WordMax
  {
  }

  /** `checksum`: the complement of the one's-complement word sum. */
  function Checksum(s: seq<byte>): (c: nat)
    ensures c < 0x10000
    ensures c == 0 <==> WordSum(s) > 0 && WordSum(s) % WordMax == 0
  {
    var f := Fold(WordSum(s));
    assert f == WordMax <==> (f > 0 && f % WordMax == 0);
    WordMax - f
  }

  /** Writing `v` big-endian into the zeroed bytes 2 and 3 adds exactly `v` to the word sum. */
  lemma WordSumPatched(s: seq<byte>, v: nat)
    requires |s| >= 4 && s[2] == 0 && s[3] == 0 && v < 0x10000
    ensures WordSum(s[2 := v / 0x100][3 := v % 0x100]) == WordSum(s) + v
  {
    var p := s[2 := v / 0x100][3 := v % 0x100];
    assert p[2..][2..] == s[2..][2..];
    assert WordSum(p) == BeU16(s[0], s[1]) + (BeU16(p[2], p[3]) + WordSum(p[2..][2..]));
  }

  /**
   * The receiver's check of RFC 1071: once the checksum of a message whose
   * checksum field was zero is written into that field, the checksum of the
   * whole message is zero.
   */
  lemma {:induction false} PatchedVerifies(s: seq<byte>)
    requires |s| >= 4 && s[2] == 0 && s[3] == 0
    ensures Checksum(s[2 := Checksum(s) / 0x100][3 := Checksum(s) % 0x100]) == 0
  {
    var c := Checksum(s);
    var p := s[2 := c / 0x100][3 := c % 0x100];
    var total := WordSum(s);
    var f := Fold(total);
    WordSumPatched(s, c);
    assert WordSum(p) == total + (WordMax - f);
    ComplementCancels(total, f);
  }

  /** Adding the complement of a one's-complement sum to the sum it folds gives a non-zero multiple of 0xFFFF. */
  lemma ComplementCancels(total: nat, f: nat)
    requires f <= WordMax && f % WordMax == total % WordMax
    requires f == 0 <==> total == 0
    ensures total + (WordMax - f) > 0
    ensures (total + (WordMax - f)) % WordMax == 0
  {
    var q := total / WordMax;
    assert total == q * WordMax + total % WordMax;
    var k := if f == WordMax then q else q + 1;
    assert total + (WordMax - f) == k * WordMax + 0;
    ModShift(0, k);
  }
}
