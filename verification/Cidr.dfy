/** IPv4 CIDR blocks as ranges of 32-bit numbers (net_utils/net_utils.go, ResolveIPRange). */
module Cidr {
  import opened Bits

  const MAX_U32: nat := 0xFFFF_FFFF

  /** `ResolveIPRange` of an address and a prefix length, both parsed. */
  function ResolveIPRange(srcIp: nat, prefix: nat): (nat, nat)
    requires prefix <= 32
  {
    var mask := 32 - prefix;
    var width := prefix + mask;
    var mask4Or := Pow2(mask) - 1;
    var maxIp := Or(srcIp, mask4Or, width);
    var mask4And := Xor(mask4Or, MAX_U32, width);
    var minIp := And(srcIp, mask4And, width);
    (minIp, maxIp)
  }

  /** Section 3.1 of RFC 4632: the first `prefix` of the 32 bits agree. */
  predicate SharesPrefix(a: nat, b: nat, prefix: nat)
    requires prefix <= 32
  {
    Shr(a, 32 - prefix) == Shr(b, 32 - prefix)
  }

  lemma Ones()
    ensures Pow2(32) - 1 == MAX_U32
  {
    Pow2Byte(0);
    Pow2Byte(8);
    Pow2Byte(16);
    Pow2Byte(24);
  }

  lemma ResolveIs(src: nat, prefix: nat)
    requires prefix <= 32 && src <= MAX_U32
    ensures ResolveIPRange(src, prefix) == (Lo(src, 32 - prefix), Hi(src, 32 - prefix))
  {
    Ones();
    var width := prefix + (32 - prefix);
    OrLowMask(src, 32 - prefix, width);
    AndHighMask(src, 32 - prefix, width);
  }

  /** The range of a CIDR line is exactly the addresses that share its top bits, and never empty. */
  lemma BlockIsPrefixMatch(src: nat, prefix: nat, ip: nat)
    requires prefix <= 32 && src <= MAX_U32
    ensures var (lo, hi) := ResolveIPRange(src, prefix);
            && lo <= src <= hi
            && (lo <= ip <= hi <==> SharesPrefix(src, ip, prefix))
  {
    ResolveIs(src, prefix);
    BlockIsPrefix(src, 32 - prefix, ip);
  }

  /** In numbers: the range starts at the multiple of its size at or below the address. */
  lemma RangeIs(src: nat, prefix: nat)
    requires prefix <= 32 && src <= MAX_U32
    ensures var (lo, hi) := ResolveIPRange(src, prefix); var size := Pow2(32 - prefix);
            lo == src / size * size && hi == lo + size - 1
  {
    ResolveIs(src, prefix);
    BoundsAre(src, 32 - prefix);
    ShrDivides(src, 32 - prefix);
  }

  /** 10.0.0.0/8 and 192.168.1.77/24. */
  lemma KnownRanges()
    ensures ResolveIPRange(0x0A00_0000, 8) == (0x0A00_0000, 0x0AFF_FFFF)
    ensures ResolveIPRange(0xC0A8_014D, 24) == (0xC0A8_0100, 0xC0A8_01FF)
  {
    hide ResolveIPRange;
    RangeIs(0x0A00_0000, 8);
    RangeIs(0xC0A8_014D, 24);
    assert Pow2(8) == 256 && Pow2(16) == 65536 by { Pow2Byte(0); Pow2Byte(8); }
    assert Pow2(24) == 0x100_0000 by { Pow2Byte(16); }
  }

  ghost predicate IsBlock(lo: nat, hi: nat) {
    exists src: nat, prefix: nat :: prefix <= 32 && src <= MAX_U32 && ResolveIPRange(src, prefix) == (lo, hi)
  }

  /** Meeting a block with a prefix at least as long means containing all of it. */
  lemma ContainsWhatItMeets(a: nat, p: nat, b: nat, q: nat, x: nat, y: nat)
    requires p <= q <= 32 && a <= MAX_U32 && b <= MAX_U32
    requires ResolveIPRange(a, p).0 <= x <= ResolveIPRange(a, p).1
    requires ResolveIPRange(b, q).0 <= x <= ResolveIPRange(b, q).1
    requires ResolveIPRange(b, q).0 <= y <= ResolveIPRange(b, q).1
    ensures ResolveIPRange(a, p).0 <= y <= ResolveIPRange(a, p).1
  {
    hide ResolveIPRange;
    BlockIsPrefixMatch(a, p, x);
    BlockIsPrefixMatch(b, q, x);
    BlockIsPrefixMatch(b, q, y);
    ShrMono(y, x, 32 - q, 32 - p);
    BlockIsPrefixMatch(a, p, y);
  }

  /** CIDR blocks are laminar: any two are nested or disjoint. */
  lemma Laminar(lo: nat, hi: nat, lo': nat, hi': nat)
    requires IsBlock(lo, hi) && IsBlock(lo', hi')
    ensures (lo <= lo' && hi' <= hi) || (lo' <= lo && hi <= hi') || hi < lo' || hi' < lo
    ensures lo <= hi && lo' <= hi'
  {
    hide ResolveIPRange;
    var a: nat, p: nat :| p <= 32 && a <= MAX_U32 && ResolveIPRange(a, p) == (lo, hi);
    var b: nat, q: nat :| q <= 32 && b <= MAX_U32 && ResolveIPRange(b, q) == (lo', hi');
    BlockIsPrefixMatch(a, p, lo);
    BlockIsPrefixMatch(b, q, lo');
    if lo <= lo' <= hi || lo' <= lo <= hi' {
      var x := if lo <= lo' then lo' else lo;
      if p <= q {
        ContainsWhatItMeets(a, p, b, q, x, lo');
        ContainsWhatItMeets(a, p, b, q, x, hi');
      } else {
        ContainsWhatItMeets(b, q, a, p, x, lo);
        ContainsWhatItMeets(b, q, a, p, x, hi);
      }
    }
  }
}
