/** CIDR blocks: the mask test of `contains`, as arithmetic. */
module Cidr {
  import opened Arith
  import opened Common

  datatype Address = V4(bits: nat) | V6(bits: nat)
  {
    predicate Fits() { bits < Pow2(Width()) }

    function Width(): nat { if V4? then 32 else 128 }
  }

  datatype Block = Block(network: Address, prefixLen: nat)

  function NewBlock(network: Address, prefixLen: nat): Result<Block, ()> {
    var maxPrefix := if network.V4? then 32 else 128;
    if prefixLen > maxPrefix then Failure(()) else Success(Block(network, prefixLen))
  }

  /** The bits two numbers share, bit by bit. */
  function And(a: nat, b: nat): nat {
    if a == 0 || b == 0 then 0
    else 2 * And(a / 2, b / 2) + if a % 2 == 1 && b % 2 == 1 then 1 else 0
  }

  /** A left shift within `width` bits: what leaves at the top is lost. */
  function ShiftLeft(x: nat, count: nat, width: nat): nat
    requires count < width
  {
    x * Pow2(count) % Pow2(width)
  }

  /** All ones shifted left; a zero prefix is tested first because it would shift by the whole width. */
  function Mask(prefixLen: nat, width: nat): nat
    requires prefixLen <= width
  {
    if prefixLen == 0 then 0 else ShiftLeft(Pow2(width) - 1, width - prefixLen, width)
  }

  predicate Contains(b: Block, ip: Address)
    requires b.prefixLen <= b.network.Width()
  {
    if b.network.V4? != ip.V4? then false
    else
      var mask := Mask(b.prefixLen, ip.Width());
      And(b.network.bits, mask) == And(ip.bits, mask)
  }

  lemma {:induction false} Pow2Adds(a: nat, b: nat)
    ensures Pow2(a + b) == Pow2(a) * Pow2(b)
  {
    if a > 0 {
      Pow2Adds(a - 1, b);
      assert Pow2(a + b) == 2 * Pow2(a - 1 + b);
    }
  }

  lemma OnesShifted(all: nat, low: nat)
    requires 1 <= low <= all
    ensures (all - 1) * low == all * (low - 1) + (all - low)
  {
    assert (all - 1) * low == all * low - low;
    assert all * (low - 1) == all * low - all;
  }

  /** The mask of a prefix is 2^width - 2^(width - prefix), and the shift is less than the width. */
  lemma {:induction false} MaskValue(prefixLen: nat, width: nat)
    requires prefixLen <= width
    ensures Pow2(width) >= Pow2(width - prefixLen)
    ensures Mask(prefixLen, width) == Pow2(width) - Pow2(width - prefixLen)
  {
    var all, low := Pow2(width), Pow2(width - prefixLen);
    Pow2Grows(width - prefixLen, prefixLen);
    if prefixLen > 0 {
      OnesShifted(all, low);
      DivisionUnique((all - 1) * low, all, low - 1, all - low);
    }
  }

  lemma {:induction false} Pow2Grows(n: nat, k: nat)
    ensures Pow2(n + k) >= Pow2(n)
  {
    if k > 0 {
      Pow2Grows(n, k - 1);
      assert Pow2(n + k) == 2 * Pow2(n + k - 1);
    }
  }

  /** The `s` low bits cleared. */
  function Cleared(x: nat, s: nat): nat {
    if s == 0 then x else 2 * Cleared(x / 2, s - 1)
  }

  lemma DoubledProduct(d: nat, q: nat)
    ensures 2 * (d * q) == (2 * d) * q
  {}

  lemma HalfThenDivide(x: nat, d: nat)
    requires d >= 1
    ensures x / (2 * d) == x / 2 / d
  {
    var q, r := x / 2 / d, x / 2 % d;
    assert x / 2 == d * q + r;
    DoubledProduct(d, q);
    assert x == (2 * d) * q + (2 * r + x % 2);
    DivisionUnique(x, 2 * d, q, 2 * r + x % 2);
  }

  /** Masking with 2^width - 2^s clears the s low bits. */
  lemma {:induction false} AndMask(x: nat, s: nat, width: nat)
    requires s <= width && x < Pow2(width)
    ensures Pow2(width) >= Pow2(s) && And(x, Pow2(width) - Pow2(s)) == Cleared(x, s)
  {
    if s == 0 {
      AndOnes(x, width);
    } else {
      AndMask(x / 2, s - 1, width - 1);
    }
  }

  lemma {:induction false} AndOnes(x: nat, width: nat)
    requires x < Pow2(width)
    ensures And(x, Pow2(width) - 1) == x
  {
    if width > 0 {
      AndOnes(x / 2, width - 1);
      var ones := Pow2(width) - 1;
      assert ones / 2 == Pow2(width - 1) - 1 && ones % 2 == 1;
      assert And(x, ones) == if x == 0 then 0 else 2 * And(x / 2, ones / 2) + x % 2;
    }
  }

  /** The address has the family of the block's network and agrees with it on the leading bits. */
  predicate SharesPrefix(b: Block, ip: Address)
    requires b.prefixLen <= b.network.Width()
  {
    b.network.V4? == ip.V4? &&
    b.network.bits / Pow2(ip.Width() - b.prefixLen) == ip.bits / Pow2(ip.Width() - b.prefixLen)
  }

  /** `contains` is exactly this. */
  lemma ContainsIff(b: Block, ip: Address)
    requires b.prefixLen <= b.network.Width() && b.network.Fits() && ip.Fits()
    ensures Contains(b, ip) <==> SharesPrefix(b, ip)
  {
    if b.network.V4? == ip.V4? {
      Masked(b.network.bits, b.prefixLen, ip.Width());
      Masked(ip.bits, b.prefixLen, ip.Width());
      SameClearedIff(b.network.bits, ip.bits, ip.Width() - b.prefixLen);
      var mask := Mask(b.prefixLen, ip.Width());
      assert Contains(b, ip) == (And(b.network.bits, mask) == And(ip.bits, mask));
    }
  }

  lemma {:induction false} Masked(x: nat, prefixLen: nat, width: nat)
    requires prefixLen <= width && x < Pow2(width)
    ensures And(x, Mask(prefixLen, width)) == Cleared(x, width - prefixLen)
  {
    MaskValue(prefixLen, width);
    AndMask(x, width - prefixLen, width);
  }

  lemma {:induction false} SameClearedIff(x: nat, y: nat, s: nat)
    ensures Cleared(x, s) == Cleared(y, s) <==> x / Pow2(s) == y / Pow2(s)
  {
    if s > 0 {
      SameClearedIff(x / 2, y / 2, s - 1);
      HalfThenDivide(x, Pow2(s - 1));
      HalfThenDivide(y, Pow2(s - 1));
    }
  }

  /** A block can be built exactly for a prefix up to the width; its shift is then in range, and `contains`
      compares the leading bits. */
  lemma BuiltBlockContains(network: Address, prefixLen: nat, ip: Address)
    requires network.Fits() && ip.Fits()
    ensures var built := NewBlock(network, prefixLen);
            && (built.Success? <==> prefixLen <= network.Width())
            && (built.Success? && prefixLen > 0 ==> network.Width() - prefixLen < network.Width())
            && (built.Success? ==> (Contains(built.value, ip) <==> SharesPrefix(Block(network, prefixLen), ip)))
  {
    if prefixLen <= network.Width() {
      ContainsIff(Block(network, prefixLen), ip);
    }
  }

  lemma {:induction false} CoarserQuotient(x: nat, y: nat, fine: nat, extra: nat)
    requires x / Pow2(fine) == y / Pow2(fine)
    ensures x / Pow2(fine + extra) == y / Pow2(fine + extra)
  {
    if extra > 0 {
      CoarserQuotient(x, y, fine, extra - 1);
      var d := Pow2(fine + extra - 1);
      assert Pow2(fine + extra) == 2 * d;
      DivideThenHalf(x, d);
      DivideThenHalf(y, d);
    }
  }

  lemma DivideThenHalf(x: nat, d: nat)
    requires d >= 1
    ensures x / (2 * d) == x / d / 2
  {
    var q, r := x / d, x % d;
    var h, odd := q / 2, q % 2;
    assert x == d * q + r;
    SplitProduct(d, h, odd);
    assert d * odd + r < 2 * d by { assert odd == 0 || odd == 1; }
    DivisionUnique(x, 2 * d, h, d * odd + r);
  }

  lemma SplitProduct(d: nat, h: nat, odd: nat)
    ensures d * (2 * h + odd) == (2 * d) * h + d * odd
  {
    assert d * (2 * h + odd) == d * (2 * h) + d * odd;
    assert d * (2 * h) == (2 * d) * h;
  }

  /** Every address of `inner` is one of `outer`. */
  ghost predicate Within(inner: Block, outer: Block)
    requires inner.prefixLen <= inner.network.Width() && outer.prefixLen <= outer.network.Width()
  {
    forall ip: Address | ip.Fits() && Contains(inner, ip) :: Contains(outer, ip)
  }

  ghost predicate Disjoint(a: Block, b: Block)
    requires a.prefixLen <= a.network.Width() && b.prefixLen <= b.network.Width()
  {
    forall ip: Address | ip.Fits() && Contains(a, ip) :: !Contains(b, ip)
  }

  /** Two blocks of one family are nested or disjoint (section 3.1 of RFC 4632, section 2.3 of RFC 4291):
      sharing one address, the one with the longer prefix lies within the other. */
  lemma NestedOrDisjoint(a: Block, b: Block)
    requires a.network.V4? == b.network.V4? && a.network.Fits() && b.network.Fits()
    requires a.prefixLen <= a.network.Width() && b.prefixLen <= b.network.Width()
    ensures Disjoint(a, b) || if a.prefixLen <= b.prefixLen then Within(b, a) else Within(a, b)
  {
    if ip: Address :| ip.Fits() && Contains(a, ip) && Contains(b, ip) {
      var outer, inner := if a.prefixLen <= b.prefixLen then a else b, if a.prefixLen <= b.prefixLen then b else a;
      forall other: Address | other.Fits() && Contains(inner, other) ensures Contains(outer, other) {
        CommonMember(outer, inner, ip, other);
      }
    }
  }

  lemma CommonMember(a: Block, b: Block, ip: Address, other: Address)
    requires a.network.V4? == b.network.V4? && a.network.Fits() && b.network.Fits() && ip.Fits() && other.Fits()
    requires a.prefixLen <= b.prefixLen <= b.network.Width()
    requires Contains(a, ip) && Contains(b, ip) && Contains(b, other)
    ensures Contains(a, other)
  {
    ContainsIff(a, ip);
    ContainsIff(b, ip);
    ContainsIff(b, other);
    ContainsIff(a, other);
    PrefixesNest(a, b, ip, other);
  }

  lemma PrefixesNest(a: Block, b: Block, ip: Address, other: Address)
    requires a.prefixLen <= b.prefixLen <= b.network.Width() && a.network.V4? == b.network.V4?
    requires SharesPrefix(a, ip) && SharesPrefix(b, ip) && SharesPrefix(b, other)
    ensures SharesPrefix(a, other)
  {
    CoarserQuotient(ip.bits, other.bits, ip.Width() - b.prefixLen, b.prefixLen - a.prefixLen);
  }
}
