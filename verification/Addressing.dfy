// IPv4 addresses and prefixes as numbers; text forms are not modelled.
module Addressing {

  type Addr = a: int | 0 <= a < 0x1_0000_0000

  type Bits = n: int | 0 <= n <= 32

  datatype Prefix = Prefix(addr: Addr, bits: Bits)

  function ShiftRight(a: nat, k: nat): nat
  {
    if k == 0 then a else ShiftRight(a / 2, k - 1)
  }

  function ShiftLeft(a: nat, k: nat): nat
  {
    if k == 0 then a else 2 * ShiftLeft(a, k - 1)
  }

  lemma {:induction false} ShiftBack(a: nat, k: nat)
    ensures ShiftRight(ShiftLeft(a, k), k) == a
    ensures ShiftLeft(ShiftRight(a, k), k) <= a
  {
    if k > 0 {
      ShiftBack(a, k - 1);
      ShiftBack(a / 2, k - 1);
    }
  }

  // The leading bits of two addresses agree.
  predicate Contains(p: Prefix, a: Addr)
  {
    ShiftRight(p.addr, 32 - p.bits) == ShiftRight(a, 32 - p.bits)
  }

  // The network of a prefix: its host bits cleared.
  function Masked(p: Prefix): (r: Prefix)
    ensures r.bits == p.bits
  {
    var host := 32 - p.bits;
    ShiftBack(p.addr, host);
    Prefix(ShiftLeft(ShiftRight(p.addr, host), host), p.bits)
  }

  lemma MaskedContains(p: Prefix, a: Addr)
    ensures Contains(Masked(p), a) <==> Contains(p, a)
  {
    ShiftBack(ShiftRight(p.addr, 32 - p.bits), 32 - p.bits);
  }

  lemma FullPrefix(p: Prefix, a: Addr)
    ensures p.bits == 32 ==> (Contains(p, a) <==> a == p.addr)
  {
  }

  function Pow2(n: nat): nat
  {
    if n == 0 then 1 else 2 * Pow2(n - 1)
  }

  lemma {:induction false} ShiftOut(a: nat, k: nat)
    requires a < Pow2(k)
    ensures ShiftRight(a, k) == 0 && ShiftLeft(0, k) == 0
  {
    if k > 0 {
      ShiftOut(a / 2, k - 1);
    }
  }

  lemma EmptyPrefix(p: Prefix, a: Addr)
    requires p.bits == 0
    ensures Contains(p, a) && Masked(p) == Prefix(0, 0)
  {
    assert Pow2(8) == 0x100 && Pow2(16) == 0x1_0000 by {
      assert Pow2(4) == 16 && Pow2(8) == 16 * Pow2(4) && Pow2(12) == 16 * Pow2(8) && Pow2(16) == 16 * Pow2(12);
    }
    assert Pow2(20) == 16 * Pow2(16) && Pow2(24) == 16 * Pow2(20) && Pow2(28) == 16 * Pow2(24) && Pow2(32) == 16 * Pow2(28);
    ShiftOut(a, 32);
    ShiftOut(p.addr, 32);
  }

  // 169.254.0.0/16.
  predicate IsLinkLocal(a: Addr)
  {
    a / 0x1_0000 == 0xA9FE
  }

  lemma LinkLocalIsBlock(a: Addr)
    ensures IsLinkLocal(a) <==> 0xA9FE_0000 <= a <= 0xA9FE_FFFF
  {
  }

  // ----- prefixes as intervals -----

  lemma {:induction false} ShiftRightIsQuotient(a: nat, k: nat, q: nat)
    ensures ShiftRight(a, k) == q <==> q * Pow2(k) <= a < q * Pow2(k) + Pow2(k)
  {
    if k > 0 {
      ShiftRightIsQuotient(a / 2, k - 1, q);
      var m := q * Pow2(k - 1);
      assert q * Pow2(k) == 2 * m;
    }
  }

  lemma {:induction false} ShiftLeftIsProduct(q: nat, k: nat)
    ensures ShiftLeft(q, k) == q * Pow2(k)
  {
    if k > 0 {
      ShiftLeftIsProduct(q, k - 1);
      assert q * Pow2(k) == 2 * (q * Pow2(k - 1));
    }
  }

  // A prefix holds the 2^(32 - bits) addresses from its network address on, and
  // that address is a multiple of their number.
  lemma ContainsIsInterval(p: Prefix, a: Addr) returns (q: nat)
    ensures Contains(p, a) <==> Masked(p).addr <= a < Masked(p).addr + Pow2(32 - p.bits)
    ensures Masked(p).addr <= p.addr < Masked(p).addr + Pow2(32 - p.bits)
    ensures Masked(p).addr == q * Pow2(32 - p.bits)
  {
    var k := 32 - p.bits;
    q := ShiftRight(p.addr, k);
    ShiftRightIsQuotient(a, k, q);
    ShiftRightIsQuotient(p.addr, k, q);
    ShiftLeftIsProduct(q, k);
  }
}
