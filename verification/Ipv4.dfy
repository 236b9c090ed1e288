/**
 IPv4 addresses and CIDR blocks (section 3.1 of RFC 4632), as far as the firewall and
 the DHCP compiler use them: containment, usable hosts, and the fact that two blocks are
 nested or disjoint.
 */
module Ipv4 {
  const ADDRESS_SPACE := 0x1_0000_0000

  type Address = a: int | 0 <= a < ADDRESS_SPACE
  type PrefixLength = p: int | 0 <= p <= 32

  /** An address together with a prefix length, host bits kept ("192.168.1.1/24"). */
  datatype Cidr = Cidr(ip: Address, prefix: PrefixLength)

  function Pow2(n: nat): (r: nat)
    ensures r > 0
  {
    if n == 0 then 1 else 2 * Pow2(n - 1)
  }

  /** The number of addresses of a block. */
  function BlockSize(prefix: PrefixLength): (r: nat)
    ensures r > 0
  {
    Pow2(32 - prefix)
  }

  /** Which of the aligned blocks of its size an address lies in. */
  function BlockIndex(a: Address, prefix: PrefixLength): int {
    a / BlockSize(prefix)
  }

  function NetworkAddress(c: Cidr): (r: Address) {
    DivisionBounds(c.ip, BlockSize(c.prefix));
    BlockIndex(c.ip, c.prefix) * BlockSize(c.prefix)
  }

  /** The address lies in the block: masking it gives the block's network address. */
  predicate Contains(c: Cidr, a: Address) {
    BlockIndex(a, c.prefix) == BlockIndex(c.ip, c.prefix)
  }

  lemma DivisionBounds(a: nat, n: nat)
    requires n > 0
    ensures 0 <= a / n * n <= a < a / n * n + n
  {
  }

  lemma NonNegativeProduct(a: nat, n: nat)
    ensures a * n >= 0
  {
  }

  lemma MultipleHasNoRest(q: nat, n: nat)
    requires n > 0
    ensures (q * n) % n == 0
  {
    QuotientUnique(q * n, n, q);
  }

  lemma MultiplesApart(d: int, q: int, n: nat)
    ensures d < q ==> d * n + n <= q * n
  {
    if d < q {
      NonNegativeProduct(q - d - 1, n);
      assert (q - d - 1) * n == q * n - (d + 1) * n;
      assert (d + 1) * n == d * n + n;
    }
  }

  lemma QuotientUnique(a: nat, n: nat, q: int)
    requires n > 0
    ensures a / n == q <==> q * n <= a < q * n + n
  {
    DivisionBounds(a, n);
    MultiplesApart(a / n, q, n);
    MultiplesApart(q, a / n, n);
  }

  lemma {:induction false} Pow2Sum(a: nat, b: nat)
    ensures Pow2(a + b) == Pow2(a) * Pow2(b)
  {
    if a > 0 {
      Pow2Sum(a - 1, b);
      assert Pow2(a + b) == 2 * Pow2(a + b - 1);
      assert 2 * (Pow2(a - 1) * Pow2(b)) == (2 * Pow2(a - 1)) * Pow2(b);
    }
  }

  /** A block is exactly the interval of BlockSize addresses from its network address. */
  lemma ContainsIsInterval(c: Cidr, a: Address)
    ensures Contains(c, a) <==> NetworkAddress(c) <= a < NetworkAddress(c) + BlockSize(c.prefix)
  {
    QuotientUnique(a, BlockSize(c.prefix), BlockIndex(c.ip, c.prefix));
  }

  /** The last address of a block is still a 32-bit address. */
  lemma BlockFits(c: Cidr)
    ensures NetworkAddress(c) + BlockSize(c.prefix) <= ADDRESS_SPACE
  {
    Pow2Sum(c.prefix, 32 - c.prefix);
    PowersOfTwo();
    DivisionBounds(c.ip, BlockSize(c.prefix));
    AlignedBlockFits(Pow2(c.prefix), BlockSize(c.prefix), BlockIndex(c.ip, c.prefix));
  }

  lemma AlignedBlockFits(k: nat, n: nat, q: nat)
    requires q * n < k * n
    ensures q * n + n <= k * n
  {
    MultiplesApart(q, k, n);
    MultiplesApart(k, q, n);
  }

  lemma PowersOfTwo()
    ensures Pow2(1) == 2 && Pow2(2) == 4 && Pow2(3) == 8 && Pow2(7) == 128
    ensures Pow2(8) == 256 && Pow2(16) == 0x1_0000 && Pow2(32) == ADDRESS_SPACE
  {
    assert Pow2(4) == 16;
    Pow2Sum(4, 4);
    Pow2Sum(8, 8);
    Pow2Sum(16, 16);
  }

  lemma Pow2Monotone(a: nat, b: nat)
    requires a <= b
    ensures Pow2(a) <= Pow2(b)
  {
    Pow2Sum(b - a, a);
    assert Pow2(b) >= 1 * Pow2(a);
  }

  /** A block of a longer prefix sits inside one block of the shorter prefix. */
  lemma CoarserIndex(a: Address, short: PrefixLength, long: PrefixLength)
    requires short <= long
    ensures BlockIndex(a, short) == BlockIndex(a, long) / Pow2(long - short)
  {
    var t, k := BlockSize(long), Pow2(long - short);
    Pow2Sum(long - short, 32 - long);
    QuotientOfQuotient(a, t, k);
  }

  lemma QuotientOfQuotient(a: nat, t: nat, k: nat)
    requires t > 0 && k > 0
    ensures k * t > 0 && a / (k * t) == a / t / k
  {
    var q := a / t;
    var r := q / k;
    DivisionBounds(a, t);
    DivisionBounds(q, k);
    ScaledBounds(a, t, k, q, r);
    QuotientUnique(a, k * t, r);
  }

  lemma ScaledBounds(a: nat, t: nat, k: nat, q: nat, r: nat)
    requires t > 0 && k > 0
    requires q * t <= a < q * t + t && r * k <= q < r * k + k
    ensures k * t > 0 && r * (k * t) <= a < r * (k * t) + k * t
  {
    MultiplesApart(0, k, t);
    MultiplesApart(r * k - 1, q, t);
    MultiplesApart(q, r * k + k, t);
    assert (r * k + k) * t == r * k * t + k * t;
    assert (r * k - 1) * t == r * k * t - t;
    assert r * k * t == r * (k * t);
  }

  predicate Within(inner: Cidr, outer: Cidr) {
    outer.prefix <= inner.prefix && Contains(outer, inner.ip)
  }

  predicate Overlap(c: Cidr, d: Cidr) {
    Within(c, d) || Within(d, c)
  }

  lemma SharedAddressMeansOverlap(c: Cidr, d: Cidr, a: Address)
    requires Contains(c, a) && Contains(d, a)
    ensures Overlap(c, d)
  {
    var outer, inner := if c.prefix <= d.prefix then c else d, if c.prefix <= d.prefix then d else c;
    CoarserIndex(a, outer.prefix, inner.prefix);
    CoarserIndex(inner.ip, outer.prefix, inner.prefix);
  }

  /** Two CIDR blocks share an address exactly when one of them contains the other. */
  lemma NestedOrDisjoint(c: Cidr, d: Cidr)
    ensures Overlap(c, d) <==> exists a: Address :: Contains(c, a) && Contains(d, a)
  {
    if Within(c, d) {
      assert Contains(c, c.ip) && Contains(d, c.ip);
    } else if Within(d, c) {
      assert Contains(c, d.ip) && Contains(d, d.ip);
    }
    forall a: Address | Contains(c, a) && Contains(d, a)
      ensures Overlap(c, d)
    {
      SharedAddressMeansOverlap(c, d, a);
    }
  }

  /** The last octet of an address replaced: base.rsplit(".", 1)[0] + ".d". */
  function WithLastOctet(a: Address, octet: nat): (r: Address)
    requires octet < 256
    ensures r / 256 == a / 256 && r % 256 == octet
  {
    a / 256 * 256 + octet
  }

  type Octet = b: int | 0 <= b < 256

  function Octets(a: Octet, b: Octet, c: Octet, d: Octet): Address {
    ((a * 256 + b) * 256 + c) * 256 + d
  }

  /** A single address as a block. */
  function Host(a: Octet, b: Octet, c: Octet, d: Octet): Cidr {
    Cidr(Octets(a, b, c, d), 32)
  }
}
