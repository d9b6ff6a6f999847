/** IPv4 networks as `ipaddress` computes with them: addresses are numbers, a network is a base
    address and a prefix length. */
module Ipv4 {
  const ADDRESSES := 4294967296

  datatype Network = Network(base: nat, prefix: nat)

  function Power(n: nat): nat {
    if n == 0 then 1 else 2 * Power(n - 1)
  }

  function Size(prefix: nat): nat {
    if prefix <= 32 then Power(32 - prefix) else 1
  }

  predicate IsNetwork(n: Network) {
    n.prefix <= 32 && IsAligned(n.base, Size(n.prefix)) && n.base + Size(n.prefix) <= ADDRESSES
  }

  /** An address with its host bits dropped. */
  function Floor(address: nat, size: nat): nat
    requires size > 0
  {
    address / size * size
  }

  predicate IsAligned(base: nat, size: nat) {
    size > 0 && Floor(base, size) == base
  }

  predicate Contains(n: Network, address: nat) {
    n.base <= address < n.base + Size(n.prefix)
  }

  /** `IPv4Network.subnet_of`. */
  predicate SubnetOf(a: Network, b: Network) {
    b.base <= a.base && a.base + Size(a.prefix) <= b.base + Size(b.prefix)
  }

  /** The network around an address, host bits dropped (`strict=False`). */
  function Enclosing(address: nat, prefix: nat): Network {
    Network(if Size(prefix) > 0 then Floor(address, Size(prefix)) else 0, prefix)
  }

  lemma {:induction false} PowerPositive(n: nat)
    ensures Power(n) > 0
  {
    if n > 0 {
      PowerPositive(n - 1);
    }
  }

  lemma {:induction false} PowerDivides(m: nat, n: nat) returns (k: nat)
    requires m <= n
    ensures Power(n) == k * Power(m) && k >= 1
    decreases n
  {
    if m == n {
      k := 1;
    } else {
      k := PowerDivides(m, n - 1);
      assert 2 * (k * Power(m)) == (2 * k) * Power(m);
      k := 2 * k;
    }
  }

  lemma SizeIsPositive(prefix: nat)
    ensures Size(prefix) >= 1
  {
    if prefix <= 32 {
      PowerPositive(32 - prefix);
    }
  }

  /** `subnet_of` is inclusion of the addresses. */
  lemma SubnetIsInclusion(a: Network, b: Network)
    ensures SubnetOf(a, b) <==> forall x: nat :: Contains(a, x) ==> Contains(b, x)
  {
    SizeIsPositive(a.prefix);
    if forall x: nat :: Contains(a, x) ==> Contains(b, x) {
      assert Contains(a, a.base) && Contains(a, a.base + Size(a.prefix) - 1);
    }
  }

  lemma {:induction false} Times(a: nat, b: nat, s: nat)
    requires a < b
    ensures a * s + s <= b * s
    decreases b
  {
    assert b * s == (b - 1) * s + s;
    if a < b - 1 {
      Times(a, b - 1, s);
    }
  }

  lemma FloorFacts(x: nat, s: nat)
    requires s >= 1
    ensures Floor(x, s) <= x < Floor(x, s) + s
  {
  }

  lemma FloorIs(x: nat, s: nat, q: nat)
    requires s >= 1 && q == x / s
    ensures Floor(x, s) == q * s
  {
  }

  lemma FloorOfMultiple(q: nat, s: nat)
    requires s >= 1
    ensures Floor(q * s, s) == q * s
  {
    FloorFacts(q * s, s);
    var d := q * s / s;
    if d < q {
      Times(d, q, s);
    } else if q < d {
      Times(q, d, s);
    }
  }

  lemma FloorFits(address: nat, s: nat, k: nat)
    requires s >= 1 && address < k * s
    ensures IsAligned(Floor(address, s), s) && Floor(address, s) + s <= k * s
    ensures Floor(address, s) <= address < Floor(address, s) + s
  {
    var q := address / s;
    FloorFacts(address, s);
    FloorIs(address, s, q);
    FloorOfMultiple(q, s);
    hide Floor;
    AlignedFits(q, k, s, address);
  }

  /** The network around an address is one, and contains the address. */
  lemma EnclosingContains(address: nat, prefix: nat)
    requires address < ADDRESSES && prefix <= 32
    ensures IsNetwork(Enclosing(address, prefix)) && Contains(Enclosing(address, prefix), address)
  {
    SizeIsPositive(prefix);
    var k := PowerDivides(32 - prefix, 32);
    PowerOf32();
    hide Floor, Power, IsAligned;
    FloorFits(address, Size(prefix), k);
  }

  lemma PowerOf32()
    ensures Power(32) == ADDRESSES
  {
    assert Power(8) == 256;
    assert Power(16) == 65536 by { assert Power(12) == 4096; }
    assert Power(24) == 16777216 by { assert Power(20) == 1048576; }
    assert Power(28) == 268435456;
  }

  lemma AlignedFits(q: nat, k: nat, s: nat, address: nat)
    requires q * s <= address < k * s
    ensures q * s + s <= k * s
  {
    if q < k {
      Times(q, k, s);
    } else if k < q {
      Times(k, q, s);
    }
  }

  /** Aligned blocks of `s` inside one aligned block of `k * s`. */
  lemma BlocksNest(p: nat, q: nat, k: nat, s: nat, x: nat)
    requires k >= 1 && s >= 1
    requires p * s <= x < p * s + s && q * (k * s) <= x < q * (k * s) + k * s
    ensures q * (k * s) <= p * s && p * s + s <= q * (k * s) + k * s
  {
    var first, last := q * k, q * k + k;
    assert q * (k * s) == first * s;
    assert (q * k + k) * s == first * s + k * s;
    if p < first {
      Times(p, first, s);
    } else if first < p {
      Times(first, p, s);
    }
    if p < last {
      Times(p, last, s);
    } else if last < p {
      Times(last, p, s);
    }
  }

  lemma AlignedIsMultiple(base: nat, s: nat) returns (q: nat)
    requires IsAligned(base, s)
    ensures base == q * s
  {
    q := base / s;
  }

  /** Two networks that share an address are nested, the longer prefix inside. */
  lemma NetworksNest(a: Network, b: Network, x: nat)
    requires IsNetwork(a) && IsNetwork(b) && a.prefix >= b.prefix
    requires Contains(a, x) && Contains(b, x)
    ensures SubnetOf(a, b) && (a.prefix == b.prefix ==> a == b)
  {
    SizeIsPositive(a.prefix);
    var k := PowerDivides(32 - a.prefix, 32 - b.prefix);
    var p := AlignedIsMultiple(a.base, Size(a.prefix));
    var q := AlignedIsMultiple(b.base, Size(b.prefix));
    BlocksNest(p, q, k, Size(a.prefix), x);
  }
}
