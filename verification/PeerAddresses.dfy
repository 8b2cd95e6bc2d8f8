/**
 IPv4 peer addresses: the mask formulas of the interface client and of the
 connection model, and the search for a free address.  Addresses are 32-bit
 numbers; the bit operators are defined bit by bit.
 */
module PeerAddresses {
  import opened Collections
  import opened Base32

  const ADDRESSES: nat := 0x1_0000_0000
  const RESERVED_PREFIX: nat := 50

  type Addr = a: int | 0 <= a < 0x1_0000_0000

  datatype Network = Network(base: Addr, cidr: nat)

  // ---- 32-bit operators ----

  function And(x: nat, y: nat): nat
  {
    if x == 0 || y == 0 then 0
    else 2 * And(x / 2, y / 2) + if x % 2 == 1 && y % 2 == 1 then 1 else 0
  }

  function Or(x: nat, y: nat): nat
    decreases x + y
  {
    if x == 0 then y else if y == 0 then x
    else 2 * Or(x / 2, y / 2) + if x % 2 == 1 || y % 2 == 1 then 1 else 0
  }

  function Not(x: Addr): Addr { ADDRESSES - 1 - x }

  /** Shift left by one bit at a time, dropping what leaves 32 bits. */
  function Shl(x: Addr, k: nat): Addr
  {
    if k == 0 then x else Shl(x, k - 1) * 2 % ADDRESSES
  }

  function Shr(x: nat, k: nat): nat
  {
    if k == 0 then x else Shr(x / 2, k - 1)
  }

  // ---- Blocks of 2^k numbers ----

  /** Clear the lowest k bits: the first number of x's block. */
  function Floor(x: nat, k: nat): nat
  {
    if k == 0 then x else 2 * Floor(x / 2, k - 1)
  }

  lemma {:induction false} FloorBlock(x: nat, k: nat)
    ensures Floor(x, k) <= x < Floor(x, k) + Pow2(k)
  {
    if k > 0 {
      FloorBlock(x / 2, k - 1);
    }
  }

  /** The numbers of one block, and no others, have the same floor. */
  lemma {:induction false} SameBlock(x: nat, y: nat, k: nat)
    ensures Floor(x, k) == Floor(y, k) <==> Floor(x, k) <= y < Floor(x, k) + Pow2(k)
  {
    if k > 0 {
      SameBlock(x / 2, y / 2, k - 1);
    }
  }

  /** Blocks do not straddle a larger power of two. */
  lemma {:induction false} BlockBelow(x: nat, k: nat, w: nat)
    requires k <= w && x < Pow2(w)
    ensures Floor(x, k) + Pow2(k) <= Pow2(w)
  {
    if k > 0 {
      BlockBelow(x / 2, k - 1, w - 1);
    }
  }

  // ---- Masks ----

  lemma {:induction false} AndOnes(x: nat, w: nat)
    requires x < Pow2(w)
    ensures And(x, Pow2(w) - 1) == x
  {
    if w > 0 && x > 0 {
      assert (Pow2(w) - 1) / 2 == Pow2(w - 1) - 1 && (Pow2(w) - 1) % 2 == 1;
      AndOnes(x / 2, w - 1);
    }
  }

  /** Masking with the high bits gives the first number of the block. */
  lemma {:induction false} AndMask(x: nat, k: nat, w: nat)
    requires k <= w && x < Pow2(w)
    ensures Pow2(k) <= Pow2(w) && And(x, Pow2(w) - Pow2(k)) == Floor(x, k)
  {
    if k == 0 {
      AndOnes(x, w);
    } else {
      var mask, half := Pow2(w) - Pow2(k), Pow2(w - 1) - Pow2(k - 1);
      AndMask(x / 2, k - 1, w - 1);
      assert mask == 2 * half && mask / 2 == half && mask % 2 == 0;
      if x == 0 || mask == 0 {
        assert And(x / 2, half) == 0;
      }
    }
  }

  /** Setting the low bits gives the last number of the block. */
  lemma {:induction false} OrLow(x: nat, k: nat)
    ensures Or(x, Pow2(k) - 1) == Floor(x, k) + Pow2(k) - 1
  {
    if k > 0 {
      var low := Pow2(k) - 1;
      assert low / 2 == Pow2(k - 1) - 1 && low % 2 == 1;
      OrLow(x / 2, k - 1);
    }
  }

  lemma Pow2Of32()
    ensures Pow2(32) == ADDRESSES
  {
    Pow2Values();
    assert Pow2(16) == 65536 by {
      assert Pow2(12) == 4096 by { assert Pow2(10) == 1024 && Pow2(11) == 2048; }
      assert Pow2(14) == 16384;
    }
    assert Pow2(24) == 0x100_0000 by {
      assert Pow2(20) == 0x10_0000 by { assert Pow2(18) == 0x4_0000; }
      assert Pow2(22) == 0x40_0000;
    }
    assert Pow2(28) == 0x1000_0000 by { assert Pow2(26) == 0x400_0000; }
    assert Pow2(30) == 0x4000_0000;
  }

  lemma {:induction false} Pow2Increases(a: nat, b: nat)
    requires a <= b
    ensures Pow2(a) <= Pow2(b)
  {
    if a < b {
      Pow2Increases(a, b - 1);
    }
  }

  lemma {:induction false} ShlOne(k: nat)
    requires k <= 31
    ensures Shl(1, k) == Pow2(k) && 2 * Pow2(k) <= ADDRESSES
  {
    Pow2Of32();
    Pow2Increases(k + 1, 32);
    if k > 0 {
      ShlOne(k - 1);
    }
  }

  lemma {:induction false} ShlOnes(k: nat)
    requires k <= 31
    ensures Shl(ADDRESSES - 1, k) == ADDRESSES - Pow2(k)
  {
    if k > 0 {
      ShlOnes(k - 1);
      ShlOne(k);
      assert (ADDRESSES - Pow2(k - 1)) * 2 == ADDRESSES + (ADDRESSES - Pow2(k));
    }
  }

  /** The interface client's mask: complement of the host bits. */
  function ClientMask(cidr: nat): Addr
    requires 1 <= cidr <= 32
  {
    ShlOne(32 - cidr);
    Not(Shl(1, 32 - cidr) - 1)
  }

  /** The connection model's mask: all ones, shifted. */
  function ModelMask(cidr: nat): Addr
    requires cidr <= 32
  {
    if cidr == 0 then 0 else Shl(ADDRESSES - 1, 32 - cidr)
  }

  lemma ModelMaskValue(cidr: nat)
    requires cidr <= 32
    ensures Pow2(32 - cidr) <= ADDRESSES && ModelMask(cidr) == ADDRESSES - Pow2(32 - cidr)
  {
    Pow2Of32();
    Pow2Increases(32 - cidr, 32);
    if cidr > 0 {
      ShlOnes(32 - cidr);
    }
  }

  /** The two mask formulas agree and keep the top `cidr` bits. */
  lemma MasksAgree(cidr: nat)
    requires 1 <= cidr <= 32
    ensures ClientMask(cidr) == ModelMask(cidr) == ADDRESSES - Pow2(32 - cidr)
  {
    ShlOne(32 - cidr);
    ModelMaskValue(cidr);
  }

  // ---- Networks ----

  function Contains(n: Network, ip: Addr): bool
    requires n.cidr <= 32
  {
    And(n.base, ModelMask(n.cidr)) == And(ip, ModelMask(n.cidr))
  }

  function HostBits(cidr: nat): nat
    requires cidr <= 32
  {
    if cidr == 32 then 0 else Shr(ADDRESSES - 1, cidr)
  }

  /** The connection model's broadcast address. */
  function ModelBroadcast(n: Network): nat
    requires n.cidr <= 32
  {
    Or(n.base, HostBits(n.cidr))
  }

  /** The first address of the network, by the connection model's mask. */
  function FirstAddr(n: Network): nat
    requires n.cidr <= 32
  {
    And(n.base, ModelMask(n.cidr))
  }

  /** The interface client's network and broadcast addresses. */
  function NetworkAddr(n: Network): nat
    requires 1 <= n.cidr <= 32
  {
    And(n.base, ClientMask(n.cidr))
  }

  function ClientBroadcast(n: Network): nat
    requires 1 <= n.cidr <= 32
  {
    Or(NetworkAddr(n), Not(ClientMask(n.cidr)))
  }

  lemma {:induction false} ShrOnes(w: nat, c: nat)
    requires c <= w
    ensures Shr(Pow2(w) - 1, c) == Pow2(w - c) - 1
  {
    if c > 0 {
      assert (Pow2(w) - 1) / 2 == Pow2(w - 1) - 1;
      ShrOnes(w - 1, c - 1);
    }
  }

  /** The connection model's network, the whole address space included: its
      addresses are the block from its first to its broadcast address. */
  lemma ModelNetworkIsBlock(n: Network, ip: Addr)
    requires n.cidr <= 32
    ensures FirstAddr(n) == Floor(n.base, 32 - n.cidr) <= n.base
    ensures n.base <= ModelBroadcast(n) == FirstAddr(n) + Pow2(32 - n.cidr) - 1 < ADDRESSES
    ensures Contains(n, ip) <==> FirstAddr(n) <= ip <= ModelBroadcast(n)
  {
    var k := 32 - n.cidr;
    Pow2Of32();
    ModelMaskValue(n.cidr);
    AndMask(n.base, k, 32);
    AndMask(ip, k, 32);
    FloorBlock(n.base, k);
    BlockBelow(n.base, k, 32);
    SameBlock(n.base, ip, k);
    ModelBroadcastIsLast(n);
  }

  lemma ModelBroadcastIsLast(n: Network)
    requires n.cidr <= 32
    ensures ModelBroadcast(n) == Floor(n.base, 32 - n.cidr) + Pow2(32 - n.cidr) - 1
  {
    Pow2Of32();
    ShrOnes(32, n.cidr);
    OrLow(n.base, 32 - n.cidr);
  }

  /** Both files mean the same network. */
  lemma NetworkIsBlock(n: Network, ip: Addr)
    requires 1 <= n.cidr <= 32
    ensures NetworkAddr(n) == FirstAddr(n) == Floor(n.base, 32 - n.cidr)
    ensures ClientBroadcast(n) == ModelBroadcast(n) == NetworkAddr(n) + Pow2(32 - n.cidr) - 1 < ADDRESSES
    ensures Contains(n, ip) <==> NetworkAddr(n) <= ip <= ClientBroadcast(n)
  {
    MasksAgree(n.cidr);
    ModelNetworkIsBlock(n, ip);
    ClientBroadcastIsLast(n);
  }

  lemma ClientBroadcastIsLast(n: Network)
    requires 1 <= n.cidr <= 32
    ensures ClientBroadcast(n) == NetworkAddr(n) + Pow2(32 - n.cidr) - 1
  {
    var k := 32 - n.cidr;
    MasksAgree(n.cidr);
    ModelNetworkIsBlock(n, n.base);
    OrLow(NetworkAddr(n), k);
    SameBlock(n.base, NetworkAddr(n), k);
  }

  // ---- The next free address ----

  /** The ends of the search, network plus one and broadcast minus one, as
      32-bit numbers that wrap around. */
  function SearchFrom(n: Network): Addr
    requires 1 <= n.cidr <= 32
  {
    (NetworkAddr(n) + 1) % ADDRESSES
  }

  function SearchTo(n: Network): Addr
    requires 1 <= n.cidr <= 32
  {
    (ClientBroadcast(n) - 1) % ADDRESSES
  }

  predicate Searched(n: Network, ip: int)
    requires 1 <= n.cidr <= 32
  {
    SearchFrom(n) <= ip < SearchTo(n)
  }

  /** An address the client can hand out: one it searches that is neither used
      nor the interface's own. */
  predicate Free(n: Network, used: set<Addr>, own: Addr, ip: int)
    requires 1 <= n.cidr <= 32
  {
    Searched(n, ip) && ip !in used + {own}
  }

  /** The lone addresses at the two ends of the address space. */
  predicate AtTheEdge(n: Network)
  {
    n.cidr == 32 && (n.base == 0 || n.base == ADDRESSES - 1)
  }

  lemma SearchEnds(n: Network)
    requires 1 <= n.cidr <= 32
    ensures if AtTheEdge(n) then SearchFrom(n) <= 1 < SearchTo(n) && NetworkAddr(n) == ClientBroadcast(n)
            else SearchFrom(n) == NetworkAddr(n) + 1 && SearchTo(n) == ClientBroadcast(n) - 1
  {
    NetworkIsBlock(n, n.base);
    BlockSize(n.cidr);
    WrapOnce(NetworkAddr(n), ClientBroadcast(n));
  }

  lemma BlockSize(cidr: nat)
    requires 1 <= cidr <= 32
    ensures if cidr == 32 then Pow2(32 - cidr) == 1 else Pow2(32 - cidr) >= 2
  {
    if cidr < 32 {
      Pow2Increases(1, 32 - cidr);
    }
  }

  lemma WrapOnce(first: int, last: int)
    requires 0 <= first <= last < ADDRESSES
    ensures (first + 1) % ADDRESSES == if first == ADDRESSES - 1 then 0 else first + 1
    ensures (last - 1) % ADDRESSES == if last == 0 then ADDRESSES - 1 else last - 1
  {
  }

  /** The search goes over the addresses strictly between the network address
      and the last but one, exactly if the network is not a lone address at an
      end of the address space. */
  lemma SearchIsInside(n: Network)
    requires 1 <= n.cidr <= 32
    ensures (forall ip :: Searched(n, ip) <==> NetworkAddr(n) < ip < ClientBroadcast(n) - 1) <==> !AtTheEdge(n)
  {
    SearchEnds(n);
    assert AtTheEdge(n) ==> Searched(n, 1);
  }

  lemma SearchedIsContained(n: Network, ip: Addr)
    requires 1 <= n.cidr <= 32 && !AtTheEdge(n) && Searched(n, ip)
    ensures Contains(n, ip)
  {
    SearchEnds(n);
    NetworkIsBlock(n, ip);
  }

  /** Search upwards from the network address. */
  method NextAvailable(n: Network, used: set<Addr>, own: Addr) returns (r: Option<Addr>)
    requires 1 <= n.cidr <= 32
    ensures r.Some? ==> Free(n, used, own, r.value) && forall ip :: Free(n, used, own, ip) ==> r.value <= ip
    ensures r.None? ==> forall ip :: !Free(n, used, own, ip)
    ensures r.Some? && !AtTheEdge(n) ==> Contains(n, r.value)
  {
    var from: int, to: int, taken := SearchFrom(n), SearchTo(n), used + {own};
    var ip: int := from;
    while ip < to
      invariant from <= ip
      invariant forall x :: from <= x < ip && x < to ==> x in taken
    {
      if ip !in taken {
        if !AtTheEdge(n) {
          SearchedIsContained(n, ip);
        }
        return Some(ip);
      }
      ip := ip + 1;
    }
    r := None;
  }

  // ---- The first address for a user ----

  function FirstPeer(n: Network): Option<Addr>
    requires n.cidr <= 32
  {
    if n.base + 2 < ADDRESSES && Contains(n, n.base + 2) then Some(n.base + 2) else None
  }

  function FirstAllocatable(n: Network): Option<Addr>
    requires n.cidr <= 32
  {
    var start := n.base + RESERVED_PREFIX + 1;
    if start >= ADDRESSES then None
    else if Contains(n, start) then Some(start)
    else FirstPeer(n)
  }

  lemma FirstAllocatableCases(n: Network)
    requires n.cidr <= 32
    ensures FirstAddr(n) <= n.base <= ModelBroadcast(n) < ADDRESSES
    ensures FirstAllocatable(n) ==
            if n.base + RESERVED_PREFIX + 1 >= ADDRESSES then None
            else if n.base + RESERVED_PREFIX + 1 <= ModelBroadcast(n) then Some(n.base + RESERVED_PREFIX + 1)
            else if n.base + 2 <= ModelBroadcast(n) then Some(n.base + 2)
            else None
  {
    var start := n.base + RESERVED_PREFIX + 1;
    ModelNetworkIsBlock(n, n.base);
    if start < ADDRESSES {
      ModelNetworkIsBlock(n, start);
      ModelNetworkIsBlock(n, n.base + 2);
    }
  }

  /** Only addresses inside the network are offered, and none exactly when the
      network ends too early or the address space does.  The promise that the
      first 50 addresses of the network are never offered holds if and only if
      the network reaches past the reserve, or the configured address already
      lies beyond it. */
  lemma FirstAllocatableMeaning(n: Network)
    requires n.cidr <= 32
    ensures var r := FirstAllocatable(n);
            && (r.Some? ==> FirstAddr(n) <= r.value <= ModelBroadcast(n))
            && (r.None? <==> n.base + 1 >= ModelBroadcast(n) || n.base + RESERVED_PREFIX + 1 >= ADDRESSES)
            && (r.Some? ==>
                  (r.value > FirstAddr(n) + RESERVED_PREFIX <==>
                   n.base + RESERVED_PREFIX < ModelBroadcast(n) || n.base + 2 > FirstAddr(n) + RESERVED_PREFIX))
  {
    FirstAllocatableCases(n);
  }

  /** In 10.0.0.0/27 the offered address, 10.0.0.2, is a reserved one. */
  lemma SmallNetworkOffersReserved()
    ensures FirstAllocatable(Network(0x0A00_0000, 27)) == Some(0x0A00_0002)
  {
    var n := Network(0x0A00_0000, 27);
    Pow2Values();
    ModelNetworkIsBlock(n, n.base);
    assert Floor(n.base, 5) == n.base;
    ModelNetworkIsBlock(n, n.base + 2);
    ModelNetworkIsBlock(n, n.base + 51);
  }
}
