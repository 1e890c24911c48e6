/** Prefix arithmetic on parsed addresses: the checks Bootstrap, the UI and
    netd share, and the placement of a LAN in a delegated IPv6 prefix. Masking
    an address to a prefix is rounding it down to a multiple of the block of
    addresses the prefix covers. */
module Addressing {
  import opened Common
  import opened Desired

  function Pow2(n: nat): nat {
    if n == 0 then 1 else 2 * Pow2(n - 1)
  }

  lemma {:induction false} Pow2Splits(m: nat, n: nat)
    ensures Pow2(m + n) == Pow2(m) * Pow2(n) && Pow2(m) > 0 && Pow2(n) > 0
  {
    if m > 0 {
      Pow2Splits(m - 1, n);
    } else {
      Pow2Positive(n);
    }
  }

  lemma {:induction false} Pow2Positive(n: nat)
    ensures Pow2(n) > 0
  {
    if n > 0 { Pow2Positive(n - 1); }
  }

  /** How many addresses a prefix of `len` bits covers. */
  function Block4(len: nat): nat
    requires len <= 32
    ensures Block4(len) > 0
  {
    Pow2Positive(32 - len);
    Pow2(32 - len)
  }

  function Block6(len: nat): nat
    requires len <= 128
    ensures Block6(len) > 0
  {
    Pow2Positive(128 - len);
    Pow2(128 - len)
  }

  function RoundDown(x: nat, block: nat): (r: nat)
    requires block > 0
    ensures r <= x
  {
    x - x % block
  }

  predicate WellFormed(c: Cidr) {
    match c.ip
    case V4(_) => c.len <= 32
    case V6(_) => c.len <= 128
  }

  predicate Contains4(network: Word32, len: nat, address: Word32)
    requires len <= 32
  {
    RoundDown(address, Block4(len)) == RoundDown(network, Block4(len))
  }

  predicate Contains6(network: Word128, len: nat, address: Word128)
    requires len <= 128
  {
    RoundDown(address, Block6(len)) == RoundDown(network, Block6(len))
  }

  const SUBNET_64: nat := 0x1_0000_0000_0000_0000

  datatype DelegatedLan = DelegatedLan(router: Word128, subnet: Word128, poolStart: Word128, poolEnd: Word128)

  /** The LAN takes the first /64 of a delegated IPv6 prefix. */
  function DelegateLan(prefix: Cidr): Option<DelegatedLan> {
    if !WellFormed(prefix) || prefix.ip.V4? || prefix.len > 64 then None
    else
      var subnet := RoundDown(RoundDown(prefix.ip.v6, Block6(prefix.len)), SUBNET_64);
      Some(DelegatedLan(subnet + 1, subnet, subnet + 0x100, subnet + 0x1ff))
  }

  datatype AddressingError = InvalidLanPrefix | PoolStartExceedsEnd | PoolOutsidePrefix | InvalidWanPd

  predicate UsableLanPrefix(lanPrefix: Option<Cidr>) {
    lanPrefix.Some? ==> lanPrefix.value.ip.V4? && 1 <= lanPrefix.value.len <= 30
  }

  function Addressing(lanPrefix: Option<Cidr>, dhcpPool: Option<Pool>, wanPd: Option<Cidr>)
    : Result<(), AddressingError>
  {
    if !UsableLanPrefix(lanPrefix) then Err(InvalidLanPrefix)
    else if dhcpPool.Some? && dhcpPool.value.first > dhcpPool.value.last then Err(PoolStartExceedsEnd)
    else if dhcpPool.Some? && !EndsInside(lanPrefix, dhcpPool.value) then Err(PoolOutsidePrefix)
    else if wanPd.Some? && DelegateLan(wanPd.value).None? then Err(InvalidWanPd)
    else Ok(())
  }

  /** The prefix a pool must lie in: the LAN's, or the /24 its start implies. */
  function PoolPrefix(lanPrefix: Option<Cidr>, pool: Pool): (prefix: (Word32, nat))
    requires UsableLanPrefix(lanPrefix)
    ensures prefix.1 <= 32
  {
    if lanPrefix.Some? then (lanPrefix.value.ip.v4, lanPrefix.value.len) else (pool.first, 24)
  }

  predicate EndsInside(lanPrefix: Option<Cidr>, pool: Pool)
    requires UsableLanPrefix(lanPrefix)
  {
    var (network, len) := PoolPrefix(lanPrefix, pool);
    Contains4(network, len, pool.first) && Contains4(network, len, pool.last)
  }

  lemma DivisionIsMonotone(x: nat, y: nat, block: nat)
    requires x <= y && block > 0
    ensures x / block <= y / block
  {
    ProductsApart(block, y / block, x / block);
  }

  lemma ProductsApart(block: nat, p: nat, q: nat)
    ensures p < q ==> block * p + block <= block * q
  {
    if p < q { ProductIsMonotone(block, p + 1, q); }
  }

  lemma ProductIsMonotone(block: nat, p: nat, q: nat)
    requires p <= q
    ensures block * p <= block * q
  {
  }

  lemma RoundDownIsMultiple(x: nat, block: nat)
    requires block > 0
    ensures RoundDown(x, block) == block * (x / block)
  {
  }

  lemma RangeInside(network: Word32, len: nat, first: Word32, last: Word32, x: Word32)
    requires len <= 32 && first <= x <= last
    requires Contains4(network, len, first) && Contains4(network, len, last)
    ensures Contains4(network, len, x)
  {
    var block := Block4(len);
    SameRoundDown(first, last, block);
    DivisionIsMonotone(first, x, block);
    DivisionIsMonotone(x, last, block);
    RoundDownIsMultiple(x, block);
    RoundDownIsMultiple(first, block);
  }

  lemma SameRoundDown(x: nat, y: nat, block: nat)
    requires block > 0 && RoundDown(x, block) == RoundDown(y, block)
    ensures x / block == y / block
  {
    RoundDownIsMultiple(x, block);
    RoundDownIsMultiple(y, block);
    ProductsApart(block, x / block, y / block);
    ProductsApart(block, y / block, x / block);
  }

  /** Checking a pool's two ends is checking every address it hands out. */
  lemma AddressingMeaning(lanPrefix: Option<Cidr>, dhcpPool: Option<Pool>, wanPd: Option<Cidr>)
    ensures Addressing(lanPrefix, dhcpPool, wanPd).Ok? <==>
      && UsableLanPrefix(lanPrefix)
      && (dhcpPool.Some? ==>
            && dhcpPool.value.first <= dhcpPool.value.last
            && var (network, len) := PoolPrefix(lanPrefix, dhcpPool.value);
              forall x: Word32 :: dhcpPool.value.first <= x <= dhcpPool.value.last ==> Contains4(network, len, x))
      && (wanPd.Some? ==> DelegateLan(wanPd.value).Some?)
  {
    hide Contains4, DelegateLan;
    if dhcpPool.Some? && UsableLanPrefix(lanPrefix) {
      var pool := dhcpPool.value;
      var (network, len) := PoolPrefix(lanPrefix, pool);
      if pool.first <= pool.last && EndsInside(lanPrefix, pool) {
        forall x: Word32 | pool.first <= x <= pool.last
          ensures Contains4(network, len, x)
        {
          RangeInside(network, len, pool.first, pool.last, x);
        }
      }
    }
  }

  lemma MultipleInside(a: nat, block: nat, x: nat)
    requires block > 0 && RoundDown(a, block) <= x < RoundDown(a, block) + block
    ensures RoundDown(x, block) == RoundDown(a, block)
  {
    RoundDownIsMultiple(a, block);
    RoundDownIsMultiple(x, block);
    ProductsApart(block, x / block, a / block);
    ProductsApart(block, a / block, x / block);
  }

  lemma SubnetIsMultiple(a: Word128, len: nat)
    requires len <= 64
    ensures RoundDown(a, Block6(len)) % SUBNET_64 == 0 && Block6(len) >= SUBNET_64
  {
    hide Pow2;
    var block, k := Block6(len), Pow2(64 - len);
    Pow2Splits(64 - len, 64);
    Pow2Of64();
    RoundDownIsMultiple(a, block);
    ProductIsMonotone(SUBNET_64, 1, k);
    Regroup(k, SUBNET_64, a / block);
    MultipleHasNoRemainder(k * (a / block));
  }

  lemma Regroup(k: nat, s: nat, t: nat)
    ensures (k * s) * t == s * (k * t)
  {
  }

  lemma MultipleHasNoRemainder(k: nat)
    ensures (SUBNET_64 * k) % SUBNET_64 == 0
  {
  }

  lemma Pow2Of64()
    ensures Pow2(64) == SUBNET_64
  {
    Pow2Splits(8, 8);
    Pow2Splits(16, 16);
    Pow2Splits(32, 32);
    assert Pow2(8) == 256 by {
      assert Pow2(4) == 16;
      Pow2Splits(4, 4);
    }
  }

  lemma SubnetInside(prefix: Cidr, x: Word128)
    requires DelegateLan(prefix).Some? && Contains6(DelegateLan(prefix).value.subnet, 64, x)
    ensures Contains6(prefix.ip.v6, prefix.len, x)
  {
    hide Pow2;
    var subnet := DelegateLan(prefix).value.subnet;
    SubnetIsMultiple(prefix.ip.v6, prefix.len);
    Pow2Of64();
    assert Block6(64) == SUBNET_64;
    RoundDownIsMultiple(x, SUBNET_64);
    MultipleInside(prefix.ip.v6, Block6(prefix.len), x);
  }

  /** Where the delegated LAN sits: host bits of the delegation do not matter,
      no address of the delegation comes before it, the whole /64 is inside the
      delegation, and the subnet delegates itself. */
  lemma DelegatedLanPlacement(prefix: Cidr, other: Cidr)
    requires DelegateLan(prefix).Some?
    requires other.ip.V6? && other.len == prefix.len && Contains6(prefix.ip.v6, prefix.len, other.ip.v6)
    ensures DelegateLan(other) == DelegateLan(prefix)
    ensures var lan := DelegateLan(prefix).value;
      && lan.subnet % SUBNET_64 == 0
      && lan.subnet <= other.ip.v6
      && (forall x: Word128 :: Contains6(lan.subnet, 64, x) ==> Contains6(prefix.ip.v6, prefix.len, x))
      && DelegateLan(Cidr(V6(lan.subnet), 64)) == Some(lan)
  {
    forall x: Word128 | Contains6(DelegateLan(prefix).value.subnet, 64, x)
      ensures Contains6(prefix.ip.v6, prefix.len, x)
    {
      SubnetInside(prefix, x);
    }
    hide Pow2;
    SubnetIsMultiple(prefix.ip.v6, prefix.len);
    Pow2Of64();
    assert Block6(64) == SUBNET_64;
  }

  /** Every address from the router's to the pool's last is inside both the
      /64 and the delegation, and the pool excludes the router: ::1 is the
      router's, ::100 to ::1ff are the pool's. */
  lemma DelegatedPoolPlacement(prefix: Cidr, x: Word128)
    requires DelegateLan(prefix).Some?
    requires var lan := DelegateLan(prefix).value;
      lan.router == x || lan.subnet == x || lan.poolStart <= x <= lan.poolEnd
    ensures var lan := DelegateLan(prefix).value;
      && Contains6(lan.subnet, 64, x) && Contains6(prefix.ip.v6, prefix.len, x)
      && lan.poolStart <= lan.poolEnd && !(lan.poolStart <= lan.router <= lan.poolEnd)
      && lan.router == lan.subnet + 1 && lan.poolStart == lan.subnet + 256 && lan.poolEnd == lan.subnet + 511
  {
    hide Pow2;
    var block := Block6(prefix.len);
    SubnetIsMultiple(prefix.ip.v6, prefix.len);
    Pow2Of64();
    assert Block6(64) == SUBNET_64;
    MultipleInside(prefix.ip.v6, block, x);
    MultipleInside(DelegateLan(prefix).value.subnet, SUBNET_64, x);
  }

  // ----- the LAN's own prefix -------------------------------------------------

  /** `first_v4_host`: the address itself, or .1 of a network address. */
  function FirstHost(prefix: Cidr): Option<Word32> {
    if prefix.ip.V6? then None
    else if prefix.ip.v4 % 256 == 0 then Some(prefix.ip.v4 + 1)
    else Some(prefix.ip.v4)
  }

  function PrefixFromPool(pool: Pool): Cidr {
    Cidr(V4(RoundDown(pool.first, 256)), 24)
  }

  /** `ipv4_prefix`: the network an interface address lies in. */
  function Network4(c: Cidr): Option<(Word32, nat)> {
    if c.ip.V6? || c.len > 32 then None else Some((RoundDown(c.ip.v4, Block4(c.len)), c.len))
  }

  predicate IsLan(i: Iface) {
    i.role == Lan
  }

  function FirstLan(interfaces: seq<Iface>): Option<Iface> {
    if interfaces == [] then None
    else if IsLan(interfaces[0]) then Some(interfaces[0])
    else FirstLan(interfaces[1..])
  }

  function LanPrefix(state: DesiredState): Option<Cidr> {
    if state.lanPrefix.Some? then state.lanPrefix
    else if state.dhcpPool.Some? then Some(PrefixFromPool(state.dhcpPool.value))
    else None
  }

  /** The router's own address on the LAN. */
  function LanHost(state: DesiredState): Option<Cidr> {
    var prefix := LanPrefix(state);
    if prefix.None? then None
    else
      var host := FirstHost(prefix.value);
      if host.None? then None else Some(Cidr(V4(host.value), prefix.value.len))
  }
}
