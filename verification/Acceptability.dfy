/** What the validator accepts, said of the Desired state itself and of none of
    the checks it is made of. */
module Acceptability {
  import opened Common
  import opened Desired
  import opened Addressing
  import opened Validation
  import Base64

  // ----- addresses and names ------------------------------------------------------

  function Quotient(ip: nat, block: nat): nat
    requires block > 0
  {
    ip / block
  }

  /** The leading bits that `len` leaves of an IPv4 address. */
  function Leading4(ip: Word32, len: nat): nat
    requires len <= 32
  {
    Pow2Positive(32 - len);
    var block: nat := Pow2(32 - len);
    Quotient(ip, block)
  }

  function Leading6(ip: Word128, len: nat): nat
    requires len <= 128
  {
    Pow2Positive(128 - len);
    var block: nat := Pow2(128 - len);
    Quotient(ip, block)
  }

  predicate SoundAddress(c: Cidr) {
    match c.ip
    case V4(_) => c.len <= 32
    case V6(_) => c.len <= 128
  }

  /** `ip` is another address of the network `c` is in. */
  predicate OnLink(ip: Ip, c: Cidr) {
    && ip != c.ip && SoundAddress(c)
    && ((ip.V4? && c.ip.V4? && Leading4(ip.v4, c.len) == Leading4(c.ip.v4, c.len))
        || (ip.V6? && c.ip.V6? && Leading6(ip.v6, c.len) == Leading6(c.ip.v6, c.len)))
  }

  lemma Contains4Meaning(network: Word32, len: nat, ip: Word32)
    requires len <= 32
    ensures Contains4(network, len, ip) <==> Leading4(ip, len) == Leading4(network, len)
  {
    hide Pow2;
    RoundDownIsMultiple(ip, Block4(len));
    RoundDownIsMultiple(network, Block4(len));
    if Contains4(network, len, ip) { SameRoundDown(ip, network, Block4(len)); }
  }

  lemma Contains6Meaning(network: Word128, len: nat, ip: Word128)
    requires len <= 128
    ensures Contains6(network, len, ip) <==> Leading6(ip, len) == Leading6(network, len)
  {
    hide Pow2;
    RoundDownIsMultiple(ip, Block6(len));
    RoundDownIsMultiple(network, Block6(len));
    if Contains6(network, len, ip) { SameRoundDown(ip, network, Block6(len)); }
  }

  lemma OnLinkMeaning(ip: Ip, c: Cidr)
    ensures GatewayInCidr(ip, c) <==> OnLink(ip, c)
  {
    hide Contains4, Contains6, Leading4, Leading6;
    if SoundAddress(c) {
      match (ip, c.ip) {
        case (V4(g), V4(a)) => Contains4Meaning(a, c.len, g);
        case (V6(g), V6(a)) => Contains6Meaning(a, c.len, g);
        case _ =>
      }
    }
  }

  /** A name the kernel takes for a link. */
  predicate LinkName(name: string) {
    && 1 <= |name| <= 15
    && forall c :: c in name ==>
         'a' <= c <= 'z' || 'A' <= c <= 'Z' || '0' <= c <= '9' || c in {'_', '-', '.'}
  }

  /** A link can be made: a tag needs something to be a tag of, named by the
      parent or by the dot in the link's own name. */
  predicate SoundLink(name: string, parent: Option<string>, vlan: Option<nat>, addresses: seq<Cidr>) {
    && LinkName(name)
    && (parent.Some? ==> LinkName(parent.value) && parent.value != name && vlan.Some?)
    && (vlan.Some? ==> 1 <= vlan.value <= 4094 && (parent.Some? || '.' in name))
    && forall i :: 0 <= i < |addresses| ==> SoundAddress(addresses[i])
  }

  lemma LinkMeaning(name: string, parent: Option<string>, vlan: Option<nat>, addresses: seq<Cidr>)
    ensures CheckInterface(name, parent, vlan, addresses).None? <==> SoundLink(name, parent, vlan, addresses)
  {
    NameMeaning(name);
    if parent.Some? { NameMeaning(parent.value); }
    hide InterfaceName, LinkName;
    assert forall c :: WellFormed(c) == SoundAddress(c);
  }

  lemma NameMeaning(name: string)
    ensures InterfaceName(name) <==> LinkName(name)
  {
    if InterfaceName(name) {
      forall c | c in name
        ensures NameChar(c)
      {
        var i :| 0 <= i < |name| && name[i] == c;
      }
    }
    if LinkName(name) {
      forall i | 0 <= i < |name|
        ensures NameChar(name[i])
      {
        assert name[i] in name;
      }
    }
  }

  /** The first interface of this name is the `k`th. */
  predicate FirstCalled(interfaces: seq<Iface>, name: string, k: nat) {
    k < |interfaces| && interfaces[k].name == name && forall j :: 0 <= j < k ==> interfaces[j].name != name
  }

  lemma {:induction false} FindIfaceMeaning(interfaces: seq<Iface>, name: string)
    ensures FindIface(interfaces, name).None? <==> forall k :: 0 <= k < |interfaces| ==> interfaces[k].name != name
    ensures forall k: nat :: FirstCalled(interfaces, name, k) ==> FindIface(interfaces, name) == Some(interfaces[k])
    ensures FindIface(interfaces, name).Some? ==> exists k: nat :: FirstCalled(interfaces, name, k)
  {
    if interfaces != [] {
      var rest := interfaces[1..];
      FindIfaceMeaning(rest, name);
      assert forall k :: 0 < k < |interfaces| ==> interfaces[k] == rest[k - 1];
      if interfaces[0].name == name {
        assert FirstCalled(interfaces, name, 0);
      } else {
        forall k: nat | FirstCalled(interfaces, name, k)
          ensures FindIface(interfaces, name) == Some(interfaces[k])
        {
          assert FirstCalled(rest, name, k - 1);
        }
        if k: nat :| FirstCalled(rest, name, k) {
          assert FirstCalled(interfaces, name, k + 1);
        }
      }
    }
  }

  predicate FirstLanAt(interfaces: seq<Iface>, k: nat) {
    k < |interfaces| && interfaces[k].role == Lan && forall j :: 0 <= j < k ==> interfaces[j].role != Lan
  }

  lemma {:induction false} FirstLanMeaning(interfaces: seq<Iface>)
    ensures FirstLan(interfaces).None? <==> forall k :: 0 <= k < |interfaces| ==> interfaces[k].role != Lan
    ensures forall k: nat :: FirstLanAt(interfaces, k) ==> FirstLan(interfaces) == Some(interfaces[k])
    ensures FirstLan(interfaces).Some? ==> exists k: nat :: FirstLanAt(interfaces, k)
  {
    if interfaces != [] {
      var rest := interfaces[1..];
      FirstLanMeaning(rest);
      assert forall k :: 0 < k < |interfaces| ==> interfaces[k] == rest[k - 1];
      if interfaces[0].role == Lan {
        assert FirstLanAt(interfaces, 0);
      } else {
        forall k: nat | FirstLanAt(interfaces, k)
          ensures FirstLan(interfaces) == Some(interfaces[k])
        {
          assert FirstLanAt(rest, k - 1);
        }
        if k: nat :| FirstLanAt(rest, k) {
          assert FirstLanAt(interfaces, k + 1);
        }
      }
    }
  }

  // ----- LAN addressing -----------------------------------------------------------

  /** Where a pool's addresses may be: in the LAN prefix, or in the /24 that the
      pool begins in. */
  predicate InPool(state: DesiredState, x: Word32)
    requires state.dhcpPool.Some? && (state.lanPrefix.Some? ==>
        state.lanPrefix.value.ip.V4? && state.lanPrefix.value.len <= 32)
  {
    if state.lanPrefix.Some?
    then Leading4(x, state.lanPrefix.value.len) == Leading4(state.lanPrefix.value.ip.v4, state.lanPrefix.value.len)
    else x / 256 == state.dhcpPool.value.first / 256
  }

  /** The prefix leaves hosts, every address of the pool is where it may be, and
      a delegated prefix holds a whole /64. */
  ghost predicate AddressingSound(state: DesiredState) {
    && (state.lanPrefix.Some? ==> state.lanPrefix.value.ip.V4? && 1 <= state.lanPrefix.value.len <= 30)
    && (state.dhcpPool.Some? ==>
          var pool := state.dhcpPool.value;
          && pool.first <= pool.last
          && forall x: Word32 :: pool.first <= x <= pool.last ==> InPool(state, x))
    && (state.wanPd.Some? ==> state.wanPd.value.ip.V6? && state.wanPd.value.len <= 64)
  }

  lemma AddressingAccepted(state: DesiredState)
    ensures CheckAddressing(state).None? <==> AddressingSound(state)
  {
    hide Contains4, Leading4, RoundDown;
    AddressingMeaning(state.lanPrefix, state.dhcpPool, state.wanPd);
    if state.dhcpPool.Some? && UsableLanPrefix(state.lanPrefix) {
      var pool := state.dhcpPool.value;
      var (network, len) := PoolPrefix(state.lanPrefix, pool);
      if forall x: Word32 :: pool.first <= x <= pool.last ==> Contains4(network, len, x) {
        forall x: Word32 | pool.first <= x <= pool.last
          ensures InPool(state, x)
        {
          PoolMeaning(state, x);
        }
      }
      if forall x: Word32 :: pool.first <= x <= pool.last ==> InPool(state, x) {
        forall x: Word32 | pool.first <= x <= pool.last
          ensures Contains4(network, len, x)
        {
          PoolMeaning(state, x);
        }
      }
    }
  }

  lemma PoolMeaning(state: DesiredState, x: Word32)
    requires state.dhcpPool.Some? && UsableLanPrefix(state.lanPrefix)
    ensures var (network, len) := PoolPrefix(state.lanPrefix, state.dhcpPool.value);
      Contains4(network, len, x) <==> InPool(state, x)
  {
    var (network, len) := PoolPrefix(state.lanPrefix, state.dhcpPool.value);
    hide Contains4, Leading4;
    Contains4Meaning(network, len, x);
    LeadingOf24(x);
    LeadingOf24(state.dhcpPool.value.first);
  }

  lemma LeadingOf24(ip: Word32)
    ensures Leading4(ip, 24) == ip / 256
  {
    Pow2Of8();
  }

  lemma Pow2Of8()
    ensures Pow2(8) == 256
  {
    assert Pow2(4) == 16;
    Pow2Splits(4, 4);
  }

  /** What the LAN services serve: the LAN prefix, or the /24 the pool is in. */
  function ServedPrefix(state: DesiredState): Option<Cidr> {
    if state.lanPrefix.Some? then state.lanPrefix
    else if state.dhcpPool.Some? then Some(Cidr(V4(state.dhcpPool.value.first), 24))
    else None
  }

  predicate SameNetwork4(a: Cidr, b: Cidr) {
    a.ip.V4? && b.ip.V4? && a.len == b.len && a.len <= 32 && Leading4(a.ip.v4, a.len) == Leading4(b.ip.v4, b.len)
  }

  /** The first LAN, if it has IPv4 addresses, has one in the network served. */
  ghost predicate ServicesOnLan(state: DesiredState) {
    forall k: nat :: FirstLanAt(state.interfaces, k) ==>
      var addresses := state.interfaces[k].addresses;
      (exists i :: 0 <= i < |addresses| && addresses[i].ip.V4? && addresses[i].len <= 32)
        && ServedPrefix(state).Some? ==>
        exists i :: 0 <= i < |addresses| && SameNetwork4(addresses[i], ServedPrefix(state).value)
  }

  lemma SameNetworkMeaning(a: Cidr, b: Cidr)
    ensures SameNetwork4(a, b) <==> Network4(a).Some? && Network4(a) == Network4(b)
  {
    if a.ip.V4? && b.ip.V4? && a.len == b.len && a.len <= 32 {
      Contains4Meaning(b.ip.v4, b.len, a.ip.v4);
    }
    hide Leading4, RoundDown, Block4;
  }

  lemma NetworkListed(addresses: seq<Cidr>, served: Cidr)
    ensures Network4(served).Some? && Network4(served).value in Networks(addresses) <==>
            exists i :: 0 <= i < |addresses| && SameNetwork4(addresses[i], served)
    ensures Networks(addresses) != {} <==>
        exists i :: 0 <= i < |addresses| && addresses[i].ip.V4? && addresses[i].len <= 32
  {
    forall i | 0 <= i < |addresses|
      ensures SameNetwork4(addresses[i], served) <==>
                Network4(addresses[i]).Some? && Network4(addresses[i]) == Network4(served)
    {
      SameNetworkMeaning(addresses[i], served);
    }
    hide SameNetwork4, RoundDown, Block4;
    if i :| 0 <= i < |addresses| && addresses[i].ip.V4? && addresses[i].len <= 32 {
      assert Network4(addresses[i]).value in Networks(addresses);
    }
    if n :| n in Networks(addresses) {
      var i :| 0 <= i < |addresses| && Network4(addresses[i]) == Some(n);
    }
  }

  lemma PoolNetwork(pool: Pool)
    ensures Network4(PrefixFromPool(pool)) == Network4(Cidr(V4(pool.first), 24))
  {
    Pow2Of8();
    hide Pow2;
    RoundDownTo(pool.first, 256);
  }

  lemma RoundDownTo(x: nat, block: nat)
    requires block > 0
    ensures RoundDown(RoundDown(x, block), block) == RoundDown(x, block)
  {
    RoundDownIsMultiple(x, block);
    MultipleInside(x, block, RoundDown(x, block));
  }

  lemma ServicesAccepted(state: DesiredState)
    ensures CheckLanServices(state).None? <==> ServicesOnLan(state)
  {
    FirstLanMeaning(state.interfaces);
    if k: nat :| FirstLanAt(state.interfaces, k) {
      var addresses := state.interfaces[k].addresses;
      assert FirstLan(state.interfaces) == Some(state.interfaces[k]);
      if state.dhcpPool.Some? { PoolNetwork(state.dhcpPool.value); }
      if ServedPrefix(state).Some? { NetworkListed(addresses, ServedPrefix(state).value); }
      NetworkListed(addresses, Cidr(V4(0), 0));
      forall j: nat | FirstLanAt(state.interfaces, j)
        ensures j == k
      {
        assert !(j < k) && !(k < j);
      }
    }
    hide Networks, Network4, SameNetwork4, PrefixFromPool, FirstLan;
  }

  // ----- IPv6 and policy ------------------------------------------------------------

  /** IPv6 is acquired, and a prefix requested, on WANs alone. */
  predicate Ipv6Sound(i: Iface) {
    && (i.ipv6.Some? ==> i.role == Wan && (i.ipv6.value == Slaac || i.ipv6.value == Dhcpv6))
    && (i.requestPd ==> i.role == Wan)
  }

  lemma Ipv6Accepted(i: Iface)
    ensures CheckIpv6Iface(i).None? <==> Ipv6Sound(i)
  {
  }

  /** A line has a word besides its verdict; the interface it is found to name
      is one, and an accept names a LAN or a Management NIC. */
  ghost predicate RuleSound(interfaces: seq<Iface>, rule: PolicyRule) {
    && rule.wordCount >= 2
    && (rule.verdict == Accept ==> rule.found.Some?)
    && (rule.found.Some? ==> exists k: nat ::
          && FirstCalled(interfaces, rule.found.value, k)
          && (rule.verdict == Accept ==> interfaces[k].role == Lan || interfaces[k].role == Mgmt))
  }

  lemma RuleAccepted(interfaces: seq<Iface>, rule: PolicyRule)
    ensures CheckPolicyRule(interfaces, rule).None? <==> RuleSound(interfaces, rule)
  {
    if rule.found.Some? {
      FindIfaceMeaning(interfaces, rule.found.value);
      if k: nat :| FirstCalled(interfaces, rule.found.value, k) {
        assert FindIface(interfaces, rule.found.value) == Some(interfaces[k]);
      }
    }
  }

  // ----- tunnels, queues, routes ----------------------------------------------------

  ghost predicate TunnelSound(wg: Wg) {
    && LinkName(wg.name) && wg.listenPort != Some(0)
    && (forall i :: 0 <= i < |wg.addresses| ==> SoundAddress(wg.addresses[i]))
    && exists bytes: seq<Base64.Byte> :: |bytes| == 32 && Base64.Text(bytes) == wg.privateKey
  }

  lemma TunnelAccepted(wg: Wg)
    ensures TunnelUsable(wg) <==> TunnelSound(wg)
  {
    hide PrivateKey, Base64.Text, LinkName, SoundAddress, CheckInterface;
    LinkMeaning(wg.name, None, None, wg.addresses);
    Base64.KeyMeaning(wg.privateKey);
  }

  /** A device of the state: an interface's or a tunnel's name. */
  predicate Device(state: DesiredState, dev: string) {
    (exists i :: i in state.interfaces && i.name == dev) || (exists t :: t in state.wireguard && t.name == dev)
  }

  lemma DeviceMeaning(state: DesiredState, dev: string)
    ensures KnownDevice(state, dev) <==> Device(state, dev)
  {
    if i :| i in state.interfaces && i.name == dev {
      var k :| 0 <= k < |state.interfaces| && state.interfaces[k] == i;
    }
    if t :| t in state.wireguard && t.name == dev {
      var k :| 0 <= k < |state.wireguard| && state.wireguard[k] == t;
    }
  }

  predicate QueueSound(state: DesiredState, q: Qdisc) {
    Device(state, q.dev) && q.kind in {FqCodel, Fq, Pfifo, Bfifo, Sfq, Cake}
  }

  lemma QueueAccepted(state: DesiredState, q: Qdisc)
    ensures CheckQdisc(state, q).None? <==> QueueSound(state, q)
  {
    hide KnownDevice, Device;
    DeviceMeaning(state, q.dev);
  }

  /** An address a packet can be sent on to: unicast, and not the unspecified
      one. 224.0.0.0/4 and ff00::/8 are multicast. */
  predicate UsableHop(ip: Ip) {
    match ip
    case V4(a) => a != 0 && a / 0x1000_0000 != 0xE
    case V6(a) => a != 0 && a / 0x100_0000_0000_0000_0000_0000_0000_0000 != 0xFF
  }

  lemma HopMeaning(ip: Ip)
    ensures Unspecified(ip) || Multicast(ip) <==> !UsableHop(ip)
  {
  }

  /** fe80::/10. */
  predicate OfOneLink(ip: Ip) {
    ip.V6? && ip.v6 / 0x40_0000_0000_0000_0000_0000_0000_0000 == 0x3FA
  }

  lemma LinkLocalMeaning(ip: Ip)
    ensures LinkLocal6(ip) <==> OfOneLink(ip)
  {
  }

  /** No bits beyond the prefix. */
  predicate NoHostBits(c: Cidr)
    requires SoundAddress(c)
  {
    match c.ip
    case V4(a) => a % Block4(c.len) == 0
    case V6(a) => a % Block6(c.len) == 0
  }

  ghost predicate OnLinkOf(gateway: Ip, addresses: seq<Cidr>) {
    exists c :: c in addresses && OnLink(gateway, c)
  }

  lemma ReachesMeaning(gateway: Ip, addresses: seq<Cidr>)
    ensures ReachesOver(gateway, addresses) <==> OnLinkOf(gateway, addresses)
  {
    hide GatewayInCidr, OnLink;
    if ReachesOver(gateway, addresses) {
      var i :| 0 <= i < |addresses| && GatewayInCidr(gateway, addresses[i]);
      OnLinkMeaning(gateway, addresses[i]);
      assert addresses[i] in addresses;
    }
    if c :| c in addresses && OnLink(gateway, c) {
      var i :| 0 <= i < |addresses| && addresses[i] == c;
      OnLinkMeaning(gateway, c);
    }
  }

  /** The router's own address in an explicit LAN prefix: the address given, or
      the one after it where that is the base of a /24. */
  function RouterAddress(state: DesiredState): seq<Cidr> {
    match state.lanPrefix
    case None => []
    case Some(prefix) =>
      if prefix.ip.V6? then []
      else [Cidr(V4(if prefix.ip.v4 % 256 == 0 then prefix.ip.v4 + 1 else prefix.ip.v4), prefix.len)]
  }

  /** What the interface has on its link; whatever has the first LAN's name
      also has the router's address. */
  ghost predicate OnItsLink(state: DesiredState, i: Iface, gateway: Ip) {
    || OnLinkOf(gateway, i.addresses)
    || ((exists k: nat :: FirstLanAt(state.interfaces, k) && state.interfaces[k].name == i.name)
        && OnLinkOf(gateway, RouterAddress(state)))
  }

  lemma ItsLinkMeaning(state: DesiredState, i: Iface, gateway: Ip)
    ensures ReachesOver(gateway, OnLinkAddresses(state, i)) <==> OnItsLink(state, i, gateway)
  {
    hide OnLink, GatewayInCidr;
    FirstLanMeaning(state.interfaces);
    ReachesMeaning(gateway, OnLinkAddresses(state, i));
    ReachesMeaning(gateway, i.addresses);
    if k: nat :| FirstLanAt(state.interfaces, k) {
      assert FirstLan(state.interfaces) == Some(state.interfaces[k]);
      forall j: nat | FirstLanAt(state.interfaces, j)
        ensures j == k
      {
        assert !(j < k) && !(k < j);
      }
    }
    assert OnLinkAddresses(state, i) == i.addresses || OnLinkAddresses(state, i) == i.addresses + RouterAddress(state);
  }

  /** A route leads to a network, through a usable address of its family that
      is no Management NIC's to reach and is on the link of some other device,
      the one named if one is. */
  ghost predicate RouteSound(state: DesiredState, r: StaticRoute) {
    && SoundAddress(r.to) && NoHostBits(r.to)
    && r.to.ip.V4? == r.via.V4? && UsableHop(r.via)
    && (OfOneLink(r.via) ==> r.dev.Some?)
    && (r.dev.Some? ==> Device(state, r.dev.value))
    && (forall i :: i in state.interfaces && i.role == Mgmt ==>
          r.dev != Some(i.name) && !OnLinkOf(r.via, i.addresses))
    && (|| (exists i :: i in state.interfaces && i.role != Mgmt && (r.dev.Some? ==> r.dev.value == i.name)
                        && OnItsLink(state, i, r.via))
        || (exists t :: t in state.wireguard && (r.dev.Some? ==> r.dev.value == t.name)
                        && OnLinkOf(r.via, t.addresses)))
  }

  lemma ManagementMeaning(state: DesiredState, gateway: Ip, dev: Option<string>)
    ensures ViaManagement(state, gateway, dev) <==>
              exists i :: i in state.interfaces && i.role == Mgmt
                          && (dev == Some(i.name) || OnLinkOf(gateway, i.addresses))
  {
    hide ReachesOver, OnLinkOf;
    forall i | i in state.interfaces
      ensures ReachesOver(gateway, i.addresses) <==> OnLinkOf(gateway, i.addresses)
    {
      ReachesMeaning(gateway, i.addresses);
    }
    if ViaManagement(state, gateway, dev) {
      var k :| 0 <= k < |state.interfaces| && state.interfaces[k].role == Mgmt
               && (dev == Some(state.interfaces[k].name) || ReachesOver(gateway, state.interfaces[k].addresses));
      assert state.interfaces[k] in state.interfaces;
    }
    if i :| i in state.interfaces && i.role == Mgmt && (dev == Some(i.name) || OnLinkOf(gateway, i.addresses)) {
      var k :| 0 <= k < |state.interfaces| && state.interfaces[k] == i;
    }
  }

  lemma NextHopMeaning(state: DesiredState, gateway: Ip, dev: Option<string>)
    ensures NextHopOnLink(state, gateway, dev) <==>
      || (exists i :: i in state.interfaces && i.role != Mgmt && (dev.Some? ==> dev.value == i.name)
                      && OnItsLink(state, i, gateway))
      || (exists t :: t in state.wireguard && (dev.Some? ==> dev.value == t.name) && OnLinkOf(gateway, t.addresses))
  {
    hide ReachesOver, OnLinkOf, OnItsLink, OnLinkAddresses;
    forall i | i in state.interfaces
      ensures ReachesOver(gateway, OnLinkAddresses(state, i)) <==> OnItsLink(state, i, gateway)
    {
      ItsLinkMeaning(state, i, gateway);
    }
    forall t | t in state.wireguard
      ensures ReachesOver(gateway, t.addresses) <==> OnLinkOf(gateway, t.addresses)
    {
      ReachesMeaning(gateway, t.addresses);
    }
    if i :| i in state.interfaces && i.role != Mgmt && (dev.Some? ==> dev.value == i.name)
            && OnItsLink(state, i, gateway) {
      var k :| 0 <= k < |state.interfaces| && state.interfaces[k] == i;
    }
    if t :| t in state.wireguard && (dev.Some? ==> dev.value == t.name) && OnLinkOf(gateway, t.addresses) {
      var k :| 0 <= k < |state.wireguard| && state.wireguard[k] == t;
    }
    assert forall k :: 0 <= k < |state.interfaces| ==> state.interfaces[k] in state.interfaces;
    assert forall k :: 0 <= k < |state.wireguard| ==> state.wireguard[k] in state.wireguard;
  }

  lemma HostBitsMeaning(c: Cidr)
    requires WellFormed(c)
    ensures Canonical(c) <==> NoHostBits(c)
  {
    hide Block4, Block6;
  }

  lemma RouteAccepted(state: DesiredState, r: StaticRoute)
    ensures CheckRoute(state, r, {}).None? <==> RouteSound(state, r)
  {
    hide Canonical, NoHostBits, Unspecified, Multicast, UsableHop, LinkLocal6, OfOneLink, KnownDevice, Device,
         ViaManagement, NextHopOnLink, OnLinkOf, OnItsLink;
    if WellFormed(r.to) { HostBitsMeaning(r.to); }
    HopMeaning(r.via);
    LinkLocalMeaning(r.via);
    if r.dev.Some? { DeviceMeaning(state, r.dev.value); }
    ManagementMeaning(state, r.via, r.dev);
    NextHopMeaning(state, r.via, r.dev);
  }

  // ----- roles ------------------------------------------------------------------------

  /** A known role; a Management NIC is a whole port with an address of its own. */
  predicate RoleSound(i: Iface) {
    && i.placement != "mgmt"
    && i.role in {Unassigned, Wan, Lan, Unused, Stick, Mgmt}
    && (i.role == Mgmt ==> i.vlan.None? && i.parent.None? && '.' !in i.name && !i.dhcp && i.addresses != [])
  }

  lemma RoleAccepted(i: Iface)
    ensures CheckRole(i).None? <==> RoleSound(i)
  {
  }

  predicate LastDotAt(name: string, k: nat) {
    k < |name| && name[k] == '.' && '.' !in name[k + 1..]
  }

  /** The port an interface stands on: its parent; for a tagged one without
      one, its name up to the last dot; else itself. */
  ghost predicate StandsOn(i: Iface, port: string) {
    if i.parent.Some? then port == i.parent.value
    else if i.vlan.None? || '.' !in i.name then port == i.name
    else exists k: nat :: LastDotAt(i.name, k) && port == i.name[..k]
  }

  lemma LinkKeyMeaning(i: Iface)
    ensures StandsOn(i, L2Key(i).0) && L2Key(i).1 == i.vlan
    ensures forall port :: StandsOn(i, port) ==> port == L2Key(i).0
  {
    hide BeforeLastDot, LastDotAt;
    if i.parent.None? && i.vlan.Some? {
      StemMeaning(i.name, |i.name|);
      if j: nat :| LastDotAt(i.name, j) {
        forall k: nat | LastDotAt(i.name, k)
          ensures k == j
        {
          OneLastDot(i.name, j, k);
          OneLastDot(i.name, k, j);
        }
      }
    }
  }

  lemma OneLastDot(name: string, j: nat, k: nat)
    requires LastDotAt(name, j) && LastDotAt(name, k)
    ensures j <= k
  {
    assert forall m :: k < m < |name| ==> name[m] == name[k + 1..][m - k - 1];
  }

  lemma {:induction false} StemMeaning(name: string, end: nat)
    requires end <= |name| && '.' !in name[end..]
    ensures '.' !in name ==> BeforeLastDot(name, end) == name
    ensures '.' in name ==>
      exists k: nat :: LastDotAt(name, k) && BeforeLastDot(name, end) == name[..k]
  {
    if end == 0 {
      assert name[0..] == name;
    } else if name[end - 1] == '.' {
      assert name[end - 1] in name && LastDotAt(name, end - 1);
    } else {
      assert name[end - 1..] == [name[end - 1]] + name[end..];
      StemMeaning(name, end - 1);
    }
  }

  /** WANs and LANs do not meet on one port and tag, nor either with a
      Management NIC on a port. */
  ghost predicate PortsApart(interfaces: seq<Iface>) {
    forall a, b, port, other ::
      a in interfaces && b in interfaces && StandsOn(a, port) && StandsOn(b, other) ==>
        && (a.role == Wan && b.role == Lan ==> port != other || a.vlan != b.vlan)
        && ((a.role == Wan || a.role == Lan) && b.role == Mgmt ==> port != other)
  }

  lemma PortsMeaning(interfaces: seq<Iface>)
    ensures LinksApart(interfaces) <==> PortsApart(interfaces)
  {
    hide StandsOn, L2Key;
    forall i | i in interfaces
      ensures StandsOn(i, L2Key(i).0) && L2Key(i).1 == i.vlan
      ensures forall port :: StandsOn(i, port) ==> port == L2Key(i).0
    {
      LinkKeyMeaning(i);
    }
    if PortsApart(interfaces) {
      forall a, b | a in interfaces && b in interfaces
        ensures a.role == Wan && b.role == Lan ==> L2Key(a) != L2Key(b)
        ensures (a.role == Wan || a.role == Lan) && b.role == Mgmt ==> L2Key(a).0 != L2Key(b).0
      {
        assert StandsOn(a, L2Key(a).0) && StandsOn(b, L2Key(b).0);
      }
    }
  }

  /** There is a WAN and a LAN, on ports of their own; the UI is offered
      somewhere, on every Management NIC, and by no name that first finds a WAN. */
  ghost predicate RolesSound(state: DesiredState) {
    && (exists i :: i in state.interfaces && i.role == Wan)
    && (exists i :: i in state.interfaces && i.role == Lan)
    && PortsApart(state.interfaces)
    && state.uiExposure != []
    && (forall name :: name in state.uiExposure ==>
          exists k: nat :: FirstCalled(state.interfaces, name, k) && state.interfaces[k].role != Wan)
    && (forall i :: i in state.interfaces && i.role == Mgmt ==> i.name in state.uiExposure)
  }

  lemma ExposedMeaning(interfaces: seq<Iface>, name: string)
    ensures CheckExposed(interfaces, name).None? <==>
            exists k: nat :: FirstCalled(interfaces, name, k) && interfaces[k].role != Wan
  {
    FindIfaceMeaning(interfaces, name);
    if k: nat :| FirstCalled(interfaces, name, k) {
      assert FindIface(interfaces, name) == Some(interfaces[k]);
    }
  }

  lemma RolesAccepted(state: DesiredState)
    ensures CheckRoles(state).None? <==> RolesSound(state)
  {
    hide CheckRoles, LinksApart, PortsApart, CheckExposed;
    RolesChecked(state);
    PortsMeaning(state.interfaces);
    forall name
      ensures CheckExposed(state.interfaces, name).None? <==>
              exists k: nat :: FirstCalled(state.interfaces, name, k) && state.interfaces[k].role != Wan
    {
      ExposedMeaning(state.interfaces, name);
    }
    assert forall k :: 0 <= k < |state.uiExposure| ==> state.uiExposure[k] in state.uiExposure;
  }

  // ----- the whole ----------------------------------------------------------------------

  ghost predicate Acceptable(state: DesiredState) {
    && (forall i :: i in state.interfaces ==>
          SoundLink(i.name, i.parent, i.vlan, i.addresses) && Ipv6Sound(i) && RoleSound(i))
    && AddressingSound(state)
    && ServicesOnLan(state)
    && (forall i, j :: 0 <= i < j < |state.interfaces| ==>
        !(state.interfaces[i].requestPd && state.interfaces[j].requestPd))
    && (state.wanPd.Some? ==> forall i :: i in state.interfaces ==> !i.requestPd)
    && (forall rule :: rule in state.nftExtra ==> RuleSound(state.interfaces, rule))
    && (forall i, j :: 0 <= i < j < |state.wireguard| ==> state.wireguard[i].name != state.wireguard[j].name)
    && (forall t :: t in state.wireguard ==> TunnelSound(t))
    && (forall q :: q in state.qdiscs ==> QueueSound(state, q))
    && (forall i, j :: 0 <= i < j < |state.routes| ==> state.routes[i].to != state.routes[j].to)
    && (forall r :: r in state.routes ==> RouteSound(state, r))
    && RolesSound(state)
  }

  lemma ListMeaning(state: DesiredState)
    ensures (forall k :: 0 <= k < |state.interfaces| ==>
               && CheckIface(state.interfaces[k]).None? && CheckIpv6Iface(state.interfaces[k]).None?
               && CheckRole(state.interfaces[k]).None?) <==>
            forall i :: i in state.interfaces ==>
              SoundLink(i.name, i.parent, i.vlan, i.addresses) && Ipv6Sound(i) && RoleSound(i)
    ensures PolicyAccepted(state) <==> forall rule :: rule in state.nftExtra ==> RuleSound(state.interfaces, rule)
    ensures (forall k :: 0 <= k < |state.wireguard| ==> TunnelUsable(state.wireguard[k])) <==>
            forall t :: t in state.wireguard ==> TunnelSound(t)
    ensures (forall k :: 0 <= k < |state.qdiscs| ==> CheckQdisc(state, state.qdiscs[k]).None?) <==>
            forall q :: q in state.qdiscs ==> QueueSound(state, q)
    ensures (forall k :: 0 <= k < |state.routes| ==> CheckRoute(state, state.routes[k], {}).None?) <==>
            forall r :: r in state.routes ==> RouteSound(state, r)
  {
    hide CheckInterface, SoundLink, CheckIpv6Iface, Ipv6Sound, CheckRole, RoleSound, CheckPolicyRule, RuleSound,
         TunnelUsable,
         TunnelSound, CheckQdisc, QueueSound, CheckRoute, RouteSound;
    forall i: Iface
      ensures CheckIface(i).None? <==> SoundLink(i.name, i.parent, i.vlan, i.addresses)
      ensures CheckIpv6Iface(i).None? <==> Ipv6Sound(i)
      ensures CheckRole(i).None? <==> RoleSound(i)
    {
      LinkMeaning(i.name, i.parent, i.vlan, i.addresses);
      Ipv6Accepted(i);
      RoleAccepted(i);
    }
    forall rule: PolicyRule ensures CheckPolicyRule(state.interfaces, rule).None? <==>
      RuleSound(state.interfaces, rule) {
      RuleAccepted(state.interfaces, rule);
    }
    forall t: Wg ensures TunnelUsable(t) <==> TunnelSound(t) { TunnelAccepted(t); }
    forall q: Qdisc ensures CheckQdisc(state, q).None? <==> QueueSound(state, q) { QueueAccepted(state, q); }
    forall r: StaticRoute ensures CheckRoute(state, r, {}).None? <==> RouteSound(state, r) { RouteAccepted(state, r); }
  }

  /** The validator accepts exactly the acceptable states: none of its checks,
      their order or what its loops remember is needed to say which. */
  lemma ValidateMeaning(state: DesiredState)
    ensures Validate(state).None? <==> Acceptable(state)
  {
    hide Validate, CheckIface, CheckIpv6Iface, CheckRole, CheckAddressing, CheckLanServices, PolicyAccepted,
         TunnelUsable,
         CheckQdisc, CheckRoute, RolesPass, CheckRoles;
    hide SoundLink, Ipv6Sound, RoleSound, AddressingSound, ServicesOnLan, RuleSound, TunnelSound, QueueSound,
         RouteSound,
         RolesSound;
    ValidateChecks(state);
    ListMeaning(state);
    AddressingAccepted(state);
    ServicesAccepted(state);
    RolesAccepted(state);
    RolesChecked(state);
    assert forall i :: i in state.interfaces <==> exists k :: 0 <= k < |state.interfaces| && state.interfaces[k] == i;
  }
}
