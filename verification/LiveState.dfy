/** What a Desired state means for the kernel: the links, addresses and routes
    netd programs for it, and the ones an undo accounts for. */
module LiveState {
  import opened Common
  import opened Desired
  import opened Addressing
  import Acceptability

  datatype Hop = Hop(via: Ip, dev: Option<string>)

  type Address = (string, Cidr)

  function OnDevice(dev: string, addresses: seq<Cidr>): seq<Address> {
    if addresses == [] then [] else [(dev, addresses[0])] + OnDevice(dev, addresses[1..])
  }

  lemma {:induction false} OnDeviceMembers(dev: string, addresses: seq<Cidr>, a: Address)
    ensures a in OnDevice(dev, addresses) <==> a.0 == dev && a.1 in addresses
  {
    if addresses != [] { OnDeviceMembers(dev, addresses[1..], a); }
  }

  function IfaceAddresses(interfaces: seq<Iface>): seq<Address> {
    if interfaces == [] then []
    else OnDevice(interfaces[0].name, interfaces[0].addresses) + IfaceAddresses(interfaces[1..])
  }

  function TunnelAddresses(tunnels: seq<Wg>): seq<Address> {
    if tunnels == [] then []
    else OnDevice(tunnels[0].name, tunnels[0].addresses) + TunnelAddresses(tunnels[1..])
  }

  lemma {:induction false} IfaceAddressesContain(interfaces: seq<Iface>, i: nat, c: Cidr)
    requires i < |interfaces| && c in interfaces[i].addresses
    ensures (interfaces[i].name, c) in IfaceAddresses(interfaces)
  {
    if i == 0 {
      OnDeviceMembers(interfaces[0].name, interfaces[0].addresses, (interfaces[0].name, c));
    } else {
      IfaceAddressesContain(interfaces[1..], i - 1, c);
    }
  }

  lemma {:induction false} TunnelAddressesContain(tunnels: seq<Wg>, i: nat, c: Cidr)
    requires i < |tunnels| && c in tunnels[i].addresses
    ensures (tunnels[i].name, c) in TunnelAddresses(tunnels)
  {
    if i == 0 {
      OnDeviceMembers(tunnels[0].name, tunnels[0].addresses, (tunnels[0].name, c));
    } else {
      TunnelAddressesContain(tunnels[1..], i - 1, c);
    }
  }

  lemma {:induction false} IfaceAddressOrigin(interfaces: seq<Iface>, a: Address) returns (i: nat)
    requires a in IfaceAddresses(interfaces)
    ensures i < |interfaces| && interfaces[i].name == a.0 && a.1 in interfaces[i].addresses
  {
    OnDeviceMembers(interfaces[0].name, interfaces[0].addresses, a);
    if a in OnDevice(interfaces[0].name, interfaces[0].addresses) {
      i := 0;
    } else {
      var j := IfaceAddressOrigin(interfaces[1..], a);
      i := j + 1;
    }
  }

  lemma {:induction false} TunnelAddressOrigin(tunnels: seq<Wg>, a: Address) returns (i: nat)
    requires a in TunnelAddresses(tunnels)
    ensures i < |tunnels| && tunnels[i].name == a.0 && a.1 in tunnels[i].addresses
  {
    OnDeviceMembers(tunnels[0].name, tunnels[0].addresses, a);
    if a in OnDevice(tunnels[0].name, tunnels[0].addresses) {
      i := 0;
    } else {
      var j := TunnelAddressOrigin(tunnels[1..], a);
      i := j + 1;
    }
  }

  function FirstRequesting(interfaces: seq<Iface>): Option<Iface> {
    if interfaces == [] then None
    else if interfaces[0].requestPd && interfaces[0].role == Wan then Some(interfaces[0])
    else FirstRequesting(interfaces[1..])
  }

  /** The routed IPv6 LAN prefix: configured, or delegated to the requesting
      WAN (`acquired` is what each WAN's lease holds). */
  function RoutedLanPrefix(state: DesiredState, acquired: map<string, Cidr>): Option<Cidr> {
    if state.wanPd.Some? then state.wanPd
    else
      var wan := FirstRequesting(state.interfaces);
      if wan.Some? && wan.value.name in acquired && DelegateLan(acquired[wan.value.name]).Some?
      then Some(acquired[wan.value.name]) else None
  }

  function DelegatedAddress(state: DesiredState, acquired: map<string, Cidr>): seq<Address> {
    var lan, prefix := FirstLan(state.interfaces), RoutedLanPrefix(state, acquired);
    if lan.None? || prefix.None? || DelegateLan(prefix.value).None? then []
    else [(lan.value.name, Cidr(V6(DelegateLan(prefix.value).value.router), 64))]
  }

  function HostAddress(state: DesiredState): seq<Address> {
    var lan, host := FirstLan(state.interfaces), LanHost(state);
    if lan.None? || host.None? then [] else [(lan.value.name, host.value)]
  }

  /** Every address that programming `state` adds. */
  function Programmed(state: DesiredState, acquired: map<string, Cidr>): seq<Address> {
    IfaceAddresses(state.interfaces) + TunnelAddresses(state.wireguard)
    + DelegatedAddress(state, acquired) + HostAddress(state)
  }

  predicate SharesIp(addresses: seq<Cidr>, host: Cidr) {
    exists i :: 0 <= i < |addresses| && addresses[i].ip == host.ip
  }

  /** `merge_lan_prefix_addr`: the LAN host address joins the first LAN's own,
      unless one of them already has that IP, at any prefix length. */
  function MergeHost(interfaces: seq<Iface>, host: Cidr): seq<Iface> {
    if interfaces == [] then []
    else if IsLan(interfaces[0]) then
      var lan := interfaces[0];
      [if SharesIp(lan.addresses, host) then lan else lan.(addresses := lan.addresses + [host])] + interfaces[1..]
    else [interfaces[0]] + MergeHost(interfaces[1..], host)
  }

  function Merged(state: DesiredState): DesiredState {
    var host := LanHost(state);
    if host.None? then state else state.(interfaces := MergeHost(state.interfaces, host.value))
  }

  /** What capturing live addresses does: a plain interface that is exposed or
      a LAN and had no addresses takes well-formed ones. */
  predicate FilledFrom(state: DesiredState, filled: DesiredState) {
    && filled == state.(interfaces := filled.interfaces)
    && |filled.interfaces| == |state.interfaces|
    && forall i :: 0 <= i < |state.interfaces| ==>
         || filled.interfaces[i] == state.interfaces[i]
         || (&& state.interfaces[i].addresses == []
             && filled.interfaces[i] == state.interfaces[i].(addresses := filled.interfaces[i].addresses)
             && forall k :: 0 <= k < |filled.interfaces[i].addresses| ==> WellFormed(filled.interfaces[i].addresses[k]))
  }

  /** The addresses a rollback footprint accounts for. */
  function DesiredAddresses(state: DesiredState, acquired: map<string, Cidr>): seq<Address> {
    IfaceAddresses(Merged(state).interfaces) + TunnelAddresses(state.wireguard)
      + DelegatedAddress(Merged(state), acquired)
  }

  lemma {:induction false} MergeHostExtends(interfaces: seq<Iface>, host: Cidr)
    ensures var merged := MergeHost(interfaces, host);
      && |merged| == |interfaces|
      && (forall i :: 0 <= i < |interfaces| ==> IfaceExtends(interfaces[i], merged[i]))
  {
    if interfaces != [] && !IsLan(interfaces[0]) { MergeHostExtends(interfaces[1..], host); }
  }

  lemma MergedExtends(state: DesiredState)
    ensures Extends(state, Merged(state))
  {
    var host := LanHost(state);
    if host.Some? { MergeHostExtends(state.interfaces, host.value); }
  }

  lemma {:induction false} ExtendedPlaces(a: seq<Iface>, b: seq<Iface>)
    requires |a| == |b| && forall i :: 0 <= i < |a| ==> IfaceExtends(a[i], b[i])
    ensures FirstRequesting(a).Some? == FirstRequesting(b).Some?
    ensures FirstRequesting(a).Some? ==> FirstRequesting(a).value.name == FirstRequesting(b).value.name
    ensures FirstLan(a).Some? == FirstLan(b).Some?
    ensures FirstLan(a).Some? ==> FirstLan(a).value.name == FirstLan(b).value.name
  {
    if a != [] {
      assert IfaceExtends(a[0], b[0]);
      ExtendedPlaces(a[1..], b[1..]);
    }
  }

  /** What programming rewrites does not move where LAN addresses go. */
  lemma ExtendedLanAddresses(a: DesiredState, b: DesiredState, acquired: map<string, Cidr>)
    requires Extends(a, b)
    ensures HostAddress(a) == HostAddress(b) && DelegatedAddress(a, acquired) == DelegatedAddress(b, acquired)
  {
    hide FirstHost, DelegateLan;
    ExtendedPlaces(a.interfaces, b.interfaces);
  }

  /** The LAN host address escapes the footprint: another of the LAN's own
      addresses has its IP at a different prefix length. */
  predicate HostShadowed(interfaces: seq<Iface>, host: Cidr) {
    var lan := FirstLan(interfaces);
    lan.Some? && SharesIp(lan.value.addresses, host)
  }

  lemma {:induction false} MergeHostAddresses(interfaces: seq<Iface>, host: Cidr, a: Address)
    ensures a in IfaceAddresses(MergeHost(interfaces, host)) <==>
      || a in IfaceAddresses(interfaces)
      || (FirstLan(interfaces).Some? && !HostShadowed(interfaces, host) && a == (FirstLan(interfaces).value.name, host))
  {
    if interfaces != [] {
      var merged := MergeHost(interfaces, host);
      if IsLan(interfaces[0]) {
        var lan := interfaces[0];
        OnDeviceMembers(lan.name, lan.addresses, a);
        OnDeviceMembers(lan.name, lan.addresses + [host], a);
        assert merged[1..] == interfaces[1..];
      } else {
        MergeHostAddresses(interfaces[1..], host, a);
        assert merged[1..] == MergeHost(interfaces[1..], host);
      }
    }
  }

  /** Exactly what the footprint misses of what programming adds. */
  lemma FootprintMisses(state: DesiredState, acquired: map<string, Cidr>, a: Address)
    ensures a in Programmed(state, acquired) && a !in DesiredAddresses(state, acquired) <==>
      && a in HostAddress(state) && HostShadowed(state.interfaces, a.1) && a !in DesiredAddresses(state, acquired)
    ensures a in DesiredAddresses(state, acquired) ==> a in Programmed(state, acquired)
  {
    hide FirstHost, LanPrefix;
    var host := LanHost(state);
    if host.Some? {
      MergeHostAddresses(state.interfaces, host.value, a);
      MergedExtends(state);
      ExtendedLanAddresses(state, Merged(state), acquired);
    }
  }

  predicate FirstRequestingAt(interfaces: seq<Iface>, k: nat) {
    && k < |interfaces| && interfaces[k].requestPd && interfaces[k].role == Wan
    && forall j :: 0 <= j < k ==> !(interfaces[j].requestPd && interfaces[j].role == Wan)
  }

  lemma {:induction false} FirstRequestingMeaning(interfaces: seq<Iface>)
    ensures FirstRequesting(interfaces).None? <==>
      forall k :: 0 <= k < |interfaces| ==> !(interfaces[k].requestPd && interfaces[k].role == Wan)
    ensures forall k: nat :: FirstRequestingAt(interfaces, k) ==> FirstRequesting(interfaces) == Some(interfaces[k])
    ensures FirstRequesting(interfaces).Some? ==> exists k: nat :: FirstRequestingAt(interfaces, k)
  {
    if interfaces != [] {
      var rest := interfaces[1..];
      FirstRequestingMeaning(rest);
      assert forall k :: 0 < k < |interfaces| ==> interfaces[k] == rest[k - 1];
      if interfaces[0].requestPd && interfaces[0].role == Wan {
        assert FirstRequestingAt(interfaces, 0);
      } else {
        forall k: nat | FirstRequestingAt(interfaces, k)
          ensures FirstRequesting(interfaces) == Some(interfaces[k])
        {
          assert FirstRequestingAt(rest, k - 1);
        }
        if k: nat :| FirstRequestingAt(rest, k) {
          assert FirstRequestingAt(interfaces, k + 1);
        }
      }
    }
  }

  /** The router's host address: in the prefix given, or else the first host of
      the /24 the pool begins in. */
  predicate RoutersHost(state: DesiredState, c: Cidr) {
    if state.lanPrefix.Some? then c in Acceptability.RouterAddress(state)
    else state.dhcpPool.Some? && c.ip.V4? && c.ip.v4 == state.dhcpPool.value.first / 256 * 256 + 1 && c.len == 24
  }

  /** An IPv6 prefix that holds a /64: the one given, or else what the lease of
      the first WAN that requests one holds. */
  ghost predicate Delegated(state: DesiredState, acquired: map<string, Cidr>, prefix: Cidr) {
    if state.wanPd.Some? then prefix == state.wanPd.value && DelegateLan(prefix).Some?
    else exists k: nat ::
      && FirstRequestingAt(state.interfaces, k)
      && state.interfaces[k].name in acquired && acquired[state.interfaces[k].name] == prefix
          && DelegateLan(prefix).Some?
  }

  lemma HostMeaning(state: DesiredState, c: Cidr)
    ensures LanHost(state) == Some(c) <==> RoutersHost(state, c)
  {
    if state.lanPrefix.None? && state.dhcpPool.Some? { PoolHost(state.dhcpPool.value); }
    hide RoundDown, PrefixFromPool;
  }

  lemma PoolHost(pool: Pool)
    ensures PrefixFromPool(pool).len == 24
    ensures FirstHost(PrefixFromPool(pool)) == Some(pool.first / 256 * 256 + 1)
  {
    RoundDownIsMultiple(pool.first, 256);
  }

  lemma DelegatedMeaning(state: DesiredState, acquired: map<string, Cidr>, prefix: Cidr)
    ensures RoutedLanPrefix(state, acquired) == Some(prefix) && DelegateLan(prefix).Some? <==>
      Delegated(state, acquired, prefix)
  {
    hide DelegateLan;
    FirstRequestingMeaning(state.interfaces);
    if k: nat :| FirstRequestingAt(state.interfaces, k) {
      assert FirstRequesting(state.interfaces) == Some(state.interfaces[k]);
    }
  }

  /** Which addresses programming adds: an interface's or a tunnel's own, and
      on the first LAN the router's, in the LAN prefix and the delegated /64. */
  lemma ProgrammedMeaning(state: DesiredState, acquired: map<string, Cidr>, a: Address)
    ensures a in Programmed(state, acquired) <==>
      || (exists i :: 0 <= i < |state.interfaces|
                      && a.0 == state.interfaces[i].name && a.1 in state.interfaces[i].addresses)
      || (exists i :: 0 <= i < |state.wireguard|
                      && a.0 == state.wireguard[i].name && a.1 in state.wireguard[i].addresses)
      || (exists k: nat :: Acceptability.FirstLanAt(state.interfaces, k) && a.0 == state.interfaces[k].name
            && (|| RoutersHost(state, a.1)
                || exists p :: Delegated(state, acquired, p) && a.1 == Cidr(V6(DelegateLan(p).value.router), 64)))
  {
    hide DelegateLan, RoutedLanPrefix, Delegated, LanHost, RoutersHost;
    if i :| 0 <= i < |state.interfaces| && a.0 == state.interfaces[i].name && a.1 in state.interfaces[i].addresses {
      IfaceAddressesContain(state.interfaces, i, a.1);
    }
    if a in IfaceAddresses(state.interfaces) { var _ := IfaceAddressOrigin(state.interfaces, a); }
    if i :| 0 <= i < |state.wireguard| && a.0 == state.wireguard[i].name && a.1 in state.wireguard[i].addresses {
      TunnelAddressesContain(state.wireguard, i, a.1);
    }
    if a in TunnelAddresses(state.wireguard) { var _ := TunnelAddressOrigin(state.wireguard, a); }
    Acceptability.FirstLanMeaning(state.interfaces);
    HostMeaning(state, a.1);
    forall p ensures RoutedLanPrefix(state, acquired) == Some(p) && DelegateLan(p).Some? <==>
      Delegated(state, acquired, p) {
      DelegatedMeaning(state, acquired, p);
    }
    hide IfaceAddresses, TunnelAddresses, FirstLan;
  }

  function Destinations(routes: seq<StaticRoute>): set<Cidr> {
    set i | 0 <= i < |routes| :: routes[i].to
  }

  function HopOf(r: StaticRoute): Hop {
    Hop(r.via, r.dev)
  }

  function RouteAt(routes: map<Cidr, Hop>, to: Cidr): Option<Hop> {
    if to in routes then Some(routes[to]) else None
  }

  /** `ip route del to via [dev]` names this installed route. */
  predicate Names(r: StaticRoute, installed: Option<Hop>) {
    installed.Some? && installed.value.via == r.via && (r.dev.None? || installed.value.dev == r.dev)
  }

  /** Links that programming `state` creates when they are missing. */
  function CreatedLinks(state: DesiredState): set<string> {
    (set i | 0 <= i < |state.interfaces| && state.interfaces[i].vlan.Some? :: state.interfaces[i].name)
    + (set i | 0 <= i < |state.wireguard| :: state.wireguard[i].name)
  }

  /** An address that programming adds to a device that was there and the
      footprint does not record: the LAN host address, when the LAN has its IP
      at another prefix length and nothing else asks for this very address. */
  predicate Escapes(proposed: DesiredState, acquired: map<string, Cidr>, links: set<string>, live: set<Address>,
      a: Address) {
    && a in HostAddress(proposed)
    && HostShadowed(proposed.interfaces, a.1)
    && a !in DesiredAddresses(proposed, acquired)
    && a.0 in links
    && a !in live
  }

  /** A live route that is not the current state's, at a destination only the
      proposed state has: replacing it loses it. */
  predicate Displaced(current: DesiredState, proposed: DesiredState, live: map<Cidr, Hop>, to: Cidr) {
    to in Destinations(proposed.routes) && to !in Destinations(current.routes) && to in live
  }
}
