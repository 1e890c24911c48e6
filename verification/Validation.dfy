/** The validator, in netd's order and with its early exits, and the
    order-free statement of what it accepts. */
module Validation {
  import opened Common
  import opened Desired
  import opened Addressing

  datatype Refusal =
    | InvalidInterfaceName | InvalidParent | ParentWithoutVlan | VlanOutOfRange | VlanNeedsParent | InvalidAddress
    | BadAddressing(error: AddressingError)
    | PrefixMismatch | PoolMismatch
    | Ipv6NotOnWan | UnsupportedIpv6Mode | DelegationNotOnWan | TwoDelegations | StaticAndDelegated
    | InvalidPolicy | UnknownPolicyInterface | AcceptsWanInput | AcceptNeedsInside
    | DuplicateTunnel | UnusablePort | InvalidKey | UnsupportedQdisc
    | InvalidDestination | UnusableNextHop | LinkLocalNeedsInterface | UnknownRouteInterface
    | ManagementGateway | NextHopNotOnLink
    | MgmtPlacement | UnknownRoleText | MgmtSharesParent | MgmtDhcp | MgmtWithoutPrefix
    | NoWan | NoLan | SharedLink | SharedManagementParent
    | NoExposure | ExposureUnknown | ExposureOnWan | MgmtNotExposed

  type Outcome = Option<Refusal>

  /** A checking loop: the first item refused ends it. */
  function FirstRefusal<T>(items: seq<T>, check: T -> Outcome): Outcome {
    if items == [] then None
    else if check(items[0]).Some? then check(items[0])
    else FirstRefusal(items[1..], check)
  }

  lemma {:induction false} FirstRefusalNone<T>(items: seq<T>, check: T -> Outcome)
    ensures FirstRefusal(items, check).None? <==> forall i :: 0 <= i < |items| ==> check(items[i]).None?
  {
    if items != [] {
      FirstRefusalNone(items[1..], check);
      assert forall i :: 0 < i < |items| ==> items[i] == items[1..][i - 1];
    }
  }

  // ----- interfaces ---------------------------------------------------------

  predicate NameChar(c: char) {
    'a' <= c <= 'z' || 'A' <= c <= 'Z' || '0' <= c <= '9' || c == '_' || c == '-' || c == '.'
  }

  predicate InterfaceName(name: string) {
    1 <= |name| <= 15 && forall i :: 0 <= i < |name| ==> NameChar(name[i])
  }

  function CheckInterface(name: string, parent: Option<string>, vlan: Option<nat>, addresses: seq<Cidr>): Outcome {
    if !InterfaceName(name) then Some(InvalidInterfaceName)
    else if parent.Some? && (!InterfaceName(parent.value) || parent.value == name) then Some(InvalidParent)
    else if parent.Some? && vlan.None? then Some(ParentWithoutVlan)
    else if vlan.Some? && !(1 <= vlan.value <= 4094) then Some(VlanOutOfRange)
    else if vlan.Some? && parent.None? && '.' !in name then Some(VlanNeedsParent)
    else if exists i :: 0 <= i < |addresses| && !WellFormed(addresses[i]) then Some(InvalidAddress)
    else None
  }

  function CheckIface(i: Iface): Outcome {
    CheckInterface(i.name, i.parent, i.vlan, i.addresses)
  }

  function Networks(addresses: seq<Cidr>): (r: set<(Word32, nat)>) {
    set i | 0 <= i < |addresses| && Network4(addresses[i]).Some? :: Network4(addresses[i]).value
  }

  /** `lan_services_match_interface`: the LAN services' prefix is a network of
      the first LAN, when that has any IPv4 address. */
  function CheckLanServices(state: DesiredState): Outcome {
    var lan := FirstLan(state.interfaces);
    if lan.None? || Networks(lan.value.addresses) == {} then None
    else if state.lanPrefix.Some? then
      var expected := Network4(state.lanPrefix.value);
      if expected.None? || expected.value !in Networks(lan.value.addresses) then Some(PrefixMismatch) else None
    else if state.dhcpPool.Some? then
      var implied := Network4(PrefixFromPool(state.dhcpPool.value));
      if implied.None? || implied.value !in Networks(lan.value.addresses) then Some(PoolMismatch) else None
    else None
  }

  function CheckIpv6Iface(i: Iface): Outcome {
    if i.ipv6.Some? && i.role != Wan then Some(Ipv6NotOnWan)
    else if i.ipv6.Some? && i.ipv6.value.UnknownMode? then Some(UnsupportedIpv6Mode)
    else if i.requestPd && i.role != Wan then Some(DelegationNotOnWan)
    else None
  }

  function Requesting(interfaces: seq<Iface>): nat {
    if interfaces == [] then 0 else (if interfaces[0].requestPd then 1 else 0) + Requesting(interfaces[1..])
  }

  function CheckIpv6(state: DesiredState): Outcome {
    var refused := FirstRefusal(state.interfaces, CheckIpv6Iface);
    if refused.Some? then refused
    else if Requesting(state.interfaces) > 1 then Some(TwoDelegations)
    else if Requesting(state.interfaces) == 1 && state.wanPd.Some? then Some(StaticAndDelegated)
    else None
  }

  // ----- policy -------------------------------------------------------------

  function FindIface(interfaces: seq<Iface>, name: string): Option<Iface> {
    if interfaces == [] then None
    else if interfaces[0].name == name then Some(interfaces[0])
    else FindIface(interfaces[1..], name)
  }

  function CheckPolicyRule(interfaces: seq<Iface>, rule: PolicyRule): Outcome {
    if rule.wordCount < 2 then Some(InvalidPolicy)
    else if rule.found.Some? then
      var iface := FindIface(interfaces, rule.found.value);
      if iface.None? then Some(UnknownPolicyInterface)
      else if rule.verdict == Accept && iface.value.role == Wan then Some(AcceptsWanInput)
      else if rule.verdict == Accept && iface.value.role != Lan && iface.value.role != Mgmt then Some(AcceptNeedsInside)
      else None
    else if rule.verdict == Accept then Some(AcceptNeedsInside)
    else None
  }

  /** Every administrator rule passes, in whichever state the rule stands. */
  predicate PolicyAccepted(state: DesiredState) {
    forall k :: 0 <= k < |state.nftExtra| ==> CheckPolicyRule(state.interfaces, state.nftExtra[k]).None?
  }

  lemma {:induction false} FindIfaceExtends(a: seq<Iface>, b: seq<Iface>, name: string)
    requires |a| == |b| && forall i :: 0 <= i < |a| ==> IfaceExtends(a[i], b[i])
    ensures FindIface(a, name).Some? == FindIface(b, name).Some?
    ensures FindIface(a, name).Some? ==> FindIface(a, name).value.role == FindIface(b, name).value.role
  {
    if a != [] {
      assert IfaceExtends(a[0], b[0]);
      FindIfaceExtends(a[1..], b[1..], name);
    }
  }

  /** Programming a state, and numbering it, leave its policy accepted. */
  lemma PolicyExtends(a: DesiredState, b: DesiredState)
    requires Extends(a, b) && PolicyAccepted(a)
    ensures PolicyAccepted(b)
  {
    forall k | 0 <= k < |b.nftExtra|
      ensures CheckPolicyRule(b.interfaces, b.nftExtra[k]).None?
    {
      var rule := a.nftExtra[k];
      assert CheckPolicyRule(a.interfaces, rule).None?;
      if rule.found.Some? { FindIfaceExtends(a.interfaces, b.interfaces, rule.found.value); }
    }
  }

  lemma PolicyRenumbered(a: DesiredState, revision: nat)
    ensures PolicyAccepted(a.(revision := revision)) == PolicyAccepted(a)
  {
  }

  // ----- tunnels, qdiscs ------------------------------------------------------

  function Base64Value(c: char): Option<nat> {
    if 'A' <= c <= 'Z' then Some((c - 'A') as nat)
    else if 'a' <= c <= 'z' then Some((c - 'a') as nat + 26)
    else if '0' <= c <= '9' then Some((c - '0') as nat + 52)
    else if c == '+' then Some(62)
    else if c == '/' then Some(63)
    else None
  }

  /** The base64 text of 32 bytes: 43 symbols, no stray trailing bits, one pad. */
  predicate PrivateKey(text: string) {
    && |text| == 44 && text[43] == '='
    && (forall i :: 0 <= i < 43 ==> Base64Value(text[i]).Some?)
    && Base64Value(text[42]).value % 4 == 0
  }

  function CheckTunnels(tunnels: seq<Wg>, seen: set<string>): Outcome {
    if tunnels == [] then None
    else
      var wg := tunnels[0];
      if wg.name in seen then Some(DuplicateTunnel)
      else if wg.listenPort == Some(0) then Some(UnusablePort)
      else if CheckInterface(wg.name, None, None, wg.addresses).Some?
          then CheckInterface(wg.name, None, None, wg.addresses)
      else if !PrivateKey(wg.privateKey) then Some(InvalidKey)
      else CheckTunnels(tunnels[1..], seen + {wg.name})
  }

  predicate TunnelUsable(wg: Wg) {
    wg.listenPort != Some(0) && CheckInterface(wg.name, None, None, wg.addresses).None? && PrivateKey(wg.privateKey)
  }

  predicate KnownDevice(state: DesiredState, dev: string) {
    || (exists i :: 0 <= i < |state.interfaces| && state.interfaces[i].name == dev)
    || (exists i :: 0 <= i < |state.wireguard| && state.wireguard[i].name == dev)
  }

  function CheckQdisc(state: DesiredState, q: Qdisc): Outcome {
    if !KnownDevice(state, q.dev) || q.kind.UnknownQdisc? then Some(UnsupportedQdisc) else None
  }

  // ----- routes -------------------------------------------------------------

  predicate SameFamily(a: Ip, b: Ip) {
    a.V4? == b.V4?
  }

  /** No host bits set. */
  predicate Canonical(c: Cidr)
    requires WellFormed(c)
  {
    match c.ip
    case V4(ip) => RoundDown(ip, Block4(c.len)) == ip
    case V6(ip) => RoundDown(ip, Block6(c.len)) == ip
  }

  const V6_UNIT: nat := 0x1_0000_0000_0000_0000_0000_0000_0000

  predicate Unspecified(ip: Ip) {
    ip == V4(0) || ip == V6(0)
  }

  predicate Multicast(ip: Ip) {
    match ip
    case V4(a) => 0xE000_0000 <= a < 0xF000_0000
    case V6(a) => a >= 0xFF00 * V6_UNIT
  }

  predicate LinkLocal6(ip: Ip) {
    ip.V6? && 0xFE80 * V6_UNIT <= ip.v6 < 0xFEC0 * V6_UNIT
  }

  predicate GatewayInCidr(gateway: Ip, c: Cidr) {
    gateway != c.ip
    && match (gateway, c.ip)
       case (V4(g), V4(a)) => c.len <= 32 && Contains4(a, c.len, g)
       case (V6(g), V6(a)) => c.len <= 128 && Contains6(a, c.len, g)
       case _ => false
  }

  predicate ReachesOver(gateway: Ip, addresses: seq<Cidr>) {
    exists i :: 0 <= i < |addresses| && GatewayInCidr(gateway, addresses[i])
  }

  predicate ViaManagement(state: DesiredState, gateway: Ip, dev: Option<string>) {
    exists i :: 0 <= i < |state.interfaces| && state.interfaces[i].role == Mgmt
                && (dev == Some(state.interfaces[i].name) || ReachesOver(gateway, state.interfaces[i].addresses))
  }

  /** An interface's addresses as the next-hop check sees them: the first
      LAN's name also has the LAN host address of an explicit prefix. */
  function OnLinkAddresses(state: DesiredState, i: Iface): seq<Cidr> {
    var lan := FirstLan(state.interfaces);
    if lan.Some? && lan.value.name == i.name && state.lanPrefix.Some? && FirstHost(state.lanPrefix.value).Some?
    then i.addresses + [Cidr(V4(FirstHost(state.lanPrefix.value).value), state.lanPrefix.value.len)]
    else i.addresses
  }

  predicate NextHopOnLink(state: DesiredState, gateway: Ip, dev: Option<string>) {
    || (exists i :: 0 <= i < |state.interfaces| && state.interfaces[i].role != Mgmt
                    && (dev.None? || dev.value == state.interfaces[i].name)
                    && ReachesOver(gateway, OnLinkAddresses(state, state.interfaces[i])))
    || (exists i :: 0 <= i < |state.wireguard| && (dev.None? || dev.value == state.wireguard[i].name)
                    && ReachesOver(gateway, state.wireguard[i].addresses))
  }

  function CheckRoute(state: DesiredState, r: StaticRoute, seen: set<Cidr>): Outcome {
    if !WellFormed(r.to) then Some(InvalidDestination)
    else if !Canonical(r.to) || r.to in seen then Some(InvalidDestination)
    else if !SameFamily(r.to.ip, r.via) || Unspecified(r.via) || Multicast(r.via) then Some(UnusableNextHop)
    else if LinkLocal6(r.via) && r.dev.None? then Some(LinkLocalNeedsInterface)
    else if r.dev.Some? && !KnownDevice(state, r.dev.value) then Some(UnknownRouteInterface)
    else if ViaManagement(state, r.via, r.dev) then Some(ManagementGateway)
    else if !NextHopOnLink(state, r.via, r.dev) then Some(NextHopNotOnLink)
    else None
  }

  function CheckRoutes(state: DesiredState, routes: seq<StaticRoute>, seen: set<Cidr>): Outcome {
    if routes == [] then None
    else if CheckRoute(state, routes[0], seen).Some? then CheckRoute(state, routes[0], seen)
    else CheckRoutes(state, routes[1..], seen + {routes[0].to})
  }

  // ----- roles --------------------------------------------------------------

  function CheckMgmt(i: Iface): Outcome {
    if i.vlan.Some? || i.parent.Some? || '.' in i.name then Some(MgmtSharesParent)
    else if i.dhcp then Some(MgmtDhcp)
    else if i.addresses == [] then Some(MgmtWithoutPrefix)
    else None
  }

  function CheckRole(i: Iface): Outcome {
    if i.placement == "mgmt" then Some(MgmtPlacement)
    else if i.role.UnknownRole? then Some(UnknownRoleText)
    else if i.role == Mgmt then CheckMgmt(i)
    else None
  }

  function WithRole(interfaces: seq<Iface>, role: Role): (r: seq<Iface>)
    ensures forall i :: i in r <==> i in interfaces && i.role == role
  {
    if interfaces == [] then []
    else
      assert forall i :: i in interfaces <==> i == interfaces[0] || i in interfaces[1..];
      (if interfaces[0].role == role then [interfaces[0]] else []) + WithRole(interfaces[1..], role)
  }

  /** The text before the last dot, or the whole name. */
  function BeforeLastDot(name: string, end: nat): string
    requires end <= |name|
  {
    if end == 0 then name
    else if name[end - 1] == '.' then name[..end - 1]
    else BeforeLastDot(name, end - 1)
  }

  /** The physical link and tag an interface stands on. */
  function L2Key(i: Iface): (string, Option<nat>) {
    (if i.parent.Some? then i.parent.value else if i.vlan.Some? then BeforeLastDot(i.name, |i.name|)
      else i.name, i.vlan)
  }

  function CheckLinks(wans: seq<Iface>, lans: seq<Iface>, mgmts: seq<Iface>): Outcome {
    if exists w, l :: 0 <= w < |wans| && 0 <= l < |lans| && L2Key(wans[w]) == L2Key(lans[l]) then Some(SharedLink)
    else if exists i, m :: 0 <= i < |wans + lans| && 0 <= m < |mgmts| && L2Key((wans + lans)[i]).0 == L2Key(mgmts[m]).0
    then Some(SharedManagementParent)
    else None
  }

  function CheckExposed(interfaces: seq<Iface>, name: string): Outcome {
    var iface := FindIface(interfaces, name);
    if iface.None? then Some(ExposureUnknown)
    else if iface.value.role == Wan then Some(ExposureOnWan)
    else None
  }

  function CheckMgmtExposed(state: DesiredState, i: Iface): Outcome {
    if i.name in state.uiExposure then None else Some(MgmtNotExposed)
  }

  function CheckRoles(state: DesiredState): Outcome {
    var wans, lans, mgmts := WithRole(state.interfaces, Wan), WithRole(state.interfaces, Lan),
        WithRole(state.interfaces, Mgmt);
    if wans == [] then Some(NoWan)
    else if lans == [] then Some(NoLan)
    else if CheckLinks(wans, lans, mgmts).Some? then CheckLinks(wans, lans, mgmts)
    else if state.uiExposure == [] then Some(NoExposure)
    else
      var exposed := FirstRefusal(state.uiExposure, name => CheckExposed(state.interfaces, name));
      if exposed.Some? then exposed
      else FirstRefusal(mgmts, i => CheckMgmtExposed(state, i))
  }

  // ----- the whole ------------------------------------------------------------

  function Or(first: Outcome, second: Outcome): Outcome {
    if first.Some? then first else second
  }

  function CheckAddressing(state: DesiredState): Outcome {
    match Addressing.Addressing(state.lanPrefix, state.dhcpPool, state.wanPd)
    case Ok(_) => None
    case Err(e) => Some(BadAddressing(e))
  }

  function Validate(state: DesiredState): Outcome {
    Or(FirstRefusal(state.interfaces, CheckIface),
    Or(CheckAddressing(state),
    Or(CheckLanServices(state),
    Or(CheckIpv6(state),
    Or(FirstRefusal(state.nftExtra, rule => CheckPolicyRule(state.interfaces, rule)),
    Or(CheckTunnels(state.wireguard, {}),
    Or(FirstRefusal(state.qdiscs, q => CheckQdisc(state, q)),
    Or(CheckRoutes(state, state.routes, {}),
    Or(FirstRefusal(state.interfaces, CheckRole),
       CheckRoles(state))))))))))
  }

  // ----- what it accepts, without the loops -----------------------------------

  predicate DistinctTunnels(tunnels: seq<Wg>) {
    forall i, j :: 0 <= i < j < |tunnels| ==> tunnels[i].name != tunnels[j].name
  }

  lemma {:induction false} TunnelsAccepted(tunnels: seq<Wg>, seen: set<string>)
    ensures CheckTunnels(tunnels, seen).None? <==>
      && DistinctTunnels(tunnels)
      && forall i :: 0 <= i < |tunnels| ==> tunnels[i].name !in seen && TunnelUsable(tunnels[i])
  {
    if tunnels != [] {
      var wg, rest := tunnels[0], tunnels[1..];
      TunnelsAccepted(rest, seen + {wg.name});
      assert forall i :: 0 < i < |tunnels| ==> tunnels[i] == rest[i - 1];
      if CheckTunnels(tunnels, seen).None? {
        forall i, j | 0 <= i < j < |tunnels|
          ensures tunnels[i].name != tunnels[j].name
        {
          assert rest[j - 1].name !in seen + {wg.name};
        }
      } else if wg.name !in seen && TunnelUsable(wg) && CheckTunnels(rest, seen + {wg.name}).Some? {
        if DistinctTunnels(tunnels) { assert DistinctTunnels(rest); }
      }
    }
  }

  lemma {:induction false} RoutesAccepted(state: DesiredState, routes: seq<StaticRoute>, seen: set<Cidr>)
    ensures CheckRoutes(state, routes, seen).None? <==>
      && DistinctDestinations(routes)
      && forall i :: 0 <= i < |routes| ==> routes[i].to !in seen && CheckRoute(state, routes[i], {}).None?
  {
    hide KnownDevice, ViaManagement, NextHopOnLink, Canonical;
    if routes != [] {
      var r, rest := routes[0], routes[1..];
      RoutesAccepted(state, rest, seen + {r.to});
      assert forall i :: 0 < i < |routes| ==> routes[i] == rest[i - 1];
      if CheckRoutes(state, routes, seen).None? {
        forall i, j | 0 <= i < j < |routes|
          ensures routes[i].to != routes[j].to
        {
          assert rest[j - 1].to !in seen + {r.to};
        }
      } else if r.to !in seen && CheckRoute(state, r, {}).None? {
        if DistinctDestinations(routes) { assert DistinctDestinations(rest); }
      }
    }
  }

  predicate OneRequester(interfaces: seq<Iface>) {
    forall i, j :: 0 <= i < j < |interfaces| ==> !(interfaces[i].requestPd && interfaces[j].requestPd)
  }

  lemma {:induction false} RequestingCounts(interfaces: seq<Iface>)
    ensures Requesting(interfaces) == 0 <==> forall i :: 0 <= i < |interfaces| ==> !interfaces[i].requestPd
    ensures Requesting(interfaces) <= 1 <==> OneRequester(interfaces)
  {
    if interfaces != [] {
      var rest := interfaces[1..];
      RequestingCounts(rest);
      assert forall i :: 0 < i < |interfaces| ==> interfaces[i] == rest[i - 1];
      if OneRequester(rest) && !interfaces[0].requestPd {
        assert OneRequester(interfaces);
      }
      if OneRequester(interfaces) {
        forall i, j | 0 <= i < j < |rest|
          ensures !(rest[i].requestPd && rest[j].requestPd)
        {
          assert rest[i] == interfaces[i + 1] && rest[j] == interfaces[j + 1];
        }
      }
    }
  }

  /** No two of these roles meet on one physical link. */
  predicate LinksApart(interfaces: seq<Iface>) {
    forall a, b :: a in interfaces && b in interfaces ==>
      && (a.role == Wan && b.role == Lan ==> L2Key(a) != L2Key(b))
      && ((a.role == Wan || a.role == Lan) && b.role == Mgmt ==> L2Key(a).0 != L2Key(b).0)
  }

  predicate RolesPass(state: DesiredState) {
    && (exists i :: i in state.interfaces && i.role == Wan)
    && (exists i :: i in state.interfaces && i.role == Lan)
    && LinksApart(state.interfaces)
    && state.uiExposure != []
    && (forall k :: 0 <= k < |state.uiExposure| ==> CheckExposed(state.interfaces, state.uiExposure[k]).None?)
    && (forall i :: i in state.interfaces && i.role == Mgmt ==> i.name in state.uiExposure)
  }

  lemma LinksAccepted(interfaces: seq<Iface>, wans: seq<Iface>, lans: seq<Iface>, mgmts: seq<Iface>)
    requires wans == WithRole(interfaces, Wan) && lans == WithRole(interfaces, Lan)
        && mgmts == WithRole(interfaces, Mgmt)
    ensures CheckLinks(wans, lans, mgmts).None? <==> LinksApart(interfaces)
  {
    hide L2Key, WithRole;
    var ends := wans + lans;
    if CheckLinks(wans, lans, mgmts).None? {
      forall a, b | a in interfaces && b in interfaces
        ensures a.role == Wan && b.role == Lan ==> L2Key(a) != L2Key(b)
        ensures (a.role == Wan || a.role == Lan) && b.role == Mgmt ==> L2Key(a).0 != L2Key(b).0
      {
        if a.role == Wan && b.role == Lan {
          assert a in wans && b in lans;
        } else if (a.role == Wan || a.role == Lan) && b.role == Mgmt {
          assert a in ends && b in mgmts;
        }
      }
    } else if w, l :| 0 <= w < |wans| && 0 <= l < |lans| && L2Key(wans[w]) == L2Key(lans[l]) {
      assert wans[w] in interfaces && lans[l] in interfaces;
    } else {
      var i, m :| 0 <= i < |ends| && 0 <= m < |mgmts| && L2Key(ends[i]).0 == L2Key(mgmts[m]).0;
      assert ends[i] in wans || ends[i] in lans;
      assert ends[i] in interfaces && mgmts[m] in interfaces;
    }
  }

  lemma RoleFilled(interfaces: seq<Iface>, role: Role)
    ensures WithRole(interfaces, role) != [] <==> exists i :: i in interfaces && i.role == role
  {
    var filled := WithRole(interfaces, role);
    if filled != [] { assert filled[0] in filled; }
  }

  lemma MgmtExposureAccepted(state: DesiredState, mgmts: seq<Iface>)
    requires mgmts == WithRole(state.interfaces, Mgmt)
    ensures FirstRefusal(mgmts, i => CheckMgmtExposed(state, i)).None? <==>
              forall i :: i in state.interfaces && i.role == Mgmt ==> i.name in state.uiExposure
  {
    hide WithRole, FirstRefusal;
    FirstRefusalNone(mgmts, i => CheckMgmtExposed(state, i));
    if FirstRefusal(mgmts, i => CheckMgmtExposed(state, i)).None? {
      forall i | i in state.interfaces && i.role == Mgmt
        ensures i.name in state.uiExposure
      {
        assert i in mgmts;
      }
    } else {
      var k :| 0 <= k < |mgmts| && CheckMgmtExposed(state, mgmts[k]).Some?;
      assert mgmts[k] in mgmts;
    }
  }

  lemma RolesChecked(state: DesiredState)
    ensures CheckRoles(state).None? <==> RolesPass(state)
  {
    hide LinksApart, CheckExposed, CheckLinks, WithRole, FirstRefusal;
    RoleFilled(state.interfaces, Wan);
    RoleFilled(state.interfaces, Lan);
    var wans, lans, mgmts := WithRole(state.interfaces, Wan), WithRole(state.interfaces, Lan),
        WithRole(state.interfaces, Mgmt);
    LinksAccepted(state.interfaces, wans, lans, mgmts);
    FirstRefusalNone(state.uiExposure, name => CheckExposed(state.interfaces, name));
    MgmtExposureAccepted(state, mgmts);
  }

  predicate EveryCheckPasses(state: DesiredState) {
    && (forall i :: 0 <= i < |state.interfaces| ==>
          CheckIface(state.interfaces[i]).None? && CheckIpv6Iface(state.interfaces[i]).None?
            && CheckRole(state.interfaces[i]).None?)
    && CheckAddressing(state).None?
    && CheckLanServices(state).None?
    && OneRequester(state.interfaces)
    && (state.wanPd.Some? ==> forall i :: 0 <= i < |state.interfaces| ==> !state.interfaces[i].requestPd)
    && PolicyAccepted(state)
    && DistinctTunnels(state.wireguard)
    && (forall i :: 0 <= i < |state.wireguard| ==> TunnelUsable(state.wireguard[i]))
    && (forall i :: 0 <= i < |state.qdiscs| ==> CheckQdisc(state, state.qdiscs[i]).None?)
    && DistinctDestinations(state.routes)
    && (forall i :: 0 <= i < |state.routes| ==> CheckRoute(state, state.routes[i], {}).None?)
    && RolesPass(state)
  }

  lemma ValidatedPolicy(state: DesiredState)
    requires Validate(state).None?
    ensures PolicyAccepted(state)
  {
    hide CheckRoutes, CheckTunnels, CheckRoles, CheckLanServices, CheckAddressing, CheckIpv6, CheckPolicyRule;
    FirstRefusalNone(state.nftExtra, rule => CheckPolicyRule(state.interfaces, rule));
  }

  /** The validator's verdict does not depend on the order of its checks or on
      what its loops remember. */
  lemma ValidateChecks(state: DesiredState)
    ensures Validate(state).None? <==> EveryCheckPasses(state)
  {
    hide CheckIface, CheckIpv6Iface, CheckRole, CheckAddressing, CheckLanServices, CheckPolicyRule, TunnelUsable,
         CheckQdisc, CheckRoute;
    hide CheckRoles, RolesPass, DistinctTunnels, DistinctDestinations, OneRequester;
    FirstRefusalNone(state.interfaces, CheckIface);
    FirstRefusalNone(state.interfaces, CheckIpv6Iface);
    FirstRefusalNone(state.interfaces, CheckRole);
    RequestingCounts(state.interfaces);
    FirstRefusalNone(state.nftExtra, rule => CheckPolicyRule(state.interfaces, rule));
    TunnelsAccepted(state.wireguard, {});
    FirstRefusalNone(state.qdiscs, q => CheckQdisc(state, q));
    RoutesAccepted(state, state.routes, {});
    RolesChecked(state);
  }

  lemma ValidatedRoutes(state: DesiredState)
    requires Validate(state).None?
    ensures DistinctDestinations(state.routes)
  {
    hide Validate;
    ValidateChecks(state);
  }

  /** A LAN that offers the UI, and a WAN. */
  function LanAndWan(lan: Iface, wan: Iface, prefix: Option<Cidr>, routes: seq<StaticRoute>): DesiredState {
    DesiredState(1, [lan, wan], [], routes, [], [], None, prefix, None, None, [lan.name], false)
  }

  lemma LanAndWanValidate(lan: Iface, wan: Iface, prefix: Option<Cidr>, routes: seq<StaticRoute>)
    requires lan == Iface("lan0", "", Lan, lan.addresses, None, None, false, None, false)
    requires wan == Iface("wan0", "", Wan, [], None, None, false, None, false)
    requires forall k :: 0 <= k < |lan.addresses| ==> WellFormed(lan.addresses[k])
    requires CheckAddressing(LanAndWan(lan, wan, prefix, routes)).None?
    requires CheckLanServices(LanAndWan(lan, wan, prefix, routes)).None?
    requires DistinctDestinations(routes)
    requires forall i :: 0 <= i < |routes| ==> CheckRoute(LanAndWan(lan, wan, prefix, routes), routes[i], {}).None?
    ensures Validate(LanAndWan(lan, wan, prefix, routes)).None?
  {
    hide Validate, CheckAddressing, CheckLanServices, CheckRoute, WellFormed;
    var state := LanAndWan(lan, wan, prefix, routes);
    assert lan in state.interfaces && wan in state.interfaces by {
      assert state.interfaces[0] == lan && state.interfaces[1] == wan;
    }
    assert CheckIface(lan).None? && CheckIface(wan).None?;
    assert L2Key(lan) == ("lan0", None) && L2Key(wan) == ("wan0", None);
    ValidateChecks(state);
  }
}
