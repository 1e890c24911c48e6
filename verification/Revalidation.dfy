/** netd validates a state before it programs it, and programming rewrites it.
    The rewritten state is what is Accepted, and what every boot and every
    recovery validates again: when is it still valid? */
module Revalidation {
  import opened Common
  import opened Desired
  import opened Addressing
  import opened Validation
  import opened LiveState

  // ----- the LAN services ---------------------------------------------------------

  lemma BlockIsPower(len: nat)
    requires len <= 24
    ensures Block4(len) % 256 == 0
  {
    hide Pow2;
    Pow2Splits(24 - len, 8);
    Pow2Is256();
    assert Pow2(24 - len + 8) == Pow2(24 - len) * 256;
    assert (Pow2(24 - len) * 256) % 256 == 0;
  }

  lemma Pow2Is256()
    ensures Pow2(8) == 256
  {
    assert Pow2(4) == 16;
    Pow2Splits(4, 4);
  }

  lemma BlockDivides(len: nat)
    requires 24 < len <= 30
    ensures Block4(len) >= 4 && 256 % Block4(len) == 0
  {
    assert Pow2(2) == 4 && Pow2(3) == 8 && Pow2(4) == 16;
    assert Pow2(5) == 32 && Pow2(6) == 64 && Pow2(7) == 128;
    var k := 32 - len;
    assert k == 2 || k == 3 || k == 4 || k == 5 || k == 6 || k == 7;
  }

  /** The first host of a usable prefix lies in it. */
  lemma HostInPrefix(prefix: Cidr)
    requires prefix.ip.V4? && 1 <= prefix.len <= 30
    ensures FirstHost(prefix).Some?
    ensures Network4(Cidr(V4(FirstHost(prefix).value), prefix.len)) == Network4(prefix)
  {
    hide Pow2;
    var ip, block := prefix.ip.v4, Block4(prefix.len);
    if ip % 256 == 0 {
      assert ip % block < block - 1 by {
        if prefix.len <= 24 {
          BlockIsPower(prefix.len);
          RemainderIsMultiple(ip, block);
        } else {
          BlockDivides(prefix.len);
          MultipleDivides(ip, block);
        }
      }
      MultipleInside(ip, block, ip + 1);
    }
  }

  lemma RemainderIsMultiple(ip: nat, block: nat)
    requires block > 0 && block % 256 == 0 && ip % 256 == 0
    ensures ip % block < block - 1
  {
    var q := block / 256;
    assert block == 256 * q;
    var r := ip % block;
    assert ip == block * (ip / block) + r;
    assert block * (ip / block) == 256 * (q * (ip / block));
    var t := q * (ip / block);
    assert r == ip - 256 * t;
    assert r % 256 == 0;
  }

  lemma MultipleDivides(ip: nat, block: nat)
    requires block >= 4 && 256 % block == 0 && ip % 256 == 0
    ensures ip % block == 0
  {
    var m, n := 256 / block, ip / 256;
    assert 256 == block * m && ip == 256 * n;
    assert ip == block * (m * n);
    DivisibleHasNoRemainder(block, m * n);
  }

  lemma DivisibleHasNoRemainder(block: nat, n: nat)
    requires block > 0
    ensures (block * n) % block == 0
  {
    RoundDownIsMultiple(block * n, block);
    ProductsApart(block, (block * n) / block, n);
    ProductsApart(block, n, (block * n) / block);
  }

  /** The router's own IP is on the LAN at another length only: it is not
      merged, and no address of the LAN lies in the prefix's network. */
  predicate ShadowedPrefix(state: DesiredState) {
    var lan, host, prefix := FirstLan(state.interfaces), LanHost(state), LanPrefix(state);
    lan.Some? && host.Some? && prefix.Some? && HostShadowed(state.interfaces, host.value)
    && (Network4(prefix.value).None? || Network4(prefix.value).value !in Networks(lan.value.addresses))
  }

  lemma {:induction false} FirstLanMerged(interfaces: seq<Iface>, host: Cidr)
    ensures FirstLan(MergeHost(interfaces, host)).Some? == FirstLan(interfaces).Some?
    ensures FirstLan(interfaces).Some? ==>
      var lan := FirstLan(interfaces).value;
      FirstLan(MergeHost(interfaces, host)).value ==
        if SharesIp(lan.addresses, host) then lan else lan.(addresses := lan.addresses + [host])
  {
    if interfaces != [] && !IsLan(interfaces[0]) {
      FirstLanMerged(interfaces[1..], host);
      assert MergeHost(interfaces, host)[1..] == MergeHost(interfaces[1..], host);
    }
  }

  lemma NetworksAppend(addresses: seq<Cidr>, c: Cidr)
    requires Network4(c).Some?
    ensures Network4(c).value in Networks(addresses + [c])
  {
    assert (addresses + [c])[|addresses|] == c;
  }

  lemma SharedIpHasNetwork(addresses: seq<Cidr>, host: Cidr)
    requires SharesIp(addresses, host) && host.ip.V4? && forall k :: 0 <= k < |addresses| ==> WellFormed(addresses[k])
    ensures Networks(addresses) != {}
  {
    var i :| 0 <= i < |addresses| && addresses[i].ip == host.ip;
    assert WellFormed(addresses[i]);
    assert Network4(addresses[i]).value in Networks(addresses);
  }

  lemma UsablePrefix(state: DesiredState)
    requires CheckAddressing(state).None? && LanPrefix(state).Some?
    ensures LanPrefix(state).value.ip.V4? && 1 <= LanPrefix(state).value.len <= 30
    ensures Network4(LanPrefix(state).value).Some?
  {
    hide DelegateLan, Contains4, RoundDown;
  }

  /** Merging the LAN host address satisfies the LAN services check, unless
      the prefix is shadowed. */
  lemma MergedLanServices(state: DesiredState)
    requires CheckAddressing(state).None?
    requires FirstLan(state.interfaces).Some? ==>
               forall k :: 0 <= k < |FirstLan(state.interfaces).value.addresses| ==>
                 WellFormed(FirstLan(state.interfaces).value.addresses[k])
    ensures CheckLanServices(Merged(state)).None? <==> !ShadowedPrefix(state)
  {
    var prefix, lan := LanPrefix(state), FirstLan(state.interfaces);
    if LanHost(state).Some? { FirstLanMerged(state.interfaces, LanHost(state).value); }
    if prefix.Some? && lan.Some? {
      UsablePrefix(state);
      HostInPrefix(prefix.value);
      var host := LanHost(state).value;
      hide FirstHost, RoundDown, Block4, MergeHost, FirstLan, CheckAddressing, Networks, Network4;
      var merged := FirstLan(Merged(state).interfaces).value;
      assert Merged(state) == state.(interfaces := MergeHost(state.interfaces, host));
      assert LanPrefix(Merged(state)) == prefix;
      if SharesIp(lan.value.addresses, host) {
        SharedIpHasNetwork(lan.value.addresses, host);
        assert merged == lan.value;
      } else {
        NetworksAppend(lan.value.addresses, host);
        assert Network4(prefix.value).value in Networks(merged.addresses);
      }
    }
  }

  // ----- everything else ----------------------------------------------------------

  /** Addresses appended to interfaces that are not Management NICs, under any
      revision. */
  predicate Rewritten(a: DesiredState, b: DesiredState) {
    && b == a.(interfaces := b.interfaces, revision := b.revision)
    && |b.interfaces| == |a.interfaces|
    && forall i :: 0 <= i < |a.interfaces| ==>
         && b.interfaces[i] == a.interfaces[i].(addresses := b.interfaces[i].addresses)
         && a.interfaces[i].addresses <= b.interfaces[i].addresses
         && (a.interfaces[i].role == Mgmt && a.interfaces[i].addresses != [] ==> b.interfaces[i] == a.interfaces[i])
         && forall k :: 0 <= k < |b.interfaces[i].addresses| ==>
              b.interfaces[i].addresses[k] in a.interfaces[i].addresses || WellFormed(b.interfaces[i].addresses[k])
  }

  lemma IfaceChecksRewritten(a: Iface, b: Iface)
    requires b == a.(addresses := b.addresses) && a.addresses <= b.addresses
    requires forall k :: 0 <= k < |b.addresses| ==> b.addresses[k] in a.addresses || WellFormed(b.addresses[k])
    ensures CheckIface(a).None? ==> CheckIface(b).None?
    ensures CheckIpv6Iface(a) == CheckIpv6Iface(b)
    ensures CheckRole(a).None? ==> CheckRole(b).None?
    ensures L2Key(a) == L2Key(b)
  {
    hide InterfaceName, BeforeLastDot;
  }

  lemma {:induction false} PlacesRewritten(a: seq<Iface>, b: seq<Iface>, name: string)
    requires |a| == |b| && forall i :: 0 <= i < |a| ==> b[i] == a[i].(addresses := b[i].addresses)
    ensures FirstLan(a).Some? == FirstLan(b).Some?
        && (FirstLan(a).Some? ==> FirstLan(a).value.name == FirstLan(b).value.name)
    ensures FindIface(a, name).Some? == FindIface(b, name).Some?
    ensures FindIface(a, name).Some? ==> FindIface(a, name).value.role == FindIface(b, name).value.role
  {
    if a != [] { PlacesRewritten(a[1..], b[1..], name); }
  }

  lemma ReachesMore(gateway: Ip, a: seq<Cidr>, b: seq<Cidr>)
    requires ReachesOver(gateway, a) && forall k :: 0 <= k < |a| ==> a[k] in b
    ensures ReachesOver(gateway, b)
  {
    hide GatewayInCidr;
    var k :| 0 <= k < |a| && GatewayInCidr(gateway, a[k]);
    var j :| 0 <= j < |b| && b[j] == a[k];
  }

  lemma RouteRewritten(a: DesiredState, b: DesiredState, r: StaticRoute)
    requires Rewritten(a, b) && CheckRoute(a, r, {}).None?
    requires forall i :: 0 <= i < |a.interfaces| ==> CheckRole(a.interfaces[i]).None?
    ensures CheckRoute(b, r, {}).None?
  {
    hide CheckMgmt, Canonical, GatewayInCidr, ReachesOver, FirstHost, FirstLan;
    PlacesRewritten(a.interfaces, b.interfaces, "");
    assert ViaManagement(b, r.via, r.dev) == ViaManagement(a, r.via, r.dev) by
        { ManagementRewritten(a, b, r.via, r.dev); }
    NextHopRewritten(a, b, r.via, r.dev);
    if r.dev.Some? { KnownRewritten(a, b, r.dev.value); }
  }

  lemma KnownRewritten(a: DesiredState, b: DesiredState, dev: string)
    requires Rewritten(a, b)
    ensures KnownDevice(a, dev) == KnownDevice(b, dev)
  {
    assert forall i :: 0 <= i < |a.interfaces| ==> a.interfaces[i].name == b.interfaces[i].name;
  }

  lemma ManagementRewritten(a: DesiredState, b: DesiredState, gateway: Ip, dev: Option<string>)
    requires Rewritten(a, b)
    requires forall i :: 0 <= i < |a.interfaces| ==> CheckRole(a.interfaces[i]).None?
    ensures ViaManagement(a, gateway, dev) == ViaManagement(b, gateway, dev)
  {
    hide ReachesOver;
    forall i | 0 <= i < |a.interfaces| && (a.interfaces[i].role == Mgmt || b.interfaces[i].role == Mgmt)
      ensures a.interfaces[i] == b.interfaces[i]
    {
      assert CheckRole(a.interfaces[i]).None?;
    }
  }

  lemma NextHopRewritten(a: DesiredState, b: DesiredState, gateway: Ip, dev: Option<string>)
    requires Rewritten(a, b) && NextHopOnLink(a, gateway, dev)
    ensures NextHopOnLink(b, gateway, dev)
  {
    hide ReachesOver, FirstHost, FirstLan;
    PlacesRewritten(a.interfaces, b.interfaces, "");
    if i :| 0 <= i < |a.interfaces| && a.interfaces[i].role != Mgmt
            && (dev.None? || dev.value == a.interfaces[i].name)
            && ReachesOver(gateway, OnLinkAddresses(a, a.interfaces[i])) {
      ReachesMore(gateway, OnLinkAddresses(a, a.interfaces[i]), OnLinkAddresses(b, b.interfaces[i]));
    }
  }

  lemma LinksRewritten(a: DesiredState, b: DesiredState)
    requires Rewritten(a, b) && LinksApart(a.interfaces)
    ensures LinksApart(b.interfaces)
  {
    hide L2Key;
    forall x, y | x in b.interfaces && y in b.interfaces
      ensures x.role == Wan && y.role == Lan ==> L2Key(x) != L2Key(y)
      ensures (x.role == Wan || x.role == Lan) && y.role == Mgmt ==> L2Key(x).0 != L2Key(y).0
    {
      var i :| 0 <= i < |b.interfaces| && b.interfaces[i] == x;
      var j :| 0 <= j < |b.interfaces| && b.interfaces[j] == y;
      assert a.interfaces[i] in a.interfaces && a.interfaces[j] in a.interfaces;
      IfaceChecksRewritten(a.interfaces[i], x);
      IfaceChecksRewritten(a.interfaces[j], y);
    }
  }

  lemma RolesRewritten(a: DesiredState, b: DesiredState)
    requires Rewritten(a, b) && RolesPass(a)
    ensures RolesPass(b)
  {
    LinksRewritten(a, b);
    RoleRewritten(a, b, Wan);
    RoleRewritten(a, b, Lan);
    hide LinksApart, CheckExposed;
    forall k | 0 <= k < |b.uiExposure|
      ensures CheckExposed(b.interfaces, b.uiExposure[k]).None?
    {
      ExposureRewritten(a, b, k);
    }
    forall y | y in b.interfaces && y.role == Mgmt
      ensures y.name in b.uiExposure
    {
      var k :| 0 <= k < |b.interfaces| && b.interfaces[k] == y;
      assert a.interfaces[k] in a.interfaces;
    }
  }

  lemma RoleRewritten(a: DesiredState, b: DesiredState, role: Role)
    requires Rewritten(a, b) && exists i :: i in a.interfaces && i.role == role
    ensures exists i :: i in b.interfaces && i.role == role
  {
    var i :| i in a.interfaces && i.role == role;
    var k :| 0 <= k < |a.interfaces| && a.interfaces[k] == i;
    assert b.interfaces[k] in b.interfaces;
  }

  lemma ExposureRewritten(a: DesiredState, b: DesiredState, k: nat)
    requires Rewritten(a, b) && k < |a.uiExposure| && CheckExposed(a.interfaces, a.uiExposure[k]).None?
    ensures CheckExposed(b.interfaces, b.uiExposure[k]).None?
  {
    PlacesRewritten(a.interfaces, b.interfaces, a.uiExposure[k]);
  }

  /** Whatever addresses are added, only the LAN services check can refuse a
      state that was valid. */
  lemma RewrittenValid(a: DesiredState, b: DesiredState)
    requires Rewritten(a, b) && Validate(a).None?
    ensures Validate(b).None? <==> CheckLanServices(b).None?
  {
    hide CheckIface, CheckIpv6Iface, CheckRole, CheckLanServices, CheckPolicyRule, RolesPass, CheckRoute,
         DistinctTunnels, TunnelUsable;
    hide KnownDevice, Addressing.Addressing, DistinctDestinations, PolicyAccepted, Validate;
    ValidateChecks(a);
    ValidateChecks(b);
    forall i | 0 <= i < |a.interfaces|
      ensures CheckIface(b.interfaces[i]).None? && CheckIpv6Iface(b.interfaces[i]).None?
          && CheckRole(b.interfaces[i]).None?
    {
      IfaceChecksRewritten(a.interfaces[i], b.interfaces[i]);
    }
    PolicyRenumbered(a, b.revision);
    PolicyExtends(a.(revision := b.revision), b);
    RolesRewritten(a, b);
    forall i | 0 <= i < |b.routes|
      ensures CheckRoute(b, b.routes[i], {}).None?
    {
      RouteRewritten(a, b, b.routes[i]);
    }
    forall i | 0 <= i < |b.qdiscs|
      ensures CheckQdisc(b, b.qdiscs[i]).None?
    {
      assert CheckQdisc(a, a.qdiscs[i]).None?;
      KnownRewritten(a, b, b.qdiscs[i].dev);
    }
  }

  lemma {:induction false} MergeHostAppends(interfaces: seq<Iface>, host: Cidr)
    ensures |MergeHost(interfaces, host)| == |interfaces|
    ensures forall i :: 0 <= i < |interfaces| ==>
      || MergeHost(interfaces, host)[i] == interfaces[i]
      || (IsLan(interfaces[i]) && MergeHost(interfaces, host)[i]
          == interfaces[i].(addresses := interfaces[i].addresses + [host]))
  {
    if interfaces != [] && !IsLan(interfaces[0]) {
      MergeHostAppends(interfaces[1..], host);
      assert forall i :: 0 < i < |interfaces| ==> interfaces[i] == interfaces[1..][i - 1];
    }
  }

  lemma HostIsWellFormed(state: DesiredState)
    requires LanHost(state).Some? && LanPrefix(state).value.len <= 30
    ensures WellFormed(LanHost(state).value)
  {
  }

  lemma FilledIsRewritten(state: DesiredState, filled: DesiredState)
    requires FilledFrom(state, filled) && CheckAddressing(state).None?
    ensures Rewritten(state, Merged(filled)) && CheckAddressing(filled) == CheckAddressing(state)
  {
    hide FirstHost, DelegateLan, Contains4, RoundDown, Addressing.Addressing, MergeHost;
    assert CheckAddressing(filled) == CheckAddressing(state);
    if LanHost(filled).Some? {
      UsablePrefix(filled);
      HostIsWellFormed(filled);
      MergeHostAppends(filled.interfaces, LanHost(filled).value);
    }
  }

  /** A valid state, as programming rewrites it, is valid again exactly unless
      its LAN had no addresses, and those captured shadow the prefix. When it
      is not, the state just Accepted cannot be programmed again: no boot and
      no recovery gets past the validator. */
  lemma Revalidates(state: DesiredState, filled: DesiredState)
    requires Validate(state).None? && FilledFrom(state, filled)
    ensures Validate(Merged(filled)).None? <==> !ShadowedPrefix(filled)
  {
    hide Validate, ShadowedPrefix, Rewritten, CheckLanServices, CheckAddressing;
    ValidatedAddressing(state);
    FilledIsRewritten(state, filled);
    RewrittenValid(state, Merged(filled));
    LanStaysWellFormed(state, filled);
    MergedLanServices(filled);
  }

  lemma ValidatedAddressing(state: DesiredState)
    requires Validate(state).None?
    ensures CheckAddressing(state).None?
    ensures forall i :: 0 <= i < |state.interfaces| ==> CheckIface(state.interfaces[i]).None?
  {
    hide Validate;
    ValidateChecks(state);
  }

  lemma {:induction false} FirstLanIsListed(interfaces: seq<Iface>)
    ensures FirstLan(interfaces).Some? ==>
        exists i :: 0 <= i < |interfaces| && interfaces[i] == FirstLan(interfaces).value
  {
    if interfaces != [] {
      FirstLanIsListed(interfaces[1..]);
      assert forall i :: 0 < i < |interfaces| ==> interfaces[i] == interfaces[1..][i - 1];
    }
  }

  lemma LanStaysWellFormed(state: DesiredState, filled: DesiredState)
    requires FilledFrom(state, filled) && forall i :: 0 <= i < |state.interfaces| ==>
        CheckIface(state.interfaces[i]).None?
    ensures FirstLan(filled.interfaces).Some? ==>
      forall k :: 0 <= k < |FirstLan(filled.interfaces).value.addresses| ==>
        WellFormed(FirstLan(filled.interfaces).value.addresses[k])
  {
    hide InterfaceName;
    FirstLanIsListed(filled.interfaces);
    if FirstLan(filled.interfaces).Some? {
      var i :| 0 <= i < |filled.interfaces| && filled.interfaces[i] == FirstLan(filled.interfaces).value;
      assert CheckIface(state.interfaces[i]).None?;
    }
  }

  /** A LAN left to its live address 192.168.1.1/25 under the prefix
      192.168.1.0/24: accepted once, refused at every later validation. */
  lemma AcceptedOnce()
    ensures exists state, filled ::
      Validate(state).None? && FilledFrom(state, filled) && Validate(Merged(filled)).Some?
  {
    hide Validate, ShadowedPrefix, Merged, DelegateLan, Contains4;
    var lan := Iface("lan0", "", Lan, [], None, None, false, None, false);
    var wan := Iface("wan0", "", Wan, [], None, None, false, None, false);
    var live := lan.(addresses := [Cidr(V4(0xC0A8_0101), 25)]);
    var prefix := Some(Cidr(V4(0xC0A8_0100), 24));
    var state, filled := LanAndWan(lan, wan, prefix, []), LanAndWan(live, wan, prefix, []);
    LanAndWanValidate(lan, wan, prefix, []);
    assert FilledFrom(state, filled);
    AcceptedOnceShadowed(filled, live);
    Revalidates(state, filled);
  }

  lemma AcceptedOnceShadowed(filled: DesiredState, live: Iface)
    requires live == Iface("lan0", "", Lan, [Cidr(V4(0xC0A8_0101), 25)], None, None, false, None, false)
    requires filled.lanPrefix == Some(Cidr(V4(0xC0A8_0100), 24)) && filled.interfaces != []
        && filled.interfaces[0] == live
    ensures ShadowedPrefix(filled)
  {
    assert FirstLan(filled.interfaces) == Some(live);
    assert LanHost(filled) == Some(Cidr(V4(0xC0A8_0101), 24));
    assert live.addresses[0].ip == LanHost(filled).value.ip;
    forall n | n in Networks(live.addresses)
      ensures n.1 == 25
    {
    }
  }

  // ----- programming again and again --------------------------------------------------

  /** Programming this state captures nothing that could shadow its prefix. */
  predicate Anchored(d: DesiredState) {
    LanHost(d).None? || FirstLan(d.interfaces).None? || FirstLan(d.interfaces).value.addresses != []
  }

  /** `result` is what programming `state` may make of it. */
  ghost predicate Programs(state: DesiredState, result: DesiredState) {
    Validate(state).None? && exists filled :: FilledFrom(state, filled) && result == Merged(filled)
  }

  /** What some validated state became when it was programmed. */
  ghost predicate Programmed(result: DesiredState) {
    exists state :: Programs(state, result)
  }

  /** The interface the LAN host address is merged into. */
  predicate MergesAt(d: DesiredState, i: nat)
    requires i < |d.interfaces|
  {
    && IsLan(d.interfaces[i]) && (forall j :: 0 <= j < i ==> !IsLan(d.interfaces[j]))
    && LanHost(d).Some? && !SharesIp(d.interfaces[i].addresses, LanHost(d).value)
  }

  /** An interface with addresses of its own gains none but the LAN host
      address, and that one only once. */
  predicate OwnKept(a: DesiredState, b: DesiredState) {
    && |a.interfaces| == |b.interfaces|
    && forall i :: 0 <= i < |a.interfaces| && a.interfaces[i].addresses != [] ==>
         || b.interfaces[i].addresses == a.interfaces[i].addresses
         || (MergesAt(a, i) && b.interfaces[i].addresses == a.interfaces[i].addresses + [LanHost(a).value])
  }

  /** What programming any number of times makes of a state: an interface
      without addresses may gain any, one that has some only the LAN host
      address; a refused state stays as it is, and a valid anchored one stays
      valid and anchored. */
  ghost predicate Rewrites(a: DesiredState, b: DesiredState) {
    && Extends(a, b) && OwnKept(a, b)
    && (Validate(a).Some? ==> b == a)
    && (Validate(a).None? && Anchored(a) ==> Validate(b).None? && Anchored(b))
  }

  lemma RewritesReflexive(a: DesiredState)
    ensures Rewrites(a, a)
  {
    hide Validate, MergesAt;
    ExtendsReflexive(a);
  }

  lemma RewritesKeeps(a: DesiredState, b: DesiredState)
    requires Rewrites(a, b)
    ensures a.revision == b.revision && a.applyConfirmation == b.applyConfirmation
  {
    hide Validate;
    ExtendsKeeps(a, b);
  }

  lemma RewritesTransitive(a: DesiredState, b: DesiredState, c: DesiredState)
    requires Rewrites(a, b) && Rewrites(b, c)
    ensures Rewrites(a, c)
  {
    hide Validate, Extends, Anchored, OwnKept;
    ExtendsTransitive(a, b, c);
    OwnKeptTransitive(a, b, c);
  }

  lemma OwnKeptTransitive(a: DesiredState, b: DesiredState, c: DesiredState)
    requires Extends(a, b) && OwnKept(a, b) && OwnKept(b, c)
    ensures OwnKept(a, c)
  {
    hide FirstHost, LanPrefix;
    assert LanHost(b) == LanHost(a) by { SameLanHost(a, b); }
    forall i | 0 <= i < |a.interfaces| && a.interfaces[i].addresses != []
      ensures
        || c.interfaces[i].addresses == a.interfaces[i].addresses
        || (MergesAt(a, i) && c.interfaces[i].addresses == a.interfaces[i].addresses + [LanHost(a).value])
    {
      assert forall j :: 0 <= j < |a.interfaces| ==> IfaceExtends(a.interfaces[j], b.interfaces[j]);
      var own := a.interfaces[i].addresses;
      if b.interfaces[i].addresses != own {
        assert b.interfaces[i].addresses[|own|].ip == LanHost(a).value.ip;
      }
    }
  }

  lemma SameLanHost(a: DesiredState, b: DesiredState)
    requires Extends(a, b)
    ensures LanHost(a) == LanHost(b)
  {
  }

  lemma {:induction false} MergeHostAt(interfaces: seq<Iface>, host: Cidr, i: nat)
    requires i < |interfaces|
    ensures |MergeHost(interfaces, host)| == |interfaces|
    ensures MergeHost(interfaces, host)[i].addresses ==
            if IsLan(interfaces[i]) && (forall j :: 0 <= j < i ==> !IsLan(interfaces[j]))
               && !SharesIp(interfaces[i].addresses, host)
            then interfaces[i].addresses + [host] else interfaces[i].addresses
  {
    hide SharesIp, IfaceExtends, Desired.Extends;
    MergeHostExtends(interfaces, host);
    if i > 0 {
      if IsLan(interfaces[0]) {
        assert MergeHost(interfaces, host)[i] == interfaces[i];
      } else {
        MergeHostAt(interfaces[1..], host, i - 1);
        assert MergeHost(interfaces, host)[i] == MergeHost(interfaces[1..], host)[i - 1];
        assert forall j :: 0 < j < i ==> interfaces[j] == interfaces[1..][j - 1];
      }
    }
  }

  lemma ProgramKeepsOwn(state: DesiredState, filled: DesiredState)
    requires FilledFrom(state, filled)
    ensures OwnKept(state, Merged(filled))
  {
    hide FirstHost, LanPrefix, MergeHost, SharesIp;
    FilledExtends(state, filled);
    SameLanHost(state, filled);
    if LanHost(filled).Some? {
      forall i | 0 <= i < |state.interfaces|
        ensures |Merged(filled).interfaces| == |state.interfaces|
        ensures state.interfaces[i].addresses != [] ==>
          || Merged(filled).interfaces[i].addresses == state.interfaces[i].addresses
          || (MergesAt(state, i)
              && Merged(filled).interfaces[i].addresses == state.interfaces[i].addresses + [LanHost(state).value])
      {
        MergeHostAt(filled.interfaces, LanHost(filled).value, i);
        assert forall j :: 0 <= j < |state.interfaces| ==> IsLan(filled.interfaces[j]) == IsLan(state.interfaces[j]);
      }
      MergeHostExtends(filled.interfaces, LanHost(filled).value);
    }
  }

  lemma ValidateRenumbered(a: DesiredState, revision: nat)
    ensures Validate(a.(revision := revision)).None? <==> Validate(a).None?
    ensures Anchored(a.(revision := revision)) == Anchored(a)
  {
    hide Validate, CheckLanServices;
    var b := a.(revision := revision);
    assert CheckLanServices(a) == CheckLanServices(b) by { LanServicesRenumbered(a, revision); }
    if Validate(a).None? {
      ValidatedLanServices(a);
      RewrittenValid(a, b);
    }
    if Validate(b).None? {
      ValidatedLanServices(b);
      RewrittenValid(b, a);
    }
  }

  lemma LanServicesRenumbered(a: DesiredState, revision: nat)
    ensures CheckLanServices(a.(revision := revision)) == CheckLanServices(a)
  {
  }

  lemma ValidatedLanServices(a: DesiredState)
    requires Validate(a).None?
    ensures CheckLanServices(a).None?
  {
    hide Validate, CheckLanServices;
    ValidateChecks(a);
  }

  lemma RewritesRenumbered(a: DesiredState, b: DesiredState, revision: nat)
    requires Rewrites(a, b)
    ensures Rewrites(a.(revision := revision), b.(revision := revision))
  {
    hide Validate, Anchored;
    ValidateRenumbered(a, revision);
    ValidateRenumbered(b, revision);
    var c, d := a.(revision := revision), b.(revision := revision);
    assert Extends(c, d) by {
      forall i | 0 <= i < |a.interfaces|
        ensures IfaceExtends(c.interfaces[i], d.interfaces[i])
      {
        assert IfaceExtends(a.interfaces[i], b.interfaces[i]);
      }
    }
  }

  lemma EffectiveRewrites(a: DesiredState, b: DesiredState)
    requires Rewrites(a, b)
    ensures Rewrites(Effective(a), Effective(b))
  {
    hide Validate, Anchored, Extends;
    RewritesKeeps(a, b);
    if a.revision == 0 { RewritesRenumbered(a, b, 1); }
  }

  lemma EffectiveValid(a: DesiredState)
    ensures Validate(Effective(a)).None? <==> Validate(a).None?
  {
    hide Validate;
    if a.revision == 0 { ValidateRenumbered(a, 1); }
  }

  lemma {:induction false} FirstLanFilled(a: seq<Iface>, b: seq<Iface>)
    requires |a| == |b|
    requires forall i :: 0 <= i < |a| ==>
        b[i] == a[i] || (a[i].addresses == [] && b[i] == a[i].(addresses := b[i].addresses))
    ensures FirstLan(a).Some? == FirstLan(b).Some?
    ensures FirstLan(a).Some? && FirstLan(a).value.addresses != [] ==> FirstLan(b) == FirstLan(a)
  {
    if a != [] && !IsLan(a[0]) { FirstLanFilled(a[1..], b[1..]); }
  }

  lemma AnchoredIsNotShadowed(state: DesiredState, filled: DesiredState)
    requires Validate(state).None? && Anchored(state) && FilledFrom(state, filled)
    ensures !ShadowedPrefix(filled)
  {
    hide Validate, FirstHost, WellFormed, CheckAddressing, Networks;
    ValidatedAddressing(state);
    ValidatedLanServices(state);
    FirstLanFilled(state.interfaces, filled.interfaces);
    assert LanHost(filled) == LanHost(state) && LanPrefix(filled) == LanPrefix(state);
    if LanHost(state).Some? && FirstLan(state.interfaces).Some? {
      var lan, host := FirstLan(state.interfaces).value, LanHost(state).value;
      UsablePrefix(state);
      LanStaysWellFormed(state, state);
      if SharesIp(lan.addresses, host) { SharedIpHasNetwork(lan.addresses, host); }
    }
  }

  lemma MergedIsAnchored(filled: DesiredState)
    ensures Anchored(Merged(filled))
  {
    hide FirstHost;
    if LanHost(filled).Some? { FirstLanMerged(filled.interfaces, LanHost(filled).value); }
  }

  lemma FilledExtends(state: DesiredState, filled: DesiredState)
    requires FilledFrom(state, filled)
    ensures Extends(state, filled)
  {
  }

  /** One programming is one such rewriting. */
  lemma ProgramRewrites(state: DesiredState, filled: DesiredState)
    requires Validate(state).None? && FilledFrom(state, filled)
    ensures Rewrites(state, Merged(filled)) && Programs(state, Merged(filled))
  {
    hide Validate, FilledFrom, ShadowedPrefix, Anchored, Extends, Merged, OwnKept;
    FilledExtends(state, filled);
    ProgramKeepsOwn(state, filled);
    MergedExtends(filled);
    ExtendsTransitive(state, filled, Merged(filled));
    MergedIsAnchored(filled);
    Revalidates(state, filled);
    if Anchored(state) { AnchoredIsNotShadowed(state, filled); }
  }

  lemma ShadowSurvivesMerging(filled: DesiredState)
    requires CheckAddressing(filled).None?
    ensures ShadowedPrefix(Merged(filled)) == ShadowedPrefix(filled)
  {
    var prefix, lan := LanPrefix(filled), FirstLan(filled.interfaces);
    if LanHost(filled).Some? {
      var host := LanHost(filled).value;
      FirstLanMerged(filled.interfaces, host);
      UsablePrefix(filled);
      HostInPrefix(prefix.value);
      hide FirstHost, RoundDown, Block4, MergeHost, FirstLan, CheckAddressing, Networks, Network4;
      assert LanHost(Merged(filled)) == Some(host) && LanPrefix(Merged(filled)) == prefix;
      if lan.Some? && !SharesIp(lan.value.addresses, host) { NetworksAppend(lan.value.addresses, host); }
    }
  }

  /** What was programmed once is anchored, has an accepted policy, and is
      valid exactly unless it shadows its own prefix. */
  lemma ProgrammedMeaning(result: DesiredState)
    requires Programmed(result)
    ensures Anchored(result) && PolicyAccepted(result)
    ensures Validate(result).None? <==> !ShadowedPrefix(result)
  {
    hide Validate, FilledFrom, ShadowedPrefix, Anchored, PolicyAccepted, Merged, Extends, CheckAddressing;
    var state :| Programs(state, result);
    var filled :| FilledFrom(state, filled) && result == Merged(filled);
    Revalidates(state, filled);
    MergedIsAnchored(filled);
    ValidatedAddressing(state);
    FilledIsRewritten(state, filled);
    ShadowSurvivesMerging(filled);
    ValidatedPolicy(state);
    ProgramRewrites(state, filled);
    assert Extends(state, result);
    PolicyExtends(state, result);
  }
}
