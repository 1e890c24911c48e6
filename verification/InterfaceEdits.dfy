/** The UI's interface edit and its LAN prefix synchronisation, against the
    checks netd makes of the result. */
module InterfaceEdits {
  import opened Common
  import opened Desired
  import opened Addressing
  import opened Validation
  import opened Acceptability

  /** An interface edit keeps WAN acquisition while the interface stays a WAN
      and clears it otherwise. */
  function KeepAcquisition(previous: seq<Iface>, iface: Iface): Iface {
    var before := FindIface(previous, iface.name);
    if iface.role != Wan then iface.(ipv6 := None, requestPd := false)
    else if before.None? then iface.(ipv6 := None, requestPd := false)
    else iface.(ipv6 := before.value.ipv6, requestPd := before.value.requestPd)
  }

  function FirstWithIp(addresses: seq<Cidr>, ip: Ip): Option<Cidr> {
    if addresses == [] then None
    else if addresses[0].ip == ip then Some(addresses[0])
    else FirstWithIp(addresses[1..], ip)
  }

  function FirstIpv4(addresses: seq<Cidr>): Option<Cidr> {
    if addresses == [] then None
    else if addresses[0].ip.V4? then Some(addresses[0])
    else FirstIpv4(addresses[1..])
  }

  /** The LAN address the prefix follows: the one at the old prefix's host,
      else the first IPv4 one. */
  function Leading(lan: Iface, lanPrefix: Option<Cidr>): Option<Cidr> {
    var host := if lanPrefix.Some? then FirstHost(lanPrefix.value) else None;
    var matched := if host.Some? then FirstWithIp(lan.addresses, V4(host.value)) else None;
    if matched.Some? then matched else FirstIpv4(lan.addresses)
  }

  /** `ipv4_network_prefix`. */
  function NetworkPrefix(c: Cidr): Option<Cidr> {
    var network := Network4(c);
    if network.None? then None else Some(Cidr(V4(network.value.0), network.value.1))
  }

  predicate PoolInside(prefix: Cidr, pool: Pool) {
    prefix.ip.V4? && prefix.len <= 32
    && Contains4(prefix.ip.v4, prefix.len, pool.first) && Contains4(prefix.ip.v4, prefix.len, pool.last)
  }

  function SyncLanPrefix(state: DesiredState): DesiredState {
    var lan := FirstLan(state.interfaces);
    if lan.None? then state
    else
      var leading := Leading(lan.value, state.lanPrefix);
      if leading.None? then state
      else
        var prefix := NetworkPrefix(leading.value);
        if prefix.None? || state.lanPrefix == prefix then state
        else
          var pool := state.dhcpPool;
          state.(lanPrefix := prefix,
                 dhcpPool := if pool.Some? && !PoolInside(prefix.value, pool.value) then None else pool)
  }

  method StoreInterfaceSection(desired: DesiredState, interfaces: seq<Iface>, uiExposure: seq<string>)
    returns (stored: DesiredState)
    ensures stored == InterfaceSection(desired, interfaces, uiExposure)
  {
    var next := interfaces;
    for i := 0 to |interfaces|
      invariant |next| == |interfaces|
      invariant forall j :: 0 <= j < |interfaces| ==>
                  next[j] == if j < i then KeepAcquisition(desired.interfaces, interfaces[j]) else interfaces[j]
    {
      var before := FindIface(desired.interfaces, next[i].name);
      if next[i].role == Wan {
        next := next[i := next[i].(ipv6 := if before.Some? then before.value.ipv6 else None,
                                   requestPd := before.Some? && before.value.requestPd)];
      } else {
        next := next[i := next[i].(ipv6 := None, requestPd := false)];
      }
    }
    assert next == KeptAcquisition(desired.interfaces, interfaces);
    stored := SyncLanPrefix(desired.(interfaces := next, uiExposure := uiExposure));
  }

  function KeptAcquisition(previous: seq<Iface>, interfaces: seq<Iface>): (kept: seq<Iface>)
    ensures |kept| == |interfaces|
    ensures forall i :: 0 <= i < |interfaces| ==> kept[i] == KeepAcquisition(previous, interfaces[i])
  {
    seq(|interfaces|, i requires 0 <= i < |interfaces| => KeepAcquisition(previous, interfaces[i]))
  }

  function InterfaceSection(desired: DesiredState, interfaces: seq<Iface>, uiExposure: seq<string>): DesiredState {
    SyncLanPrefix(desired.(interfaces := KeptAcquisition(desired.interfaces, interfaces), uiExposure := uiExposure))
  }

  // ----- against the validator ----------------------------------------------------

  lemma {:induction false} FirstWithIpFinds(addresses: seq<Cidr>, ip: Ip)
    ensures FirstWithIp(addresses, ip).Some? ==>
        FirstWithIp(addresses, ip).value in addresses && FirstWithIp(addresses, ip).value.ip == ip
  {
    if addresses != [] { FirstWithIpFinds(addresses[1..], ip); }
  }

  lemma {:induction false} FirstIpv4Finds(addresses: seq<Cidr>)
    ensures FirstIpv4(addresses).Some? <==> exists i :: 0 <= i < |addresses| && addresses[i].ip.V4?
    ensures FirstIpv4(addresses).Some? ==> FirstIpv4(addresses).value in addresses && FirstIpv4(addresses).value.ip.V4?
  {
    if addresses != [] {
      FirstIpv4Finds(addresses[1..]);
      assert forall i :: 0 < i < |addresses| ==> addresses[i] == addresses[1..][i - 1];
    }
  }

  predicate WellFormedAddresses(i: Iface) {
    forall k :: 0 <= k < |i.addresses| ==> WellFormed(i.addresses[k])
  }

  lemma RoundDownTwice(x: nat, block: nat)
    requires block > 0
    ensures RoundDown(RoundDown(x, block), block) == RoundDown(x, block)
  {
    RoundDownIsMultiple(x, block);
    MultipleInside(x, block, RoundDown(x, block));
  }

  lemma NetworkPrefixIsNetwork(c: Cidr)
    ensures NetworkPrefix(c).Some? == Network4(c).Some?
    ensures NetworkPrefix(c).Some? ==> Network4(NetworkPrefix(c).value) == Network4(c)
  {
    hide RoundDown, Block4;
    if Network4(c).Some? { RoundDownTwice(c.ip.v4, Block4(c.len)); }
  }

  lemma LeadingIsItsOwn(lan: Iface, lanPrefix: Option<Cidr>)
    ensures Leading(lan, lanPrefix).Some? <==> exists i :: 0 <= i < |lan.addresses| && lan.addresses[i].ip.V4?
    ensures Leading(lan, lanPrefix).Some? ==>
        Leading(lan, lanPrefix).value in lan.addresses && Leading(lan, lanPrefix).value.ip.V4?
  {
    hide FirstHost;
    var host := if lanPrefix.Some? then FirstHost(lanPrefix.value) else None;
    FirstIpv4Finds(lan.addresses);
    if host.Some? {
      FirstWithIpFinds(lan.addresses, V4(host.value));
      if FirstWithIp(lan.addresses, V4(host.value)).Some? {
        var i :| 0 <= i < |lan.addresses| && lan.addresses[i] == FirstWithIp(lan.addresses, V4(host.value)).value;
      }
    }
  }

  /** Whatever the edit, netd's LAN services check accepts the result: the
      prefix is a network of the first LAN's own addresses. */
  lemma SyncSatisfiesLanServices(state: DesiredState)
    requires FirstLan(state.interfaces).Some? ==> WellFormedAddresses(FirstLan(state.interfaces).value)
    ensures CheckLanServices(SyncLanPrefix(state)).None?
  {
    hide FirstHost, Leading;
    var found := FirstLan(state.interfaces);
    if found.Some? {
      var lan := found.value;
      LeadingIsItsOwn(lan, state.lanPrefix);
      if Leading(lan, state.lanPrefix).Some? {
        var leading := Leading(lan, state.lanPrefix).value;
        var i :| 0 <= i < |lan.addresses| && lan.addresses[i] == leading;
        assert WellFormed(lan.addresses[i]);
        assert Network4(lan.addresses[i]).value in Networks(lan.addresses);
        NetworkPrefixIsNetwork(leading);
      } else {
        assert Networks(lan.addresses) == {};
      }
    }
  }

  lemma {:induction false} FirstWithIpExists(addresses: seq<Cidr>, ip: Ip)
    requires exists i :: 0 <= i < |addresses| && addresses[i].ip == ip
    ensures FirstWithIp(addresses, ip).Some?
  {
    if addresses[0].ip != ip {
      var i :| 0 <= i < |addresses| && addresses[i].ip == ip;
      assert addresses[1..][i - 1].ip == ip;
      FirstWithIpExists(addresses[1..], ip);
    }
  }

  /** A LAN that keeps the router's IP takes the prefix along when its mask
      changes, whatever addresses come before it. */
  lemma PrefixFollowsHost(state: DesiredState, i: nat)
    requires FirstLan(state.interfaces).Some? && WellFormedAddresses(FirstLan(state.interfaces).value)
    requires state.lanPrefix.Some? && FirstHost(state.lanPrefix.value).Some?
    requires i < |FirstLan(state.interfaces).value.addresses|
    requires FirstLan(state.interfaces).value.addresses[i].ip == V4(FirstHost(state.lanPrefix.value).value)
    ensures exists k :: 0 <= k < |FirstLan(state.interfaces).value.addresses|
                        && FirstLan(state.interfaces).value.addresses[k].ip
                            == V4(FirstHost(state.lanPrefix.value).value)
                        && SyncLanPrefix(state).lanPrefix
                            == NetworkPrefix(FirstLan(state.interfaces).value.addresses[k])
  {
    var addresses, ip := FirstLan(state.interfaces).value.addresses, V4(FirstHost(state.lanPrefix.value).value);
    FirstWithIpExists(addresses, ip);
    FirstWithIpFinds(addresses, ip);
    var k :| 0 <= k < |addresses| && addresses[k] == FirstWithIp(addresses, ip).value;
    assert WellFormed(addresses[k]);
  }

  /** The address the prefix will follow, if any, leaves usable hosts. */
  predicate LeavesHosts(state: DesiredState) {
    var lan := FirstLan(state.interfaces);
    lan.Some? ==>
      var leading := Leading(lan.value, state.lanPrefix);
      leading.Some? && leading.value.len <= 32 ==> 1 <= leading.value.len <= 30
  }

  /** If the addressing was acceptable before, every pool kept lies, address
      by address, in the new prefix; the whole stays acceptable exactly when
      the LAN address the prefix follows has a length that leaves hosts. */
  lemma SyncKeepsAddressing(state: DesiredState)
    requires CheckAddressing(state).None?
    ensures var synced := SyncLanPrefix(state);
      && (synced.dhcpPool.Some? && synced.lanPrefix.Some? ==>
            && synced.lanPrefix.value.ip.V4? && synced.lanPrefix.value.len <= 32
            && forall x: Word32 :: synced.dhcpPool.value.first <= x <= synced.dhcpPool.value.last ==>
                 Contains4(synced.lanPrefix.value.ip.v4, synced.lanPrefix.value.len, x))
      && (CheckAddressing(synced).None? <==> LeavesHosts(state))
      && (synced.dhcpPool == state.dhcpPool || synced.dhcpPool.None?)
  {
    hide Contains4, DelegateLan, Leading, RoundDown, FirstHost;
    var synced := SyncLanPrefix(state);
    AddressingMeaning(state.lanPrefix, state.dhcpPool, state.wanPd);
    if FirstLan(state.interfaces).Some? { LeadingIsItsOwn(FirstLan(state.interfaces).value, state.lanPrefix); }
    if synced.lanPrefix != state.lanPrefix && synced.dhcpPool.Some? {
      var pool, prefix := synced.dhcpPool.value, synced.lanPrefix.value;
      forall x: Word32 | pool.first <= x <= pool.last
        ensures Contains4(prefix.ip.v4, prefix.len, x)
      {
        RangeInside(prefix.ip.v4, prefix.len, pool.first, pool.last, x);
      }
    }
  }

  /** The state edited requests delegation on the interface of this name. */
  predicate RequestsBy(previous: seq<Iface>, name: string) {
    var before := FindIface(previous, name);
    before.Some? && before.value.requestPd
  }

  /** An interface edit keeps the IPv6 acquisition checks of the state it
      edits, interface by interface; one WAN at most requests delegation
      exactly unless the edit gives two WANs the name of the one that did. */
  lemma EditKeepsIpv6(desired: DesiredState, interfaces: seq<Iface>, uiExposure: seq<string>)
    requires forall i :: 0 <= i < |desired.interfaces| ==> CheckIpv6Iface(desired.interfaces[i]).None?
    requires OneRequester(desired.interfaces)
    ensures var next := InterfaceSection(desired, interfaces, uiExposure).interfaces;
      && (forall i :: 0 <= i < |next| ==> CheckIpv6Iface(next[i]).None?)
      && (OneRequester(next) <==>
            forall i, j :: 0 <= i < j < |interfaces| && interfaces[i].role == Wan && interfaces[j].role == Wan
                           && interfaces[i].name == interfaces[j].name ==>
              !RequestsBy(desired.interfaces, interfaces[i].name))
  {
    hide SyncLanPrefix;
    SyncKeepsInterfaces(desired.(interfaces := KeptAcquisition(desired.interfaces, interfaces),
      uiExposure := uiExposure));
    var next := KeptAcquisition(desired.interfaces, interfaces);
    forall i | 0 <= i < |next|
      ensures CheckIpv6Iface(next[i]).None?
      ensures next[i].requestPd <==> interfaces[i].role == Wan && RequestsBy(desired.interfaces, interfaces[i].name)
    {
      FindIfaceFinds(desired.interfaces, next[i].name);
    }
    forall i, j | 0 <= i < j < |next| && next[i].requestPd && next[j].requestPd
      ensures interfaces[i].name == interfaces[j].name
    {
      FindIfaceFinds(desired.interfaces, next[i].name);
      FindIfaceFinds(desired.interfaces, next[j].name);
    }
  }

  lemma SyncKeepsInterfaces(state: DesiredState)
    ensures SyncLanPrefix(state) == state.(lanPrefix := SyncLanPrefix(state).lanPrefix,
        dhcpPool := SyncLanPrefix(state).dhcpPool)
  {
  }

  lemma {:induction false} FindIfaceFinds(interfaces: seq<Iface>, name: string)
    ensures var found := FindIface(interfaces, name);
      found.Some? ==> exists k :: 0 <= k < |interfaces| && interfaces[k] == found.value && interfaces[k].name == name
  {
    if interfaces != [] {
      FindIfaceFinds(interfaces[1..], name);
      assert forall k :: 0 < k < |interfaces| ==> interfaces[k] == interfaces[1..][k - 1];
    }
  }

  // ----- what an edit comes to ------------------------------------------------------

  /** The `j`th address leads: the first with the router's IP, if one has it,
      else the first IPv4 one. */
  ghost predicate LeadsAt(addresses: seq<Cidr>, router: seq<Cidr>, j: nat) {
    && j < |addresses|
    && if router != [] && exists i :: 0 <= i < |addresses| && addresses[i].ip == router[0].ip
       then addresses[j].ip == router[0].ip && forall i :: 0 <= i < j ==> addresses[i].ip != router[0].ip
       else addresses[j].ip.V4? && forall i :: 0 <= i < j ==> !addresses[i].ip.V4?
  }

  lemma {:induction false} FirstWithIpMeaning(addresses: seq<Cidr>, ip: Ip)
    ensures FirstWithIp(addresses, ip).None? <==> forall i :: 0 <= i < |addresses| ==> addresses[i].ip != ip
    ensures FirstWithIp(addresses, ip).Some? ==>
      exists j :: 0 <= j < |addresses| && addresses[j] == FirstWithIp(addresses, ip).value && addresses[j].ip == ip
                  && forall i :: 0 <= i < j ==> addresses[i].ip != ip
  {
    if addresses != [] {
      FirstWithIpMeaning(addresses[1..], ip);
      assert forall i :: 0 < i < |addresses| ==> addresses[i] == addresses[1..][i - 1];
      if addresses[0].ip != ip && FirstWithIp(addresses[1..], ip).Some? {
        var j :| 0 <= j < |addresses[1..]| && addresses[1..][j] == FirstWithIp(addresses[1..], ip).value
                 && addresses[1..][j].ip == ip && forall i :: 0 <= i < j ==> addresses[1..][i].ip != ip;
        assert addresses[j + 1] == addresses[1..][j];
      }
    }
  }

  lemma {:induction false} FirstIpv4Meaning(addresses: seq<Cidr>)
    ensures FirstIpv4(addresses).None? <==> forall i :: 0 <= i < |addresses| ==> !addresses[i].ip.V4?
    ensures FirstIpv4(addresses).Some? ==>
      exists j :: 0 <= j < |addresses| && addresses[j] == FirstIpv4(addresses).value && addresses[j].ip.V4?
                  && forall i :: 0 <= i < j ==> !addresses[i].ip.V4?
  {
    if addresses != [] {
      FirstIpv4Meaning(addresses[1..]);
      assert forall i :: 0 < i < |addresses| ==> addresses[i] == addresses[1..][i - 1];
      if !addresses[0].ip.V4? && FirstIpv4(addresses[1..]).Some? {
        var j :| 0 <= j < |addresses[1..]| && addresses[1..][j] == FirstIpv4(addresses[1..]).value
                 && addresses[1..][j].ip.V4? && forall i :: 0 <= i < j ==> !addresses[1..][i].ip.V4?;
        assert addresses[j + 1] == addresses[1..][j];
      }
    }
  }

  lemma LeadingMeaning(lan: Iface, state: DesiredState)
    ensures Leading(lan, state.lanPrefix).None? <==> forall j: nat :: !LeadsAt(lan.addresses, RouterAddress(state), j)
    ensures forall j: nat :: LeadsAt(lan.addresses, RouterAddress(state), j) ==>
              Leading(lan, state.lanPrefix) == Some(lan.addresses[j])
  {
    var addresses, router := lan.addresses, RouterAddress(state);
    FirstIpv4Meaning(addresses);
    if router != [] { FirstWithIpMeaning(addresses, router[0].ip); }
    assert state.lanPrefix.Some? && FirstHost(state.lanPrefix.value).Some? ==>
      router != [] && router[0].ip == V4(FirstHost(state.lanPrefix.value).value);
    if router != [] && FirstWithIp(addresses, router[0].ip).Some? {
      var j: nat :| j < |addresses| && addresses[j] == FirstWithIp(addresses, router[0].ip).value
                    && addresses[j].ip == router[0].ip && forall i :: 0 <= i < j ==> addresses[i].ip != router[0].ip;
      assert LeadsAt(addresses, router, j);
    } else if FirstIpv4(addresses).Some? {
      var j: nat :| j < |addresses| && addresses[j] == FirstIpv4(addresses).value
                    && addresses[j].ip.V4? && forall i :: 0 <= i < j ==> !addresses[i].ip.V4?;
      assert LeadsAt(addresses, router, j);
    }
    forall j: nat, k: nat | LeadsAt(addresses, router, j) && LeadsAt(addresses, router, k)
      ensures j == k
    {
      assert !(j < k) && !(k < j);
    }
  }

  /** The network an address is in, as a prefix without host bits. */
  function NetworkOf(c: Cidr): Cidr
    requires c.ip.V4? && c.len <= 32
  {
    Cidr(V4(RoundDown(c.ip.v4, Block4(c.len))), c.len)
  }

  /** The prefix follows the leading address; the pool stays exactly if both
      its ends are in the new prefix. */
  predicate Follows(state: DesiredState, lead: Cidr, synced: DesiredState)
    requires lead.ip.V4? && lead.len <= 32
  {
    var prefix := NetworkOf(lead);
    if state.lanPrefix == Some(prefix) then synced == state
    else
      var stays := state.dhcpPool.Some?
        && Leading4(state.dhcpPool.value.first, lead.len) == Leading4(lead.ip.v4, lead.len)
        && Leading4(state.dhcpPool.value.last, lead.len) == Leading4(lead.ip.v4, lead.len);
      synced == state.(lanPrefix := Some(prefix), dhcpPool := if stays then state.dhcpPool else None)
  }

  /** The synchronisation, for every state: it follows the first LAN's leading
      address, and without one of a possible length does nothing. */
  lemma SyncMeaning(state: DesiredState, k: nat, j: nat)
    ensures FirstLanAt(state.interfaces, k) && LeadsAt(state.interfaces[k].addresses, RouterAddress(state), j) ==>
      var lead := state.interfaces[k].addresses[j];
      && lead.ip.V4?
      && if lead.len <= 32 then Follows(state, lead, SyncLanPrefix(state)) else SyncLanPrefix(state) == state
    ensures (forall k: nat :: !FirstLanAt(state.interfaces, k)) ==> SyncLanPrefix(state) == state
    ensures FirstLanAt(state.interfaces, k)
            && (forall j: nat :: !LeadsAt(state.interfaces[k].addresses, RouterAddress(state), j)) ==>
              SyncLanPrefix(state) == state
  {
    FirstLanMeaning(state.interfaces);
    if FirstLanAt(state.interfaces, k) {
      LeadingMeaning(state.interfaces[k], state);
      if LeadsAt(state.interfaces[k].addresses, RouterAddress(state), j) {
        var lead := state.interfaces[k].addresses[j];
        assert lead.ip.V4?;
        if lead.len <= 32 && state.dhcpPool.Some? { InsideMeaning(lead, state.dhcpPool.value); }
      }
    }
    hide Leading, LeadsAt, PoolInside, Leading4, RouterAddress, FirstLan, FirstLanAt, RoundDown;
  }

  lemma InsideMeaning(lead: Cidr, pool: Pool)
    requires lead.ip.V4? && lead.len <= 32
    ensures PoolInside(NetworkOf(lead), pool) <==>
      && Leading4(pool.first, lead.len) == Leading4(lead.ip.v4, lead.len)
      && Leading4(pool.last, lead.len) == Leading4(lead.ip.v4, lead.len)
  {
    hide Pow2, Leading4;
    RoundDownTwice(lead.ip.v4, Block4(lead.len));
    Contains4Meaning(lead.ip.v4, lead.len, pool.first);
    Contains4Meaning(lead.ip.v4, lead.len, pool.last);
  }

  /** A WAN keeps how the WAN or other interface of its name acquired IPv6; what
      is no WAN has none. */
  predicate TakesAcquisition(previous: seq<Iface>, edited: Iface, stored: Iface) {
    && stored == edited.(ipv6 := stored.ipv6, requestPd := stored.requestPd)
    && (edited.role != Wan || (forall k :: 0 <= k < |previous| ==> previous[k].name != edited.name) ==>
          stored.ipv6.None? && !stored.requestPd)
    && (edited.role == Wan ==> forall k :: 0 <= k < |previous| && FirstCalled(previous, edited.name, k) ==>
          stored.ipv6 == previous[k].ipv6 && stored.requestPd == previous[k].requestPd)
  }

  /** The whole edit: the interfaces as edited with acquisition kept, the
      exposure as given, the prefix synchronised, nothing else. */
  lemma EditMeaning(desired: DesiredState, interfaces: seq<Iface>, uiExposure: seq<string>)
    ensures var stored := InterfaceSection(desired, interfaces, uiExposure);
      && |stored.interfaces| == |interfaces|
      && (forall i :: 0 <= i < |interfaces| ==>
            TakesAcquisition(desired.interfaces, interfaces[i], stored.interfaces[i]))
      && stored == SyncLanPrefix(desired.(interfaces := stored.interfaces, uiExposure := uiExposure))
      && stored == desired.(interfaces := stored.interfaces, uiExposure := uiExposure, lanPrefix := stored.lanPrefix,
                            dhcpPool := stored.dhcpPool)
  {
    hide SyncLanPrefix;
    var kept := KeptAcquisition(desired.interfaces, interfaces);
    SyncKeepsInterfaces(desired.(interfaces := kept, uiExposure := uiExposure));
    forall i | 0 <= i < |interfaces|
      ensures TakesAcquisition(desired.interfaces, interfaces[i], kept[i])
    {
      FindIfaceMeaning(desired.interfaces, interfaces[i].name);
    }
  }
}
