/** Programming a Desired state into the kernel, and undoing an attempt that
    stopped anywhere. Each `ip` call may fail; the loops are netd's. */
module LiveUndo {
  import opened Common
  import opened Desired
  import opened Addressing
  import opened LiveState
  import opened Validation
  import Acceptability

  /** What an undo must remove: additions that were absent before the attempt. */
  datatype Footprint = Footprint(addresses: seq<Address>, links: seq<string>)

  /** The links that must be there already. */
  function PlainLinks(interfaces: seq<Iface>): set<string> {
    set i | 0 <= i < |interfaces| && interfaces[i].vlan.None? :: interfaces[i].name
  }

  predicate DevicesIn(wanted: seq<StaticRoute>, links: set<string>) {
    forall i :: 0 <= i < |wanted| && wanted[i].dev.Some? ==> wanted[i].dev.value in links
  }

  /** A plain interface that is exposed or a LAN, and has no addresses, takes
      the IPv4 ones that are live on it; no other changes. */
  ghost predicate FilledIface(state: DesiredState, before: Iface, after: Iface, live: set<Address>) {
    if before.vlan.None? && before.addresses == [] && (before.role == Lan || before.name in state.uiExposure)
    then && after == before.(addresses := after.addresses)
         && forall c :: c in after.addresses <==> (before.name, c) in live && c.ip.V4?
    else after == before
  }

  ghost predicate FilledLive(state: DesiredState, filled: DesiredState, live: set<Address>) {
    && filled == state.(interfaces := filled.interfaces)
    && |filled.interfaces| == |state.interfaces|
    && forall i :: 0 <= i < |state.interfaces| ==>
         FilledIface(state, state.interfaces[i], filled.interfaces[i], live)
  }

  /** Captured, then merged. */
  ghost predicate RewrittenLive(state: DesiredState, result: DesiredState, live: set<Address>) {
    exists filled :: FilledLive(state, filled, live) && result == Merged(filled)
  }

  class Kernel {
    var links: set<string>
    var addresses: set<Address>
    var routes: map<Cidr, Hop>
    /** The prefix each WAN's DHCPv6 lease holds. */
    const acquired: map<string, Cidr>
    /** Whether `ip` may fail where the kernel does not refuse. */
    const faulty: bool

    ghost predicate WellFormed()
      reads this
    {
      && (forall a :: a in addresses ==> a.0 in links)
      && (forall to :: to in routes && routes[to].dev.Some? ==> routes[to].dev.value in links)
    }

    /** `state` is live: every link, address and route it asks for is there. */
    ghost predicate Live(state: DesiredState)
      reads this
    {
      && (forall a :: a in Programmed(state, acquired) ==> a in addresses)
      && CreatedLinks(state) <= links
      && (forall i :: 0 <= i < |state.routes| ==> RouteAt(routes, state.routes[i].to) == Some(HopOf(state.routes[i])))
    }

    constructor (links: set<string>, addresses: set<Address>, routes: map<Cidr, Hop>, acquired: map<string, Cidr>,
                 faulty: bool)
      ensures this.links == links && this.addresses == addresses && this.routes == routes && this.acquired == acquired
      ensures this.faulty == faulty
    {
      this.links, this.addresses, this.routes, this.acquired := links, addresses, routes, acquired;
      this.faulty := faulty;
    }

    // ----- single operations --------------------------------------------------

    method Succeeds() returns (ok: bool)
      ensures !faulty ==> ok
    {
      ok :| !faulty ==> ok;
    }

    method AddAddress(dev: string, c: Cidr) returns (ok: bool)
      modifies `addresses
      ensures addresses == if ok then old(addresses) + {(dev, c)} else old(addresses)
      ensures ok ==> dev in links
      ensures !faulty ==> ok == (dev in links)
    {
      ok := Succeeds();
      if dev !in links || !ok { return false; }
      addresses := addresses + {(dev, c)};
    }

    method AddAddresses(dev: string, cidrs: seq<Cidr>) returns (ok: bool)
      modifies `addresses
      ensures old(addresses) <= addresses
      ensures forall a :: a in addresses ==> a in old(addresses) || (a.0 == dev && a.1 in cidrs && dev in links)
      ensures ok ==> forall c :: c in cidrs ==> (dev, c) in addresses
      ensures !faulty && dev in links ==> ok
    {
      for i := 0 to |cidrs|
        invariant old(addresses) <= addresses
        invariant forall a :: a in addresses ==> a in old(addresses) || (a.0 == dev && a.1 in cidrs && dev in links)
        invariant forall j :: 0 <= j < i ==> (dev, cidrs[j]) in addresses
      {
        ok := AddAddress(dev, cidrs[i]);
        if !ok { return; }
      }
      ok := true;
    }

    method EnsureLink(name: string) returns (ok: bool)
      modifies `links
      ensures old(links) <= links <= old(links) + {name}
      ensures ok == (name in links)
      ensures !faulty ==> ok
    {
      ok := Succeeds();
      if name in links || !ok { return name in links; }
      links := links + {name};
    }

    method DeleteLink(name: string) returns (ok: bool)
      modifies `links, `addresses, `routes
      ensures !ok ==> faulty && links == old(links) && addresses == old(addresses) && routes == old(routes)
      ensures ok ==>
        && links == old(links) - {name}
        && addresses == (set a | a in old(addresses) && a.0 != name)
        && routes == (map to | to in old(routes) && old(routes)[to].dev != Some(name) :: old(routes)[to])
    {
      ok := Succeeds();
      if !ok { return; }
      links := links - {name};
      addresses := set a | a in addresses && a.0 != name;
      routes := map to | to in routes && routes[to].dev != Some(name) :: routes[to];
    }

    // ----- apply ----------------------------------------------------------------

    /** The IPv4 addresses live on an interface. */
    method CaptureIpv4(dev: string) returns (captured: seq<Cidr>)
      ensures forall c :: c in captured <==> (dev, c) in addresses && c.ip.V4?
    {
      captured := [];
      var rest := set a | a in addresses && a.0 == dev && a.1.ip.V4?;
      while rest != {}
        invariant forall a :: a in rest ==> a in addresses && a.0 == dev && a.1.ip.V4?
        invariant forall c :: c in captured || (dev, c) in rest <==> (dev, c) in addresses && c.ip.V4?
      {
        var a :| a in rest;
        assert a == (dev, a.1);
        captured := captured + [a.1];
        rest := rest - {a};
      }
    }

    /** Before anything is programmed: an exposed or LAN interface without
        addresses of its own keeps the live ones. */
    method FillCaptured(state: DesiredState) returns (filled: DesiredState)
      ensures FilledLive(state, filled, addresses)
      ensures Extends(state, filled)
      ensures (forall a :: a in addresses ==> Addressing.WellFormed(a.1)) ==> FilledFrom(state, filled)
      ensures forall i, c :: 0 <= i < |filled.interfaces| && c in filled.interfaces[i].addresses ==>
                c in state.interfaces[i].addresses || (state.interfaces[i].name, c) in addresses
    {
      var next := state.interfaces;
      for i := 0 to |state.interfaces|
        invariant |next| == |state.interfaces|
        invariant forall j :: 0 <= j < i ==> FilledIface(state, state.interfaces[j], next[j], addresses)
        invariant forall j :: i <= j < |next| ==> next[j] == state.interfaces[j]
      {
        var iface := next[i];
        if iface.vlan.None? && (iface.name in state.uiExposure || iface.role == Lan) && iface.addresses == [] {
          var captured := CaptureIpv4(iface.name);
          next := next[i := iface.(addresses := captured)];
        }
      }
      filled := state.(interfaces := next);
    }

    /** Plain interfaces must exist; then their addresses. */
    method ProgramInterfaces(interfaces: seq<Iface>) returns (ok: bool)
      modifies `addresses
      ensures old(addresses) <= addresses
      ensures forall a :: a in addresses && a !in old(addresses) ==> a.0 in links && a in IfaceAddresses(interfaces)
      ensures ok ==> forall i, c ::
        0 <= i < |interfaces| && interfaces[i].vlan.None? && c in interfaces[i].addresses ==>
          (interfaces[i].name, c) in addresses
      ensures ok ==> PlainLinks(interfaces) <= links
      ensures !faulty && PlainLinks(interfaces) <= links ==> ok
    {
      for i := 0 to |interfaces|
        invariant old(addresses) <= addresses
        invariant forall a :: a in addresses && a !in old(addresses) ==> a.0 in links && a in IfaceAddresses(interfaces)
        invariant forall j, c :: 0 <= j < i && interfaces[j].vlan.None? && c in interfaces[j].addresses ==>
                    (interfaces[j].name, c) in addresses
        invariant forall j :: 0 <= j < i && interfaces[j].vlan.None? ==> interfaces[j].name in links
      {
        var iface := interfaces[i];
        if iface.vlan.None? {
          var up := Succeeds();
          if iface.name !in links || !up {
            assert iface.name in PlainLinks(interfaces);
            return false;
          }
          ghost var before := addresses;
          ok := AddAddresses(iface.name, iface.addresses);
          forall a | a in addresses && a !in before
            ensures a in IfaceAddresses(interfaces)
          {
            IfaceAddressesContain(interfaces, i, a.1);
          }
          if !ok { return; }
        }
      }
      ok := true;
    }

    method ProgramVlans(interfaces: seq<Iface>) returns (ok: bool)
      modifies `addresses, `links
      ensures old(addresses) <= addresses && old(links) <= links
      ensures forall l :: l in links && l !in old(links) ==>
          exists i :: 0 <= i < |interfaces| && interfaces[i].vlan.Some? && interfaces[i].name == l
      ensures forall a :: a in addresses && a !in old(addresses) ==> a.0 in links && a in IfaceAddresses(interfaces)
      ensures ok ==> forall i :: 0 <= i < |interfaces| && interfaces[i].vlan.Some? ==> interfaces[i].name in links
      ensures ok ==> forall i, c ::
        0 <= i < |interfaces| && interfaces[i].vlan.Some? && c in interfaces[i].addresses ==>
          (interfaces[i].name, c) in addresses
      ensures !faulty ==> ok
    {
      for i := 0 to |interfaces|
        invariant old(addresses) <= addresses && old(links) <= links
        invariant forall l :: l in links && l !in old(links) ==>
            exists i :: 0 <= i < |interfaces| && interfaces[i].vlan.Some? && interfaces[i].name == l
        invariant forall a :: a in addresses && a !in old(addresses) ==> a.0 in links && a in IfaceAddresses(interfaces)
        invariant forall j :: 0 <= j < i && interfaces[j].vlan.Some? ==> interfaces[j].name in links
        invariant forall j, c :: 0 <= j < i && interfaces[j].vlan.Some? && c in interfaces[j].addresses ==>
                    (interfaces[j].name, c) in addresses
      {
        var iface := interfaces[i];
        if iface.vlan.Some? {
          ok := EnsureLink(iface.name);
          if !ok { return; }
          ghost var before := addresses;
          ok := AddAddresses(iface.name, iface.addresses);
          forall a | a in addresses && a !in before
            ensures a in IfaceAddresses(interfaces)
          {
            IfaceAddressesContain(interfaces, i, a.1);
          }
          if !ok { return; }
        }
      }
      ok := true;
    }

    method ProgramTunnels(tunnels: seq<Wg>) returns (ok: bool)
      modifies `addresses, `links
      ensures old(addresses) <= addresses && old(links) <= links
      ensures forall l :: l in links && l !in old(links) ==> exists i :: 0 <= i < |tunnels| && tunnels[i].name == l
      ensures forall a :: a in addresses && a !in old(addresses) ==> a.0 in links && a in TunnelAddresses(tunnels)
      ensures ok ==> forall i :: 0 <= i < |tunnels| ==> tunnels[i].name in links
      ensures ok ==> forall i, c :: 0 <= i < |tunnels| && c in tunnels[i].addresses ==>
          (tunnels[i].name, c) in addresses
      ensures !faulty ==> ok
    {
      for i := 0 to |tunnels|
        invariant old(addresses) <= addresses && old(links) <= links
        invariant forall l :: l in links && l !in old(links) ==> exists i :: 0 <= i < |tunnels| && tunnels[i].name == l
        invariant forall a :: a in addresses && a !in old(addresses) ==> a.0 in links && a in TunnelAddresses(tunnels)
        invariant forall j :: 0 <= j < i ==> tunnels[j].name in links
        invariant forall j, c :: 0 <= j < i && c in tunnels[j].addresses ==> (tunnels[j].name, c) in addresses
      {
        ok := EnsureLink(tunnels[i].name);
        if !ok { return; }
        var keyed := Succeeds();
        if !keyed { return false; }
        ghost var before := addresses;
        ok := AddAddresses(tunnels[i].name, tunnels[i].addresses);
        forall a | a in addresses && a !in before
          ensures a in TunnelAddresses(tunnels)
        {
          TunnelAddressesContain(tunnels, i, a.1);
        }
        if !ok { return; }
      }
      ok := true;
    }

    /** `ip route replace`, in order; the kernel refuses an unknown device. */
    method ProgramRoutes(wanted: seq<StaticRoute>) returns (ok: bool)
      modifies `routes
      ensures forall to :: RouteAt(routes, to) == RouteAt(old(routes), to)
                || exists i :: 0 <= i < |wanted| && wanted[i].to == to && RouteAt(routes, to) == Some(HopOf(wanted[i]))
      ensures old(WellFormed()) ==> WellFormed()
      ensures ok && DistinctDestinations(wanted) ==>
                forall i :: 0 <= i < |wanted| ==> RouteAt(routes, wanted[i].to) == Some(HopOf(wanted[i]))
      ensures ok ==> DevicesIn(wanted, links)
      ensures !faulty && DevicesIn(wanted, links) ==> ok
    {
      for i := 0 to |wanted|
        invariant forall to :: RouteAt(routes, to) == RouteAt(old(routes), to)
                    || exists j :: 0 <= j < |wanted| && wanted[j].to == to
                        && RouteAt(routes, to) == Some(HopOf(wanted[j]))
        invariant old(WellFormed()) ==> WellFormed()
        invariant DistinctDestinations(wanted) ==>
                    forall j :: 0 <= j < i ==> RouteAt(routes, wanted[j].to) == Some(HopOf(wanted[j]))
        invariant forall j :: 0 <= j < i && wanted[j].dev.Some? ==> wanted[j].dev.value in links
      {
        ok := Succeeds();
        if !ok || (wanted[i].dev.Some? && wanted[i].dev.value !in links) { return false; }
        routes := routes[wanted[i].to := HopOf(wanted[i])];
      }
      ok := true;
    }

    method AddAll(wanted: seq<Address>) returns (ok: bool)
      modifies `addresses
      ensures old(addresses) <= addresses
      ensures forall a :: a in addresses && a !in old(addresses) ==> a.0 in links && a in wanted
      ensures ok ==> forall a :: a in wanted ==> a in addresses
      ensures !faulty && (forall a :: a in wanted ==> a.0 in links) ==> ok
    {
      for i := 0 to |wanted|
        invariant old(addresses) <= addresses
        invariant forall a :: a in addresses && a !in old(addresses) ==> a.0 in links && a in wanted
        invariant forall j :: 0 <= j < i ==> wanted[j] in addresses
      {
        ok := AddAddress(wanted[i].0, wanted[i].1);
        if !ok { return; }
      }
      ok := true;
    }

    /** `apply`: rewrite the state as it stands live, then program it. The
        addresses read back for an interface are live already, so programming
        them again changes nothing. */
    method Program(state: DesiredState) returns (ok: bool, result: DesiredState)
      modifies `addresses, `links, `routes
      ensures Extends(state, result)
      ensures old(addresses) <= addresses && old(links) <= links <= old(links) + CreatedLinks(state)
      ensures forall a :: a in addresses && a !in old(addresses) ==> a.0 in links && a in Programmed(state, acquired)
      ensures forall to :: RouteAt(routes, to) == RouteAt(old(routes), to)
                || exists i :: 0 <= i < |state.routes| && state.routes[i].to == to
                    && RouteAt(routes, to) == Some(HopOf(state.routes[i]))
      ensures old(WellFormed()) ==> WellFormed()
      ensures ok ==> Live(state) && Validate(state).None? && PlainLinks(state.interfaces) <= links
      ensures !faulty ==> (ok <==> Validate(state).None? && PlainLinks(state.interfaces) <= old(links))
      ensures Validate(state).None? ==> RewrittenLive(state, result, old(addresses))
    {
      ok, result := false, state;
      hide Validate, FilledFrom, FilledLive, RewrittenLive, DistinctDestinations;
      if Validate(state).Some? { return; }
      ValidatedRoutes(state);
      ValidatedDevices(state);
      result := RewriteState(state);
      ExtendedLanAddresses(state, result, acquired);
      ExtendedLinks(state, result);
      ok := ProgramLinks(result);
      if !ok { return; }
      ok := ProgramRoutes(result.routes);
      if !ok { return; }
      var qdiscs := Succeeds();
      if !qdiscs || (LanPrefix(result).Some? && LanHost(result).None?) { return false, result; }
      ok := AddAll(DelegatedAddress(result, acquired) + HostAddress(result));
      if !ok { return; }
      ProgrammedCovered(state, result, addresses);
      ok := Succeeds();
    }

    /** The state as it will be Accepted: live addresses captured, the LAN
        host address merged. */
    method RewriteState(state: DesiredState) returns (result: DesiredState)
      ensures RewrittenLive(state, result, addresses)
      ensures Extends(state, result) && CreatedLinks(result) == CreatedLinks(state)
      ensures forall a :: a in IfaceAddresses(result.interfaces) ==> a in addresses || a in Programmed(state, acquired)
    {
      hide FilledFrom, FilledLive, FirstHost, DelegateLan;
      var filled := FillCaptured(state);
      result := Merged(filled);
      MergedExtends(filled);
      ExtendsTransitive(state, filled, result);
      ExtendedLanAddresses(state, filled, acquired);
      ProgrammedFromFilled(state, filled, addresses);
    }

    method ProgramLinks(state: DesiredState) returns (ok: bool)
      modifies `addresses, `links
      ensures old(addresses) <= addresses && old(links) <= links <= old(links) + CreatedLinks(state)
      ensures forall a :: a in addresses && a !in old(addresses) ==>
                a.0 in links && (a in IfaceAddresses(state.interfaces) || a in TunnelAddresses(state.wireguard))
      ensures ok ==> CreatedLinks(state) <= links && PlainLinks(state.interfaces) <= links
      ensures !faulty ==> (ok <==> PlainLinks(state.interfaces) <= old(links))
      ensures ok ==> forall i, c :: 0 <= i < |state.interfaces| && c in state.interfaces[i].addresses ==>
                       (state.interfaces[i].name, c) in addresses
      ensures ok ==> forall i, c :: 0 <= i < |state.wireguard| && c in state.wireguard[i].addresses ==>
                       (state.wireguard[i].name, c) in addresses
    {
      ok := ProgramInterfaces(state.interfaces);
      if !ok { return; }
      ok := ProgramVlans(state.interfaces);
      if !ok { return; }
      var wanIpv6 := Succeeds();
      if !wanIpv6 { return false; }
      ok := ProgramTunnels(state.wireguard);
    }

    // ----- undo -----------------------------------------------------------------

    /** `RollbackFootprint::capture`, before anything changes. */
    method Capture(current: DesiredState, proposed: DesiredState) returns (footprint: Option<Footprint>)
      ensures footprint.Some? ==>
        && (forall a :: a in footprint.value.addresses <==>
              a in DesiredAddresses(proposed, acquired) && a !in DesiredAddresses(current, acquired)
              && a.0 in links && a !in addresses)
        && (forall l :: l in footprint.value.links <==> l in CreatedLinks(proposed) && l !in links)
      ensures footprint.None? ==> faulty
    {
      var added := CaptureAddresses(DesiredAddresses(proposed, acquired), DesiredAddresses(current, acquired));
      var created := CaptureLinks(proposed);
      footprint := if added.Some? && created.Some? then Some(Footprint(added.value, created.value)) else None;
    }

    method CaptureAddresses(wanted: seq<Address>, kept: seq<Address>) returns (captured: Option<seq<Address>>)
      ensures captured.Some? ==>
        forall a :: a in captured.value <==> a in wanted && a !in kept && a.0 in links && a !in addresses
      ensures captured.None? ==> faulty
    {
      var added: seq<Address> := [];
      for i := 0 to |wanted|
        invariant forall a :: a in added <==> a in wanted[..i] && a !in kept && a.0 in links && a !in addresses
      {
        assert wanted[..i + 1] == wanted[..i] + [wanted[i]];
        var inspected := Succeeds();
        if wanted[i] !in kept {
          if !inspected { return None; }
          if wanted[i].0 in links && wanted[i] !in addresses { added := added + [wanted[i]]; }
        }
      }
      assert wanted[..|wanted|] == wanted;
      captured := Some(added);
    }

    method CaptureLinks(proposed: DesiredState) returns (captured: Option<seq<string>>)
      ensures captured.Some? ==> forall l :: l in captured.value <==> l in CreatedLinks(proposed) && l !in links
      ensures captured.None? ==> faulty
    {
      var created: seq<string> := [];
      for i := 0 to |proposed.interfaces|
        invariant forall l :: l in created <==>
            l !in links && exists j ::
              0 <= j < i && proposed.interfaces[j].vlan.Some? && proposed.interfaces[j].name == l
      {
        var inspected := Succeeds();
        if proposed.interfaces[i].vlan.Some? {
          if !inspected { return None; }
          if proposed.interfaces[i].name !in links { created := created + [proposed.interfaces[i].name]; }
        }
      }
      ghost var vlans := created;
      for i := 0 to |proposed.wireguard|
        invariant forall l :: l in created <==>
            l in vlans || (l !in links && exists j :: 0 <= j < i && proposed.wireguard[j].name == l)
      {
        var inspected := Succeeds();
        if !inspected { return None; }
        if proposed.wireguard[i].name !in links { created := created + [proposed.wireguard[i].name]; }
      }
      captured := Some(created);
    }

    /** Delete the routes only `previous` has; one that is not there is fine. */
    method RemoveStaleRoutes(previous: DesiredState, proposed: DesiredState) returns (ok: bool)
      modifies `routes
      ensures forall to :: RouteAt(routes, to) == RouteAt(old(routes), to)
                || (RouteAt(routes, to).None? && to in Destinations(previous.routes)
                    && to !in Destinations(proposed.routes)
                    && to in old(routes)
                    && exists i :: 0 <= i < |previous.routes| && previous.routes[i].to == to
                        && previous.routes[i].via == old(routes)[to].via
                        && previous.routes[i].dev in {None, old(routes)[to].dev})
      ensures old(WellFormed()) ==> WellFormed()
      ensures ok ==> forall i ::
        0 <= i < |previous.routes| && previous.routes[i].to !in Destinations(proposed.routes) ==>
          var r := previous.routes[i];
          r.to in routes && routes[r.to].via == r.via ==> r.dev.Some? && routes[r.to].dev != r.dev
      ensures !ok ==> faulty
    {
      for i := 0 to |previous.routes|
        invariant forall to :: RouteAt(routes, to) == RouteAt(old(routes), to)
                    || (RouteAt(routes, to).None? && to in Destinations(previous.routes)
                        && to !in Destinations(proposed.routes)
                        && exists j :: 0 <= j < |previous.routes| && previous.routes[j].to == to
                            && Names(previous.routes[j], RouteAt(old(routes), to)))
        invariant old(WellFormed()) ==> WellFormed()
        invariant forall j :: 0 <= j < i && previous.routes[j].to !in Destinations(proposed.routes) ==>
                    !Names(previous.routes[j], RouteAt(routes, previous.routes[j].to))
      {
        var route := previous.routes[i];
        if route.to !in Destinations(proposed.routes) {
          ok := Succeeds();
          if !ok { return; }
          if Names(route, RouteAt(routes, route.to)) { routes := routes - {route.to}; }
        }
      }
      ok := true;
    }

    /** `remove_tentative_state`: every step is tried; the undo is clean only
        if none failed. */
    method RemoveTentative(footprint: Footprint) returns (clean: bool)
      requires WellFormed()
      modifies `addresses, `links, `routes
      ensures clean ==>
        && links == (set l | l in old(links) && l !in footprint.links)
        && addresses == (set a | a in old(addresses) && a !in footprint.addresses && a.0 !in footprint.links)
        && routes == (map to | to in old(routes)
                               && !(old(routes)[to].dev.Some? && old(routes)[to].dev.value in footprint.links) ::
                                   old(routes)[to])
      ensures !clean ==> faulty
    {
      var unaddressed := RemoveAddresses(footprint.addresses);
      var unlinked := RemoveLinks(footprint.links);
      clean := unaddressed && unlinked;
    }

    method RemoveAddresses(tentative: seq<Address>) returns (clean: bool)
      modifies `addresses
      ensures addresses <= old(addresses)
      ensures clean ==> addresses == (set a | a in old(addresses) && a !in tentative)
      ensures !clean ==> faulty
    {
      clean := true;
      for i := 0 to |tentative|
        invariant addresses <= old(addresses)
        invariant clean ==> addresses == (set a | a in old(addresses) && a !in tentative[..i])
        invariant !clean ==> faulty
      {
        assert tentative[..i + 1] == tentative[..i] + [tentative[i]];
        var inspected := Succeeds();
        if !inspected {
          clean := false;
        } else if tentative[i] in addresses {
          var deleted := Succeeds();
          if deleted { addresses := addresses - {tentative[i]}; } else { clean := false; }
        }
      }
      assert tentative[..|tentative|] == tentative;
    }

    method RemoveLinks(tentative: seq<string>) returns (clean: bool)
      requires WellFormed()
      modifies `addresses, `links, `routes
      ensures clean ==>
        && links == (set l | l in old(links) && l !in tentative)
        && addresses == (set a | a in old(addresses) && a.0 !in tentative)
        && routes == (map to | to in old(routes)
                               && !(old(routes)[to].dev.Some? && old(routes)[to].dev.value in tentative) ::
                                   old(routes)[to])
      ensures !clean ==> faulty
    {
      clean := true;
      for i := 0 to |tentative|
        invariant WellFormed()
        invariant !clean ==> faulty
        invariant clean ==> links == (set l | l in old(links) && l !in tentative[..i])
        invariant clean ==> addresses == (set a | a in old(addresses) && a.0 !in tentative[..i])
        invariant clean ==> routes == (map to | to in old(routes)
                              && !(old(routes)[to].dev.Some? && old(routes)[to].dev.value in tentative[..i]) ::
                                  old(routes)[to])
      {
        assert tentative[..i + 1] == tentative[..i] + [tentative[i]];
        var inspected := Succeeds();
        if !inspected {
          clean := false;
        } else if tentative[i] in links {
          var deleted := DeleteLink(tentative[i]);
          if !deleted { clean := false; }
        }
      }
      assert tentative[..|tentative|] == tentative;
    }

    // ----- the whole attempt ----------------------------------------------------

    /** The live half of `restore_failed_apply`. */
    method Undo(current: DesiredState, proposed: DesiredState, footprint: Footprint) returns (clean: bool)
      requires WellFormed()
      modifies `addresses, `links, `routes
      ensures clean && CreatedLinks(current) <= old(links)
              && (forall a :: a in Programmed(current, acquired) ==> a in old(addresses)) ==>
        && links == (set l | l in old(links) && l !in footprint.links)
        && addresses == (set a | a in old(addresses) && a !in footprint.addresses && a.0 !in footprint.links)
        && UndoneRoutes(current, proposed, old(routes), routes, footprint.links)
      ensures clean ==> Validate(current).None?
      ensures !faulty ==> (clean <==> Validate(current).None? && PlainLinks(current.interfaces) <= old(links))
    {
      hide Validate;
      ghost var before := routes;
      var ok, _ := Program(current);
      ghost var reprogrammed := routes;
      var unrouted := RemoveStaleRoutes(proposed, current);
      ghost var unstaled := routes;
      clean := RemoveTentative(footprint);
      clean := clean && ok && unrouted;
      if clean { RoutesUndone(current, proposed, before, reprogrammed, unstaled, routes, footprint.links); }
    }

    /** One attempt to apply `proposed` over a live `current`, stopping
        anywhere, and its undo. The undo gives back exactly the old links,
        addresses and routes, except what escapes its footprint. */
    method FailedApply(current: DesiredState, proposed: DesiredState) returns (programmed: bool, restored: bool)
      requires WellFormed() && Live(current)
      modifies `addresses, `links, `routes
      ensures restored ==>
        && links == old(links)
        && old(addresses) <= addresses
        && (forall a :: a in addresses && a !in old(addresses) ==>
            Escapes(proposed, acquired, old(links), old(addresses), a))
        && (forall to :: RouteAt(routes, to) == RouteAt(old(routes), to)
                         || (Displaced(current, proposed, old(routes), to) && RouteAt(routes, to).None?))
      ensures restored && programmed ==>
        && (forall a :: Escapes(proposed, acquired, old(links), old(addresses), a) ==> a in addresses)
        && (forall to :: Displaced(current, proposed, old(routes), to) ==> RouteAt(routes, to).None?)
      ensures !faulty ==> (programmed <==> Validate(proposed).None? && PlainLinks(proposed.interfaces) <= old(links))
      ensures !faulty && PlainLinks(current.interfaces) <= old(links) ==> (restored <==> Validate(current).None?)
    {
      hide Validate, PlainLinks, CreatedLinks, DesiredAddresses, RewrittenLive, UndoneRoutes, Names;
      ghost var links0, addresses0, routes0 := links, addresses, routes;
      programmed := false;
      var captured := Capture(current, proposed);
      if captured.None? { return false, true; }
      var footprint := captured.value;
      var done, _ := Program(proposed);
      programmed := done;
      if programmed {
        var _ := RemoveStaleRoutes(current, proposed);
      }
      ghost var links1, addresses1, routes1 := links, addresses, routes;
      restored := Undo(current, proposed, footprint);
      if restored {
        forall a {
          AddressesRestored(current, proposed, acquired, links0, addresses0, links1, addresses1, footprint, a);
        }
        forall to {
          RoutesRestored(current, proposed, routes0, routes1, routes, footprint.links, programmed, to);
        }
      }
    }
  }

  /** A route as deleting the named links leaves it. */
  function Kept(hop: Option<Hop>, tentative: seq<string>): Option<Hop> {
    if hop.Some? && hop.value.dev.Some? && hop.value.dev.value in tentative then None else hop
  }

  /** What an undo leaves of the routes. */
  ghost predicate UndoneRoutes(current: DesiredState, proposed: DesiredState, before: map<Cidr, Hop>, after: map<Cidr,
      Hop>, tentative: seq<string>) {
    && (forall i :: 0 <= i < |current.routes| ==>
        RouteAt(after, current.routes[i].to) == Kept(Some(HopOf(current.routes[i])), tentative))
    && (forall to :: to !in Destinations(current.routes) ==>
          RouteAt(after, to) == Kept(RouteAt(before, to), tentative)
            || (to in Destinations(proposed.routes) && RouteAt(after, to).None?))
    && (forall i :: 0 <= i < |proposed.routes| && proposed.routes[i].to !in Destinations(current.routes) ==>
          !Names(proposed.routes[i], RouteAt(after, proposed.routes[i].to)))
  }

  lemma RoutesUndone(current: DesiredState, proposed: DesiredState, before: map<Cidr, Hop>, reprogrammed: map<Cidr,
      Hop>,
                     unstaled: map<Cidr, Hop>, after: map<Cidr, Hop>, tentative: seq<string>)
    requires forall to :: to !in Destinations(current.routes) ==> RouteAt(reprogrammed, to) == RouteAt(before, to)
    requires forall i :: 0 <= i < |current.routes| ==>
        RouteAt(reprogrammed, current.routes[i].to) == Some(HopOf(current.routes[i]))
    requires forall to :: RouteAt(unstaled, to) == RouteAt(reprogrammed, to)
               || (RouteAt(unstaled, to).None? && to in Destinations(proposed.routes)
                   && to !in Destinations(current.routes))
    requires forall i :: 0 <= i < |proposed.routes| && proposed.routes[i].to !in Destinations(current.routes) ==>
               !Names(proposed.routes[i], RouteAt(unstaled, proposed.routes[i].to))
    requires forall to :: RouteAt(after, to) == Kept(RouteAt(unstaled, to), tentative)
    ensures UndoneRoutes(current, proposed, before, after, tentative)
  {
    forall i | 0 <= i < |current.routes|
      ensures RouteAt(after, current.routes[i].to) == Kept(Some(HopOf(current.routes[i])), tentative)
    {
      assert current.routes[i].to in Destinations(current.routes);
    }
  }

  /** What an attempt that may stop anywhere does to the routes. */
  ghost predicate TriedRoutes(current: DesiredState, proposed: DesiredState, before: map<Cidr, Hop>, after: map<Cidr,
      Hop>, programmed: bool) {
    forall to :: to !in Destinations(current.routes) ==>
      && (|| RouteAt(after, to) == RouteAt(before, to)
          || exists i :: 0 <= i < |proposed.routes| && proposed.routes[i].to == to
              && RouteAt(after, to) == Some(HopOf(proposed.routes[i])))
      && (programmed && to in Destinations(proposed.routes) ==>
            exists i :: 0 <= i < |proposed.routes| && proposed.routes[i].to == to
              && RouteAt(after, to) == Some(HopOf(proposed.routes[i])))
  }

  lemma RoutesRestored(current: DesiredState, proposed: DesiredState, routes0: map<Cidr, Hop>, routes1: map<Cidr, Hop>,
                       routes2: map<Cidr, Hop>, tentative: seq<string>, programmed: bool, to: Cidr)
    requires TriedRoutes(current, proposed, routes0, routes1, programmed)
    requires UndoneRoutes(current, proposed, routes1, routes2, tentative)
    requires Kept(RouteAt(routes0, to), tentative) == RouteAt(routes0, to)
    requires forall i :: 0 <= i < |current.routes| ==>
        RouteAt(routes0, current.routes[i].to) == Some(HopOf(current.routes[i]))
    ensures RouteAt(routes2, to) == RouteAt(routes0, to)
            || (Displaced(current, proposed, routes0, to) && RouteAt(routes2, to).None?)
    ensures programmed && Displaced(current, proposed, routes0, to) ==> RouteAt(routes2, to).None?
  {
    if to in Destinations(current.routes) {
      var i :| 0 <= i < |current.routes| && current.routes[i].to == to;
      assert RouteAt(routes2, current.routes[i].to) == Kept(Some(HopOf(current.routes[i])), tentative);
    } else if i :|
        && 0 <= i < |proposed.routes| && proposed.routes[i].to == to
        && RouteAt(routes1, to) == Some(HopOf(proposed.routes[i]))
    {
      assert !Names(proposed.routes[i], RouteAt(routes2, to));
    }
  }

  lemma AddressesRestored(current: DesiredState, proposed: DesiredState, acquired: map<string, Cidr>,
      links0: set<string>, live0: set<Address>,
                          links1: set<string>, live1: set<Address>, footprint: Footprint, a: Address)
    requires forall b :: b in live0 ==> b.0 in links0
    requires forall b :: b in Programmed(current, acquired) ==> b in live0
    requires links0 <= links1 <= links0 + CreatedLinks(proposed) && live0 <= live1
    requires forall b :: b in live1 && b !in live0 ==> b.0 in links1 && b in Programmed(proposed, acquired)
    requires forall b :: b in footprint.addresses <==>
               b in DesiredAddresses(proposed, acquired) && b !in DesiredAddresses(current, acquired) && b.0 in links0
                 && b !in live0
    requires forall l :: l in footprint.links <==> l in CreatedLinks(proposed) && l !in links0
    ensures a in live0 ==> a in live1 && a !in footprint.addresses && a.0 !in footprint.links
    ensures a in live1 && a !in footprint.addresses && a.0 !in footprint.links ==>
              a in live0 || Escapes(proposed, acquired, links0, live0, a)
    ensures a in live1 && Escapes(proposed, acquired, links0, live0, a) ==>
        a !in footprint.addresses && a.0 !in footprint.links
  {
    hide Programmed, DesiredAddresses, CreatedLinks, HostAddress, HostShadowed;
    FootprintMisses(current, acquired, a);
    FootprintMisses(proposed, acquired, a);
  }

  lemma ProgrammedFromFilled(state: DesiredState, filled: DesiredState, live: set<Address>)
    requires Extends(state, filled)
    requires forall i, c :: 0 <= i < |filled.interfaces| && c in filled.interfaces[i].addresses ==>
               c in state.interfaces[i].addresses || (state.interfaces[i].name, c) in live
    ensures forall a :: a in IfaceAddresses(Merged(filled).interfaces) ==>
              a in live || a in IfaceAddresses(state.interfaces) || a in HostAddress(filled)
  {
    forall a | a in IfaceAddresses(Merged(filled).interfaces)
      ensures a in live || a in IfaceAddresses(state.interfaces) || a in HostAddress(filled)
    {
      if LanHost(filled).Some? { MergeHostAddresses(filled.interfaces, LanHost(filled).value, a); }
      if a in IfaceAddresses(filled.interfaces) {
        var i := IfaceAddressOrigin(filled.interfaces, a);
        assert IfaceExtends(state.interfaces[i], filled.interfaces[i]);
        if a.1 in state.interfaces[i].addresses { IfaceAddressesContain(state.interfaces, i, a.1); }
      }
    }
  }

  lemma ProgrammedCovered(state: DesiredState, result: DesiredState, live: set<Address>)
    requires Extends(state, result)
    requires forall i, c :: 0 <= i < |result.interfaces| && c in result.interfaces[i].addresses ==>
        (result.interfaces[i].name, c) in live
    requires forall i, c :: 0 <= i < |result.wireguard| && c in result.wireguard[i].addresses ==>
        (result.wireguard[i].name, c) in live
    ensures forall a :: a in IfaceAddresses(state.interfaces) || a in TunnelAddresses(state.wireguard) ==> a in live
  {
    forall a | a in IfaceAddresses(state.interfaces) || a in TunnelAddresses(state.wireguard)
      ensures a in live
    {
      if a in IfaceAddresses(state.interfaces) {
        var i := IfaceAddressOrigin(state.interfaces, a);
        assert IfaceExtends(state.interfaces[i], result.interfaces[i]);
        assert a == (result.interfaces[i].name, a.1);
      } else {
        var i := TunnelAddressOrigin(state.wireguard, a);
        assert a == (result.wireguard[i].name, a.1);
      }
    }
  }

  /** The devices a valid state names are its own links. */
  lemma ValidatedDevices(state: DesiredState)
    requires Validate(state).None?
    ensures DevicesIn(state.routes, PlainLinks(state.interfaces) + CreatedLinks(state))
    ensures LanPrefix(state).Some? ==> LanHost(state).Some?
  {
    Acceptability.ValidateMeaning(state);
    hide Validate;
    forall k | 0 <= k < |state.routes| && state.routes[k].dev.Some?
      ensures state.routes[k].dev.value in PlainLinks(state.interfaces) + CreatedLinks(state)
    {
      var dev := state.routes[k].dev.value;
      assert Acceptability.RouteSound(state, state.routes[k]);
      if i :| i in state.interfaces && i.name == dev {
        var n :| 0 <= n < |state.interfaces| && state.interfaces[n] == i;
      } else {
        var t :| t in state.wireguard && t.name == dev;
        var n :| 0 <= n < |state.wireguard| && state.wireguard[n] == t;
      }
    }
  }

  lemma ExtendedLinks(state: DesiredState, result: DesiredState)
    requires Extends(state, result)
    ensures PlainLinks(result.interfaces) == PlainLinks(state.interfaces) && CreatedLinks(result) == CreatedLinks(state)
    ensures LanPrefix(result) == LanPrefix(state) && LanHost(result) == LanHost(state)
    ensures FirstLan(result.interfaces).Some? ==>
      FirstLan(result.interfaces).value.name in PlainLinks(state.interfaces) + CreatedLinks(state)
  {
    assert forall i :: 0 <= i < |state.interfaces| ==> IfaceExtends(state.interfaces[i], result.interfaces[i]);
    Acceptability.FirstLanMeaning(result.interfaces);
    if k: nat :| Acceptability.FirstLanAt(result.interfaces, k) {
      assert FirstLan(result.interfaces) == Some(result.interfaces[k]);
    }
  }

  // ----- valid states an undo does not restore ---------------------------------------

  /** The LAN has 10.0.0.2/24 and 10.0.0.1/25 and its prefix is 10.0.0.0/24:
      10.0.0.1/24 is added and outlives the undo. */
  lemma EscapeExample(acquired: map<string, Cidr>, links: set<string>, live: set<Address>)
    requires "lan0" in links && ("lan0", Cidr(V4(0x0A00_0001), 24)) !in live
    ensures exists state: DesiredState ::
      Validate(state).None? && Escapes(state, acquired, links, live, ("lan0", Cidr(V4(0x0A00_0001), 24)))
  {
    hide Validate, Escapes;
    var lan := Iface("lan0", "", Lan, [Cidr(V4(0x0A00_0002), 24), Cidr(V4(0x0A00_0001), 25)], None, None, false, None,
        false);
    var wan := Iface("wan0", "", Wan, [], None, None, false, None, false);
    var prefix := Some(Cidr(V4(0x0A00_0000), 24));
    var state := LanAndWan(lan, wan, prefix, []);
    assert CheckLanServices(state).None? by { assert Network4(lan.addresses[0]).value in Networks(lan.addresses); }
    LanAndWanValidate(lan, wan, prefix, []);
    EscapesFrom(state, lan, wan, acquired, links, live);
  }

  lemma EscapesFrom(state: DesiredState, lan: Iface, wan: Iface, acquired: map<string, Cidr>, links: set<string>,
      live: set<Address>)
    requires lan == Iface("lan0", "", Lan, [Cidr(V4(0x0A00_0002), 24), Cidr(V4(0x0A00_0001), 25)], None, None, false,
        None, false)
    requires wan == Iface("wan0", "", Wan, [], None, None, false, None, false)
    requires state == LanAndWan(lan, wan, Some(Cidr(V4(0x0A00_0000), 24)), [])
    requires "lan0" in links && ("lan0", Cidr(V4(0x0A00_0001), 24)) !in live
    ensures Escapes(state, acquired, links, live, ("lan0", Cidr(V4(0x0A00_0001), 24)))
  {
    var host := Cidr(V4(0x0A00_0001), 24);
    assert LanHost(state) == Some(host);
    assert lan.addresses[1].ip == host.ip;
    assert FirstLan(state.interfaces) == Some(lan);
    OnDeviceMembers(lan.name, lan.addresses, (lan.name, host));
    MergeHostAddresses(state.interfaces, host, (lan.name, host));
    assert state.interfaces[1..] == [wan] && [wan][1..] == [];
    assert IfaceAddresses([wan]) == [];
    assert FirstRequesting(Merged(state).interfaces).None?;
  }

  /** Two valid states, the second with one more route: if the kernel already
      had a route of its own at that destination, programming replaces it and
      the undo deletes what replaced it. */
  lemma DisplacedExample(live: map<Cidr, Hop>)
    requires Cidr(V4(0xC0A8_3200), 24) in live
    ensures exists current: DesiredState, proposed: DesiredState ::
      && Validate(current).None? && Validate(proposed).None?
      && Displaced(current, proposed, live, Cidr(V4(0xC0A8_3200), 24))
  {
    hide Validate;
    var lan := Iface("lan0", "", Lan, [Cidr(V4(0x0A00_0001), 24)], None, None, false, None, false);
    var wan := Iface("wan0", "", Wan, [], None, None, false, None, false);
    var route := StaticRoute(Cidr(V4(0xC0A8_3200), 24), V4(0x0A00_0009), None);
    var current, proposed := LanAndWan(lan, wan, None, []), LanAndWan(lan, wan, None, [route]);
    assert CheckRoute(proposed, route, {}).None? by { RouteOverLan(proposed, lan, wan, route); }
    LanAndWanValidate(lan, wan, None, []);
    LanAndWanValidate(lan, wan, None, [route]);
    assert proposed.routes[0].to in Destinations(proposed.routes);
    assert Displaced(current, proposed, live, Cidr(V4(0xC0A8_3200), 24));
  }

  lemma RouteOverLan(state: DesiredState, lan: Iface, wan: Iface, route: StaticRoute)
    requires lan == Iface("lan0", "", Lan, [Cidr(V4(0x0A00_0001), 24)], None, None, false, None, false)
    requires wan == Iface("wan0", "", Wan, [], None, None, false, None, false)
    requires route == StaticRoute(Cidr(V4(0xC0A8_3200), 24), V4(0x0A00_0009), None)
    requires state == LanAndWan(lan, wan, None, [route])
    ensures CheckRoute(state, route, {}).None?
  {
    assert state.interfaces[0] == lan && state.interfaces[1] == wan;
    assert Pow2(4) == 16;
    Pow2Splits(4, 4);
    assert Block4(24) == 256;
    assert GatewayInCidr(route.via, lan.addresses[0]);
    assert OnLinkAddresses(state, lan)[0] == lan.addresses[0];
    assert ReachesOver(route.via, OnLinkAddresses(state, lan));
  }
}
