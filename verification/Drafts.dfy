/** Reconciling a draft with a newer Accepted state: what the draft's sections
    own is taken from the review, everything else from Accepted. */
module Drafts {
  import opened Common
  import opened Desired
  import opened Validation
  import opened InterfaceEdits

  datatype Section =
    | RoutesSection | InterfacesSection | ServicesSection | FirewallSection | WireguardSection | QdiscsSection
    | Ipv6Section | ImportSection | UnknownSection(text: string)

  datatype Services = Services(lanPrefix: Option<Cidr>, dhcpPool: Option<Pool>, wanPd: Option<Cidr>)

  /** A tunnel as a form sends it: blank or absent parts keep what is stored. */
  datatype WgInput = WgInput(
    name: string,
    privateKey: string,
    listenPort: Option<nat>,
    addresses: seq<Cidr>,
    routeTo: Option<Cidr>,
    routeVia: Option<Ip>)

  datatype WanIpv6 = WanIpv6(name: string, mode: Option<Ipv6Mode>, requestPd: bool)

  /** `edits` are the tunnels the draft edited; none recorded means all. */
  datatype Draft = Draft(desired: DesiredState, sections: seq<Section>, edits: seq<string>)

  datatype Review = Review(
    routes: Option<seq<StaticRoute>>,
    interfaces: Option<seq<Iface>>,
    uiExposure: Option<seq<string>>,
    services: Option<Services>,
    firewall: Option<seq<PolicyRule>>,
    wireguard: Option<seq<WgInput>>,
    qdiscs: Option<seq<Qdisc>>,
    ipv6: Option<seq<WanIpv6>>)

  datatype ReviewError = NeedsReview(section: Section) | HalfRoute | BlankQdisc | NotAWan

  function EffectiveSections(draft: Draft): seq<Section> {
    if draft.sections == [] then [RoutesSection] else draft.sections
  }

  predicate EditedTunnel(draft: Draft, name: string) {
    draft.edits == [] || name in draft.edits
  }

  predicate WhiteSpace(c: char) {
    var code := c as int;
    || 9 <= code <= 13 || code == 0x20 || code == 0x85 || code == 0xA0 || code == 0x1680
    || 0x2000 <= code <= 0x200A || code in {0x2028, 0x2029, 0x202F, 0x205F, 0x3000}
  }

  /** `trim` leaves nothing. */
  predicate Blank(text: string) {
    forall i :: 0 <= i < |text| ==> WhiteSpace(text[i])
  }

  /** Nothing but characters that Unicode calls white space. */
  predicate Spaces(text: string) {
    forall c :: c in text ==>
      (c as int) in {9, 10, 11, 12, 13, 0x20, 0x85, 0xA0, 0x1680, 0x2000, 0x2001, 0x2002, 0x2003, 0x2004, 0x2005,
        0x2006,
                     0x2007, 0x2008, 0x2009, 0x200A, 0x2028, 0x2029, 0x202F, 0x205F, 0x3000}
  }

  lemma BlankMeaning(text: string)
    ensures Blank(text) <==> Spaces(text)
  {
    if Blank(text) {
      forall c | c in text
        ensures WhiteSpace(c)
      {
        var i :| 0 <= i < |text| && text[i] == c;
      }
    } else {
      var i :| 0 <= i < |text| && !WhiteSpace(text[i]);
      assert text[i] in text;
    }
  }

  // ----- WireGuard ------------------------------------------------------------------

  /** The first tunnel of that name. */
  function Position(tunnels: seq<Wg>, name: string): (p: nat)
    ensures p <= |tunnels|
    ensures p < |tunnels| ==> tunnels[p].name == name
    ensures forall i :: 0 <= i < p ==> tunnels[i].name != name
  {
    if tunnels == [] || tunnels[0].name == name then 0 else 1 + Position(tunnels[1..], name)
  }

  function Named(tunnels: seq<Wg>, name: string): Option<Wg> {
    var p := Position(tunnels, name);
    if p < |tunnels| then Some(tunnels[p]) else None
  }

  /** Overwrite the tunnel of that name where it stands, or add it. */
  function Put(tunnels: seq<Wg>, t: Wg): seq<Wg> {
    var p := Position(tunnels, t.name);
    if p < |tunnels| then tunnels[p := t] else tunnels + [t]
  }

  /** Names keep their places; new ones go to the end. */
  predicate KeepsPlaces(before: seq<Wg>, after: seq<Wg>) {
    |before| <= |after| && forall i :: 0 <= i < |before| ==> after[i].name == before[i].name
  }

  lemma PutNamed(tunnels: seq<Wg>, t: Wg, name: string)
    ensures Named(Put(tunnels, t), name) == if name == t.name then Some(t) else Named(tunnels, name)
  {
    var p, after := Position(tunnels, t.name), Put(tunnels, t);
    var q, r := Position(tunnels, name), Position(after, name);
    if name == t.name {
      assert after[p].name == name;
    } else if q < |tunnels| {
      assert after[q] == tunnels[q];
    }
  }

  lemma PutKeeps(tunnels: seq<Wg>, t: Wg)
    ensures KeepsPlaces(tunnels, Put(tunnels, t))
    ensures DistinctTunnels(tunnels) ==> DistinctTunnels(Put(tunnels, t))
  {
  }

  /** A form's tunnel over the stored one. */
  function Merged(stored: Option<Wg>, input: WgInput): Wg {
    if stored.None? then Wg(input.name, input.privateKey, input.listenPort, input.addresses)
    else
      var t := stored.value;
      t.(privateKey := if Blank(input.privateKey) then t.privateKey else input.privateKey,
         listenPort := if input.listenPort.None? then t.listenPort else input.listenPort,
         addresses := if input.addresses == [] then t.addresses else input.addresses)
  }

  /** What a form makes of the tunnel of one name, input by input. */
  function Reviewed(stored: Option<Wg>, inputs: seq<WgInput>, name: string): Option<Wg>
    decreases |inputs|
  {
    if inputs == [] then stored
    else
      var before, last := Reviewed(stored, inputs[..|inputs| - 1], name), inputs[|inputs| - 1];
      if last.name == name then Some(Merged(before, last)) else before
  }

  predicate HalfRouted(input: WgInput) {
    input.routeTo.None? != input.routeVia.None?
  }

  /** The routes a form's tunnels bring. */
  function TunnelRoutes(inputs: seq<WgInput>): seq<StaticRoute>
    requires forall i :: 0 <= i < |inputs| ==> !HalfRouted(inputs[i])
    decreases |inputs|
  {
    if inputs == [] then []
    else
      var last := inputs[|inputs| - 1];
      assert !HalfRouted(last);
      TunnelRoutes(inputs[..|inputs| - 1])
      + if last.routeTo.None? then [] else [StaticRoute(last.routeTo.value, last.routeVia.value, Some(last.name))]
  }

  predicate Supersedes(route: StaticRoute, existing: StaticRoute) {
    existing.to == route.to && existing.dev == route.dev
  }

  function Without(routes: seq<StaticRoute>, route: StaticRoute): seq<StaticRoute> {
    if routes == [] then []
    else (if Supersedes(route, routes[0]) then [] else [routes[0]]) + Without(routes[1..], route)
  }

  /** Each tunnel route replaces the same destination over the same tunnel. */
  function WithRoutes(routes: seq<StaticRoute>, added: seq<StaticRoute>): seq<StaticRoute>
    decreases |added|
  {
    if added == [] then routes
    else Without(WithRoutes(routes, added[..|added| - 1]), added[|added| - 1]) + [added[|added| - 1]]
  }

  method StoreWireguard(desired: DesiredState, tunnels: seq<WgInput>, preserved: seq<Wg>)
    returns (r: Result<DesiredState, ReviewError>)
    ensures r.Err? <==> exists t :: t in tunnels && t.routeTo.Some? != t.routeVia.Some?
    ensures r.Err? ==> r.error == HalfRoute
    ensures r.Ok? ==>
      && r.value == desired.(wireguard := r.value.wireguard,
          routes := WithRoutes(desired.routes, TunnelRoutes(tunnels)))
      && KeepsPlaces(preserved, r.value.wireguard)
      && (DistinctTunnels(preserved) ==> DistinctTunnels(r.value.wireguard))
      && forall name :: Named(r.value.wireguard, name) == Reviewed(Named(preserved, name), tunnels, name)
  {
    hide Blank, Position, DistinctTunnels, Named, Put;
    var next := preserved;
    var routes: seq<StaticRoute> := [];
    for i := 0 to |tunnels|
      invariant forall j :: 0 <= j < i ==> !HalfRouted(tunnels[j])
      invariant routes == TunnelRoutes(tunnels[..i])
      invariant KeepsPlaces(preserved, next) && (DistinctTunnels(preserved) ==> DistinctTunnels(next))
      invariant forall name :: Named(next, name) == Reviewed(Named(preserved, name), tunnels[..i], name)
    {
      var tunnel := tunnels[i];
      if HalfRouted(tunnel) {
        assert tunnel in tunnels;
        return Err(HalfRoute);
      }
      assert tunnels[..i + 1][..i] == tunnels[..i];
      if tunnel.routeTo.Some? {
        routes := routes + [StaticRoute(tunnel.routeTo.value, tunnel.routeVia.value, Some(tunnel.name))];
      }
      var merged := Merged(Named(next, tunnel.name), tunnel);
      MergedName(next, tunnel);
      PutKeeps(next, merged);
      forall name
        ensures Named(Put(next, merged), name) == Reviewed(Named(preserved, name), tunnels[..i + 1], name)
      {
        PutNamed(next, merged, name);
      }
      next := Put(next, merged);
    }
    assert tunnels[..|tunnels|] == tunnels;
    var replaced := ReplaceRoutes(desired.routes, routes);
    r := Ok(desired.(wireguard := next, routes := replaced));
  }

  lemma MergedName(tunnels: seq<Wg>, input: WgInput)
    ensures Merged(Named(tunnels, input.name), input).name == input.name
  {
  }

  /** Two routes for one place over one device. */
  predicate Rivals(a: StaticRoute, b: StaticRoute) {
    a.to == b.to && a.dev == b.dev
  }

  lemma {:induction false} WithoutMeaning(routes: seq<StaticRoute>, route: StaticRoute, r: StaticRoute)
    ensures r in Without(routes, route) <==> r in routes && !Rivals(r, route)
  {
    if routes != [] {
      WithoutMeaning(routes[1..], route, r);
      assert r in routes <==> r == routes[0] || r in routes[1..];
    }
  }

  predicate Unrivalled(r: StaticRoute, added: seq<StaticRoute>) {
    forall i :: 0 <= i < |added| ==> !Rivals(r, added[i])
  }

  /** Added, with no rival after it. */
  predicate LastAdded(r: StaticRoute, added: seq<StaticRoute>) {
    exists i :: 0 <= i < |added| && added[i] == r && Unrivalled(r, added[i + 1..])
  }

  lemma UnrivalledAppend(r: StaticRoute, added: seq<StaticRoute>, last: StaticRoute)
    ensures Unrivalled(r, added + [last]) <==> Unrivalled(r, added) && !Rivals(r, last)
  {
    if Unrivalled(r, added + [last]) {
      assert (added + [last])[|added|] == last;
      assert forall i :: 0 <= i < |added| ==> added[i] == (added + [last])[i];
    }
  }

  lemma NothingAdded(r: StaticRoute)
    ensures Unrivalled(r, []) && !LastAdded(r, [])
  {
  }

  lemma LastAddedAppend(r: StaticRoute, added: seq<StaticRoute>, last: StaticRoute)
    ensures LastAdded(r, added + [last]) <==> r == last || (LastAdded(r, added) && !Rivals(r, last))
  {
    var all := added + [last];
    hide Unrivalled;
    forall i | 0 <= i < |added|
      ensures added[i] == all[i] && (Unrivalled(r, all[i + 1..]) <==> Unrivalled(r, added[i + 1..]) && !Rivals(r, last))
    {
      assert all[i + 1..] == added[i + 1..] + [last];
      UnrivalledAppend(r, added[i + 1..], last);
    }
    NothingAdded(r);
    assert all[|added| + 1..] == [];
    assert all[|added|] == last && forall i :: 0 <= i < |added| ==> all[i] == added[i];
  }

  /** Which routes there are in the end: those given that nothing added rivals,
      and of what was added the last of its rivals. */
  lemma {:induction false} WithRoutesMeaning(routes: seq<StaticRoute>, added: seq<StaticRoute>, r: StaticRoute)
    ensures r in WithRoutes(routes, added) <==> (r in routes && Unrivalled(r, added)) || LastAdded(r, added)
    decreases |added|
  {
    hide Unrivalled, LastAdded, Without;
    if added != [] {
      var last, rest := added[|added| - 1], added[..|added| - 1];
      WithRoutesMeaning(routes, rest, r);
      WithoutMeaning(WithRoutes(routes, rest), last, r);
      assert rest + [last] == added;
      UnrivalledAppend(r, rest, last);
      LastAddedAppend(r, rest, last);
    } else {
      NothingAdded(r);
    }
  }

  method ReplaceRoutes(routes: seq<StaticRoute>, added: seq<StaticRoute>) returns (replaced: seq<StaticRoute>)
    ensures replaced == WithRoutes(routes, added)
  {
    replaced := routes;
    for i := 0 to |added|
      invariant replaced == WithRoutes(routes, added[..i])
    {
      assert added[..i + 1][..i] == added[..i];
      replaced := Without(replaced, added[i]) + [added[i]];
    }
    assert added[..|added|] == added;
  }

  /** What a draft makes of the tunnel of one name: its own, if it edited it. */
  function Carried(stored: Option<Wg>, draft: Draft, drafted: seq<Wg>, name: string): Option<Wg>
    decreases |drafted|
  {
    if drafted == [] then stored
    else if drafted[|drafted| - 1].name == name && EditedTunnel(draft, name) then Some(drafted[|drafted| - 1])
    else Carried(stored, draft, drafted[..|drafted| - 1], name)
  }

  method CarryWireguardEdits(accepted: DesiredState, draft: Draft) returns (carried: DesiredState)
    ensures carried == accepted.(wireguard := carried.wireguard)
    ensures KeepsPlaces(accepted.wireguard, carried.wireguard)
    ensures DistinctTunnels(accepted.wireguard) ==> DistinctTunnels(carried.wireguard)
    ensures forall name ::
      Named(carried.wireguard, name)
      == Carried(Named(accepted.wireguard, name), draft, draft.desired.wireguard, name)
  {
    hide Position, DistinctTunnels, Named, Put;
    var drafted := draft.desired.wireguard;
    var next := accepted.wireguard;
    for i := 0 to |drafted|
      invariant KeepsPlaces(accepted.wireguard, next) && (DistinctTunnels(accepted.wireguard) ==> DistinctTunnels(next))
      invariant forall name :: Named(next, name) == Carried(Named(accepted.wireguard, name), draft, drafted[..i], name)
    {
      assert drafted[..i + 1][..i] == drafted[..i];
      if EditedTunnel(draft, drafted[i].name) {
        PutKeeps(next, drafted[i]);
        forall name
          ensures Named(Put(next, drafted[i]), name)
              == Carried(Named(accepted.wireguard, name), draft, drafted[..i + 1], name)
        {
          PutNamed(next, drafted[i], name);
        }
        next := Put(next, drafted[i]);
      }
    }
    assert drafted[..|drafted|] == drafted;
    carried := accepted.(wireguard := next);
  }

  /** `retain`: only the inputs for tunnels the draft edited. */
  function EditedInputs(draft: Draft, inputs: seq<WgInput>): (r: seq<WgInput>)
    ensures forall i :: i in r <==> i in inputs && EditedTunnel(draft, i.name)
  {
    if inputs == [] then []
    else
      assert forall i :: i in inputs <==> i == inputs[0] || i in inputs[1..];
      (if EditedTunnel(draft, inputs[0].name) then [inputs[0]] else []) + EditedInputs(draft, inputs[1..])
  }

  lemma {:induction false} ReviewedUntouched(stored: Option<Wg>, inputs: seq<WgInput>, name: string)
    requires forall i :: i in inputs ==> i.name != name
    ensures Reviewed(stored, inputs, name) == stored
    decreases |inputs|
  {
    if inputs != [] {
      assert inputs[|inputs| - 1] in inputs;
      ReviewedUntouched(stored, inputs[..|inputs| - 1], name);
    }
  }

  lemma {:induction false} CarriedUntouched(stored: Option<Wg>, draft: Draft, drafted: seq<Wg>, name: string)
    requires !EditedTunnel(draft, name)
    ensures Carried(stored, draft, drafted, name) == stored
    decreases |drafted|
  {
    if drafted != [] { CarriedUntouched(stored, draft, drafted[..|drafted| - 1], name); }
  }

  lemma {:induction false} CarriedOwn(stored: Option<Wg>, draft: Draft, drafted: seq<Wg>, i: nat)
    requires i < |drafted| && DistinctTunnels(drafted) && EditedTunnel(draft, drafted[i].name)
    ensures Carried(stored, draft, drafted, drafted[i].name) == Some(drafted[i])
    decreases |drafted|
  {
    if i < |drafted| - 1 { CarriedOwn(stored, draft, drafted[..|drafted| - 1], i); }
  }

  /** The last key a form gave for this name, if any did. */
  function LastKey(inputs: seq<WgInput>, name: string, stored: string): string
    decreases |inputs|
  {
    if inputs == [] then stored
    else if inputs[|inputs| - 1].name == name && !Spaces(inputs[|inputs| - 1].privateKey)
        then inputs[|inputs| - 1].privateKey
    else LastKey(inputs[..|inputs| - 1], name, stored)
  }

  function LastPort(inputs: seq<WgInput>, name: string, stored: Option<nat>): Option<nat>
    decreases |inputs|
  {
    if inputs == [] then stored
    else if inputs[|inputs| - 1].name == name && inputs[|inputs| - 1].listenPort.Some?
        then inputs[|inputs| - 1].listenPort
    else LastPort(inputs[..|inputs| - 1], name, stored)
  }

  function LastAddresses(inputs: seq<WgInput>, name: string, stored: seq<Cidr>): seq<Cidr>
    decreases |inputs|
  {
    if inputs == [] then stored
    else if inputs[|inputs| - 1].name == name && inputs[|inputs| - 1].addresses != []
        then inputs[|inputs| - 1].addresses
    else LastAddresses(inputs[..|inputs| - 1], name, stored)
  }

  /** A stored tunnel after a form: of each part the last that was given. */
  lemma {:induction false} ReviewedParts(stored: Wg, inputs: seq<WgInput>, name: string)
    ensures Reviewed(Some(stored), inputs, name) ==
            Some(Wg(stored.name, LastKey(inputs, name, stored.privateKey), LastPort(inputs, name, stored.listenPort),
                    LastAddresses(inputs, name, stored.addresses)))
    decreases |inputs|
  {
    if inputs != [] {
      ReviewedParts(stored, inputs[..|inputs| - 1], name);
      BlankMeaning(inputs[|inputs| - 1].privateKey);
    }
  }

  /** A tunnel that was not stored begins as the form first gives it. */
  lemma {:induction false} ReviewedFirst(inputs: seq<WgInput>, name: string, i: nat)
    requires i < |inputs| && inputs[i].name == name && forall j :: 0 <= j < i ==> inputs[j].name != name
    ensures var first := Wg(name, inputs[i].privateKey, inputs[i].listenPort, inputs[i].addresses);
      Reviewed(None, inputs, name) == Reviewed(Some(first), inputs[i + 1..], name)
    decreases |inputs|
  {
    if i < |inputs| - 1 {
      ReviewedFirst(inputs[..|inputs| - 1], name, i);
      assert inputs[i + 1..][..|inputs| - i - 2] == inputs[..|inputs| - 1][i + 1..];
    } else {
      ReviewedUntouched(None, inputs[..i], name);
      assert inputs[i + 1..] == [];
    }
  }

  lemma {:induction false} EditedInputsAppend(draft: Draft, inputs: seq<WgInput>, last: WgInput)
    ensures EditedInputs(draft, inputs + [last]) ==
            EditedInputs(draft, inputs)
            + if draft.edits == [] || last.name in draft.edits then [last] else []
  {
    if inputs == [] {
      assert [] + [last] == [last] && EditedInputs(draft, [last][1..]) == [];
    } else {
      assert (inputs + [last])[1..] == inputs[1..] + [last];
      EditedInputsAppend(draft, inputs[1..], last);
    }
  }

  lemma ReviewedAppend(stored: Option<Wg>, inputs: seq<WgInput>, last: WgInput, name: string)
    ensures var before := Reviewed(stored, inputs, name);
      Reviewed(stored, inputs + [last], name) == if last.name == name then Some(Merged(before, last)) else before
  {
    hide Merged;
    assert (inputs + [last])[..|inputs|] == inputs;
  }

  /** Leaving out the inputs for other tunnels makes no difference to a tunnel
      that was edited. */
  lemma {:induction false} EditedInputsReview(draft: Draft, stored: Option<Wg>, inputs: seq<WgInput>, name: string)
    requires draft.edits == [] || name in draft.edits
    ensures Reviewed(stored, EditedInputs(draft, inputs), name) == Reviewed(stored, inputs, name)
    decreases |inputs|
  {
    hide Merged, Reviewed, EditedInputs;
    if inputs == [] {
      assert EditedInputs(draft, inputs) == inputs by { NoInputs(draft); }
    } else {
      var rest, last := inputs[..|inputs| - 1], inputs[|inputs| - 1];
      var kept := EditedInputs(draft, rest);
      EditedInputsAppend(draft, rest, last);
      EditedInputsReview(draft, stored, rest, name);
      ReviewedAppend(stored, rest, last, name);
      ReviewedAppend(stored, kept, last, name);
      assert rest + [last] == inputs && kept + [] == kept;
    }
  }

  lemma NoInputs(draft: Draft)
    ensures EditedInputs(draft, []) == []
  {
  }

  // ----- qdiscs and WAN IPv6 ------------------------------------------------------------

  function QdiscAt(qdiscs: seq<Qdisc>, dev: string): (p: nat)
    ensures p <= |qdiscs|
    ensures p < |qdiscs| ==> qdiscs[p].dev == dev
    ensures forall i :: 0 <= i < p ==> qdiscs[i].dev != dev
  {
    if qdiscs == [] || qdiscs[0].dev == dev then 0 else 1 + QdiscAt(qdiscs[1..], dev)
  }

  function KindOn(qdiscs: seq<Qdisc>, dev: string): Option<QdiscKind> {
    var p := QdiscAt(qdiscs, dev);
    if p < |qdiscs| then Some(qdiscs[p].kind) else None
  }

  function UpdatedKind(stored: Option<QdiscKind>, updates: seq<Qdisc>, dev: string): Option<QdiscKind>
    decreases |updates|
  {
    if updates == [] then stored
    else if updates[|updates| - 1].dev == dev then Some(updates[|updates| - 1].kind)
    else UpdatedKind(stored, updates[..|updates| - 1], dev)
  }

  predicate BlankUpdate(q: Qdisc) {
    Blank(q.dev) || (q.kind.UnknownQdisc? && Blank(q.kind.text))
  }

  lemma BlankUpdateMeaning(q: Qdisc)
    ensures BlankUpdate(q) <==> Spaces(q.dev) || (q.kind.UnknownQdisc? && Spaces(q.kind.text))
  {
    hide Blank, Spaces;
    BlankMeaning(q.dev);
    if q.kind.UnknownQdisc? { BlankMeaning(q.kind.text); }
  }

  function PutQdisc(qdiscs: seq<Qdisc>, q: Qdisc): seq<Qdisc> {
    var p := QdiscAt(qdiscs, q.dev);
    if p < |qdiscs| then qdiscs[p := qdiscs[p].(kind := q.kind)] else qdiscs + [q]
  }

  lemma PutQdiscKind(qdiscs: seq<Qdisc>, q: Qdisc, dev: string)
    ensures KindOn(PutQdisc(qdiscs, q), dev) == if dev == q.dev then Some(q.kind) else KindOn(qdiscs, dev)
    ensures |qdiscs| <= |PutQdisc(qdiscs, q)|
    ensures forall i :: 0 <= i < |qdiscs| ==> PutQdisc(qdiscs, q)[i].dev == qdiscs[i].dev
  {
    var p, after := QdiscAt(qdiscs, q.dev), PutQdisc(qdiscs, q);
    var r := QdiscAt(qdiscs, dev);
    if dev == q.dev {
      assert after[p].dev == dev;
    } else if r < |qdiscs| {
      assert after[r] == qdiscs[r];
    }
  }

  method StoreQdiscs(desired: DesiredState, updates: seq<Qdisc>) returns (r: Result<DesiredState, ReviewError>)
    ensures r.Err? <==> exists q :: q in updates && (Spaces(q.dev) || (q.kind.UnknownQdisc? && Spaces(q.kind.text)))
    ensures r.Err? ==> r.error == BlankQdisc
    ensures r.Ok? ==>
      && r.value == desired.(qdiscs := r.value.qdiscs)
      && |desired.qdiscs| <= |r.value.qdiscs|
      && (forall i :: 0 <= i < |desired.qdiscs| ==> r.value.qdiscs[i].dev == desired.qdiscs[i].dev)
      && forall dev :: KindOn(r.value.qdiscs, dev) == UpdatedKind(KindOn(desired.qdiscs, dev), updates, dev)
  {
    hide BlankUpdate, Blank, Spaces, QdiscAt, KindOn, PutQdisc;
    forall q: Qdisc
      ensures BlankUpdate(q) <==> Spaces(q.dev) || (q.kind.UnknownQdisc? && Spaces(q.kind.text))
    {
      BlankUpdateMeaning(q);
    }
    for i := 0 to |updates|
      invariant forall j :: 0 <= j < i ==> !BlankUpdate(updates[j])
    {
      if BlankUpdate(updates[i]) {
        assert updates[i] in updates;
        return Err(BlankQdisc);
      }
    }
    var next := desired.qdiscs;
    for i := 0 to |updates|
      invariant |desired.qdiscs| <= |next|
      invariant forall j :: 0 <= j < |desired.qdiscs| ==> next[j].dev == desired.qdiscs[j].dev
      invariant forall dev :: KindOn(next, dev) == UpdatedKind(KindOn(desired.qdiscs, dev), updates[..i], dev)
    {
      assert updates[..i + 1][..i] == updates[..i];
      forall dev
        ensures KindOn(PutQdisc(next, updates[i]), dev)
            == UpdatedKind(KindOn(desired.qdiscs, dev), updates[..i + 1], dev)
      {
        PutQdiscKind(next, updates[i], dev);
      }
      PutQdiscKind(next, updates[i], "");
      next := PutQdisc(next, updates[i]);
    }
    assert updates[..|updates|] == updates;
    r := Ok(desired.(qdiscs := next));
  }

  function WanAt(interfaces: seq<Iface>, name: string): (p: nat)
    ensures p <= |interfaces|
    ensures p < |interfaces| ==> interfaces[p].name == name && interfaces[p].role == Wan
    ensures forall i :: 0 <= i < p ==> !(interfaces[i].name == name && interfaces[i].role == Wan)
  {
    if interfaces == [] || (interfaces[0].name == name && interfaces[0].role == Wan) then 0
        else 1 + WanAt(interfaces[1..], name)
  }

  /** Only WANs' IPv6 acquisition differs. */
  predicate SameButAcquisition(a: seq<Iface>, b: seq<Iface>) {
    |a| == |b| && forall i :: 0 <= i < |a| ==>
      && b[i] == a[i].(ipv6 := b[i].ipv6, requestPd := b[i].requestPd)
      && (a[i].role != Wan ==> b[i] == a[i])
  }

  /** The last setting for this name. */
  function Setting(wans: seq<WanIpv6>, name: string): Option<WanIpv6>
    decreases |wans|
  {
    if wans == [] then None
    else if wans[|wans| - 1].name == name then Some(wans[|wans| - 1])
    else Setting(wans[..|wans| - 1], name)
  }

  /** An interface as the settings leave it: the first WAN of its name. */
  function Acquiring(interfaces: seq<Iface>, wans: seq<WanIpv6>, i: nat): Iface
    requires i < |interfaces|
  {
    var setting := Setting(wans, interfaces[i].name);
    if WanAt(interfaces, interfaces[i].name) == i && setting.Some?
    then interfaces[i].(ipv6 := setting.value.mode, requestPd := setting.value.requestPd)
    else interfaces[i]
  }

  lemma {:induction false} WanAtUnmoved(a: seq<Iface>, b: seq<Iface>, name: string)
    requires |a| == |b| && forall i :: 0 <= i < |a| ==> a[i].name == b[i].name && a[i].role == b[i].role
    ensures WanAt(a, name) == WanAt(b, name)
  {
    if a != [] && !(a[0].name == name && a[0].role == Wan) { WanAtUnmoved(a[1..], b[1..], name); }
  }

  lemma NothingAcquired(interfaces: seq<Iface>)
    ensures forall i :: 0 <= i < |interfaces| ==> interfaces[i] == Acquiring(interfaces, [], i)
  {
  }

  lemma AcquiringStep(interfaces: seq<Iface>, wans: seq<WanIpv6>, k: nat, i: nat)
    requires k < |wans| && i < |interfaces|
    ensures Acquiring(interfaces, wans[..k + 1], i) ==
            if WanAt(interfaces, wans[k].name) == i
                then interfaces[i].(ipv6 := wans[k].mode, requestPd := wans[k].requestPd)
            else Acquiring(interfaces, wans[..k], i)
    ensures interfaces[i] == Acquiring(interfaces, wans[..k], i).(ipv6 := interfaces[i].ipv6,
        requestPd := interfaces[i].requestPd)
  {
    assert wans[..k + 1][..k] == wans[..k];
  }

  method StoreIpv6(desired: DesiredState, wans: seq<WanIpv6>) returns (r: Result<DesiredState, ReviewError>)
    ensures r.Err? <==> exists k :: 0 <= k < |wans| && WanAt(desired.interfaces, wans[k].name) == |desired.interfaces|
    ensures r.Err? ==> r.error == NotAWan
    ensures r.Ok? ==>
      && r.value == desired.(interfaces := r.value.interfaces)
      && |r.value.interfaces| == |desired.interfaces|
      && forall i :: 0 <= i < |desired.interfaces| ==> r.value.interfaces[i] == Acquiring(desired.interfaces, wans, i)
  {
    hide Acquiring, WanAt;
    var before := desired.interfaces;
    var next := before;
    assert forall i :: 0 <= i < |before| ==> before[i] == Acquiring(before, [], i) by { NothingAcquired(before); }
    assert wans[..0] == [];
    for k := 0 to |wans|
      invariant |next| == |before| && forall i :: 0 <= i < |before| ==> next[i] == Acquiring(before, wans[..k], i)
      invariant forall j :: 0 <= j < k ==> WanAt(before, wans[j].name) < |before|
    {
      forall i | 0 <= i < |before|
        ensures next[i].name == before[i].name && next[i].role == before[i].role
        ensures Acquiring(before, wans[..k + 1], i) ==
                if WanAt(before, wans[k].name) == i
                    then next[i].(ipv6 := wans[k].mode, requestPd := wans[k].requestPd) else next[i]
      {
        AcquiringStep(before, wans, k, i);
      }
      WanAtUnmoved(before, next, wans[k].name);
      var p := WanAt(next, wans[k].name);
      if p == |next| { return Err(NotAWan); }
      next := next[p := next[p].(ipv6 := wans[k].mode, requestPd := wans[k].requestPd)];
    }
    assert wans[..|wans|] == wans;
    r := Ok(desired.(interfaces := next));
  }

  lemma AcquiringTouchesWans(interfaces: seq<Iface>, wans: seq<WanIpv6>, i: nat)
    requires i < |interfaces|
    ensures var next := Acquiring(interfaces, wans, i);
      && next == interfaces[i].(ipv6 := next.ipv6, requestPd := next.requestPd)
      && (interfaces[i].role != Wan ==> next == interfaces[i])
  {
  }

  // ----- the reconciliation ---------------------------------------------------------------

  /** What no section of the draft owns is Accepted's. */
  predicate KeepsUnowned(a: DesiredState, sections: seq<Section>, b: DesiredState) {
    && b.revision == a.revision && b.hostname == a.hostname && b.applyConfirmation == a.applyConfirmation
    && (RoutesSection !in sections && WireguardSection !in sections ==> b.routes == a.routes)
    && (InterfacesSection !in sections ==>
        b.uiExposure == a.uiExposure && SameButAcquisition(a.interfaces, b.interfaces))
    && (InterfacesSection !in sections && Ipv6Section !in sections ==> b.interfaces == a.interfaces)
    && (InterfacesSection !in sections && ServicesSection !in sections ==>
        b.lanPrefix == a.lanPrefix && b.dhcpPool == a.dhcpPool)
    && (ServicesSection !in sections ==> b.wanPd == a.wanPd)
    && (FirewallSection !in sections ==> b.nftExtra == a.nftExtra)
    && (WireguardSection !in sections ==> b.wireguard == a.wireguard)
    && (QdiscsSection !in sections ==> b.qdiscs == a.qdiscs)
  }

  predicate AllRouted(inputs: seq<WgInput>) {
    forall i :: 0 <= i < |inputs| ==> !HalfRouted(inputs[i])
  }

  /** The sections that only replace fields, in order: LAN services override
      the prefix an interface edit synchronised. */
  function PlainSections(base: DesiredState, sections: seq<Section>, review: Review): DesiredState
    requires PlainReviewed(sections, review)
  {
    var routed := if RoutesSection in sections then base.(routes := review.routes.value) else base;
    var linked := if InterfacesSection in sections
        then InterfaceSection(routed, review.interfaces.value, review.uiExposure.value)
                  else routed;
    var served := if ServicesSection !in sections then linked
                  else linked.(lanPrefix := review.services.value.lanPrefix, dhcpPool := review.services.value.dhcpPool,
                               wanPd := review.services.value.wanPd);
    if FirewallSection in sections then served.(nftExtra := review.firewall.value) else served
  }

  predicate PlainReviewed(sections: seq<Section>, review: Review) {
    && (RoutesSection in sections ==> review.routes.Some?)
    && (InterfacesSection in sections ==> review.interfaces.Some? && review.uiExposure.Some?)
    && (ServicesSection in sections ==> review.services.Some?)
    && (FirewallSection in sections ==> review.firewall.Some?)
  }

  /** Field by field, what the plain sections come to. */
  lemma PlainMeaning(base: DesiredState, sections: seq<Section>, review: Review)
    requires PlainReviewed(sections, review)
    ensures var b := PlainSections(base, sections, review);
      && b == base.(routes := b.routes, interfaces := b.interfaces, uiExposure := b.uiExposure,
          lanPrefix := b.lanPrefix,
                    dhcpPool := b.dhcpPool, wanPd := b.wanPd, nftExtra := b.nftExtra)
      && Some(b.routes) == (if RoutesSection in sections then review.routes else Some(base.routes))
      && Some(b.nftExtra) == (if FirewallSection in sections then review.firewall else Some(base.nftExtra))
      && Some(b.uiExposure) == (if InterfacesSection in sections then review.uiExposure else Some(base.uiExposure))
      && (ServicesSection in sections ==> review.services == Some(Services(b.lanPrefix, b.dhcpPool, b.wanPd)))
      && (ServicesSection !in sections ==> b.wanPd == base.wanPd)
      && (InterfacesSection !in sections ==> b.interfaces == base.interfaces)
      && (InterfacesSection !in sections && ServicesSection !in sections ==>
            b.lanPrefix == base.lanPrefix && b.dhcpPool == base.dhcpPool)
      && (InterfacesSection in sections ==>
            var edited := InterfaceSection(base, review.interfaces.value, review.uiExposure.value);
            && b.interfaces == edited.interfaces
            && (ServicesSection !in sections ==> b.lanPrefix == edited.lanPrefix && b.dhcpPool == edited.dhcpPool))
  {
    hide KeptAcquisition;
    if InterfacesSection in sections {
      var kept := KeptAcquisition(base.interfaces, review.interfaces.value);
      var edited := base.(interfaces := kept, uiExposure := review.uiExposure.value);
      SyncKeepsInterfaces(edited);
      if RoutesSection in sections {
        SyncKeepsInterfaces(edited.(routes := review.routes.value));
        SyncIgnoresRoutes(edited, review.routes.value);
      }
    }
    hide SyncLanPrefix;
  }

  lemma SyncIgnoresRoutes(state: DesiredState, routes: seq<StaticRoute>)
    ensures SyncLanPrefix(state.(routes := routes)) == SyncLanPrefix(state).(routes := routes)
  {
    hide Leading, NetworkPrefix, PoolInside;
  }

  /** Every section the draft proposes was reviewed, with usable content. */
  predicate Usable(base: DesiredState, sections: seq<Section>, review: Review) {
    && PlainReviewed(sections, review)
    && (WireguardSection in sections ==> review.wireguard.Some? && AllRouted(review.wireguard.value))
    && (QdiscsSection in sections ==> review.qdiscs.Some? && forall q :: q in review.qdiscs.value ==>
        !Spaces(q.dev) && !(q.kind.UnknownQdisc? && Spaces(q.kind.text)))
    && (Ipv6Section in sections ==>
          && review.ipv6.Some?
          && var interfaces := PlainSections(base, sections, review).interfaces;
             forall k :: 0 <= k < |review.ipv6.value| ==> WanAt(interfaces, review.ipv6.value[k].name) < |interfaces|)
  }

  /** What the sections own is the review's. */
  ghost predicate TakesReview(base: DesiredState, sections: seq<Section>, review: Review, b: DesiredState) {
    && Usable(base, sections, review)
    && var plain := PlainSections(base, sections, review);
      && b == plain.(routes := b.routes, wireguard := b.wireguard, qdiscs := b.qdiscs, interfaces := b.interfaces)
      && b.routes == (if WireguardSection in sections
          then WithRoutes(plain.routes, TunnelRoutes(review.wireguard.value)) else plain.routes)
      && (if WireguardSection in sections then TunnelsReviewed(base, review.wireguard.value, b)
          else b.wireguard == base.wireguard)
      && (if QdiscsSection in sections
          then forall dev :: KindOn(b.qdiscs, dev) == UpdatedKind(KindOn(base.qdiscs, dev), review.qdiscs.value, dev)
          else b.qdiscs == base.qdiscs)
      && (if Ipv6Section in sections
          then |b.interfaces| == |plain.interfaces|
               && forall i :: 0 <= i < |plain.interfaces| ==>
                   b.interfaces[i] == Acquiring(plain.interfaces, review.ipv6.value, i)
          else b.interfaces == plain.interfaces)
  }

  ghost predicate TunnelsReviewed(base: DesiredState, inputs: seq<WgInput>, b: DesiredState) {
    && KeepsPlaces(base.wireguard, b.wireguard)
    && (DistinctTunnels(base.wireguard) ==> DistinctTunnels(b.wireguard))
    && forall name :: Named(b.wireguard, name) == Reviewed(Named(base.wireguard, name), inputs, name)
  }

  /** Taking the review of some sections leaves what no section owns. */
  lemma ReviewKeepsUnowned(base: DesiredState, sections: seq<Section>, review: Review, b: DesiredState)
    requires TakesReview(base, sections, review, b)
    ensures KeepsUnowned(base, sections, b)
  {
    hide TunnelsReviewed, KindOn, UpdatedKind, WithRoutes, TunnelRoutes, AllRouted, WanAt, SyncLanPrefix;
    if InterfacesSection in sections {
      var routed := if RoutesSection in sections then base.(routes := review.routes.value) else base;
      SyncKeepsInterfaces(routed.(interfaces := KeptAcquisition(base.interfaces, review.interfaces.value),
                                  uiExposure := review.uiExposure.value));
    }
    if Ipv6Section in sections {
      forall i | 0 <= i < |base.interfaces| && InterfacesSection !in sections
        ensures var next := b.interfaces[i];
          && next == base.interfaces[i].(ipv6 := next.ipv6, requestPd := next.requestPd)
          && (base.interfaces[i].role != Wan ==> next == base.interfaces[i])
      {
        AcquiringTouchesWans(base.interfaces, review.ipv6.value, i);
      }
    }
  }

  method ApplyPlainSections(base: DesiredState, sections: seq<Section>, review: Review)
    returns (r: Result<DesiredState, ReviewError>)
    ensures r.Ok? <==> PlainReviewed(sections, review)
    ensures r.Ok? ==> r.value == PlainSections(base, sections, review)
  {
    hide InterfaceSection;
    var desired := base;
    if RoutesSection in sections {
      if review.routes.None? { return Err(NeedsReview(RoutesSection)); }
      desired := desired.(routes := review.routes.value);
    }
    if InterfacesSection in sections {
      if review.interfaces.None? || review.uiExposure.None? { return Err(NeedsReview(InterfacesSection)); }
      desired := StoreInterfaceSection(desired, review.interfaces.value, review.uiExposure.value);
    }
    if ServicesSection in sections {
      if review.services.None? { return Err(NeedsReview(ServicesSection)); }
      var services := review.services.value;
      desired := desired.(lanPrefix := services.lanPrefix, dhcpPool := services.dhcpPool, wanPd := services.wanPd);
    }
    if FirewallSection in sections {
      if review.firewall.None? { return Err(NeedsReview(FirewallSection)); }
      desired := desired.(nftExtra := review.firewall.value);
    }
    r := Ok(desired);
  }

  method ApplyReviewedSections(base: DesiredState, sections: seq<Section>, review: Review)
    returns (r: Result<DesiredState, ReviewError>)
    ensures r.Ok? <==> Usable(base, sections, review)
    ensures r.Ok? ==> TakesReview(base, sections, review, r.value)
  {
    r := ApplyPlainSections(base, sections, review);
    if r.Err? { return; }
    PlainKeeps(base, sections, review);
    hide PlainSections, PlainReviewed, KindOn, Named, WanAt, Acquiring, Spaces, Reviewed, UpdatedKind, WithRoutes;
    if WireguardSection in sections {
      if review.wireguard.None? { return Err(NeedsReview(WireguardSection)); }
      r := StoreWireguard(r.value, review.wireguard.value, r.value.wireguard);
      if r.Err? { return; }
    }
    if QdiscsSection in sections {
      if review.qdiscs.None? { return Err(NeedsReview(QdiscsSection)); }
      r := StoreQdiscs(r.value, review.qdiscs.value);
      if r.Err? { return; }
    }
    if Ipv6Section in sections {
      if review.ipv6.None? { return Err(NeedsReview(Ipv6Section)); }
      r := StoreIpv6(r.value, review.ipv6.value);
    }
  }

  lemma PlainKeeps(base: DesiredState, sections: seq<Section>, review: Review)
    requires PlainReviewed(sections, review)
    ensures var plain := PlainSections(base, sections, review);
      plain.wireguard == base.wireguard && plain.qdiscs == base.qdiscs
  {
  }

  /** Tunnels: an unedited one is Accepted's; an edited one is the draft's
      with the review on top, keeping its key unless a new one is given. */
  ghost predicate ReconcilesTunnels(a: DesiredState, draft: Draft, review: Review, b: DesiredState) {
    && review.wireguard.Some?
    && KeepsPlaces(a.wireguard, b.wireguard)
    && (DistinctTunnels(a.wireguard) ==> DistinctTunnels(b.wireguard))
    && (forall name :: draft.edits != [] && name !in draft.edits ==>
          Named(b.wireguard, name) == Named(a.wireguard, name))
    && (DistinctTunnels(draft.desired.wireguard) ==>
          forall i :: 0 <= i < |draft.desired.wireguard|
                      && (draft.edits == [] || draft.desired.wireguard[i].name in draft.edits) ==>
            var t, inputs := draft.desired.wireguard[i], review.wireguard.value;
            Named(b.wireguard, t.name) ==
              Some(Wg(t.name, LastKey(inputs, t.name, t.privateKey), LastPort(inputs, t.name, t.listenPort),
                      LastAddresses(inputs, t.name, t.addresses))))
  }

  /** The review as far as it touches tunnels the draft edited. */
  function Retained(draft: Draft, review: Review): Review {
    if WireguardSection in EffectiveSections(draft) && review.wireguard.Some?
    then review.(wireguard := Some(EditedInputs(draft, review.wireguard.value))) else review
  }

  /** `base` is Accepted with the tunnels the draft edited carried onto it. */
  method ReconciledDesired(previous: Draft, accepted: DesiredState, review: Review)
    returns (r: Result<DesiredState, ReviewError>, ghost base: DesiredState)
    ensures EffectiveSections(previous) == if previous.sections == [] then [RoutesSection] else previous.sections
    ensures ImportSection in EffectiveSections(previous) ==> r == Ok(previous.desired.(revision := accepted.revision))
    ensures base == accepted.(wireguard := base.wireguard)
        && (WireguardSection !in EffectiveSections(previous) ==> base == accepted)
    ensures ImportSection !in EffectiveSections(previous) ==>
      (r.Ok? <==> Usable(base, EffectiveSections(previous), Retained(previous, review)))
    ensures ImportSection !in EffectiveSections(previous) && r.Ok? ==>
      && TakesReview(base, EffectiveSections(previous), Retained(previous, review), r.value)
      && KeepsUnowned(accepted, EffectiveSections(previous), r.value)
      && (WireguardSection in EffectiveSections(previous) ==> ReconcilesTunnels(accepted, previous, review, r.value))
  {
    hide Usable, TakesReview, KeptAcquisition, Named, Carried, DistinctTunnels;
    base := accepted;
    var sections := EffectiveSections(previous);
    if ImportSection in sections { return Ok(previous.desired.(revision := accepted.revision)), base; }
    var carried := accepted;
    if WireguardSection in sections {
      carried := CarryWireguardEdits(accepted, previous);
      base := carried;
    }
    r := ApplyReviewedSections(carried, sections, Retained(previous, review));
    if r.Ok? {
      ReviewKeepsUnowned(base, sections, Retained(previous, review), r.value);
      if WireguardSection in sections {
        TakesReviewTunnels(base, sections, Retained(previous, review), r.value);
        TunnelsReconciled(accepted, previous, review, base, r.value);
      }
    }
  }

  lemma TakesReviewTunnels(base: DesiredState, sections: seq<Section>, review: Review, b: DesiredState)
    requires TakesReview(base, sections, review, b) && WireguardSection in sections
    ensures review.wireguard.Some? && TunnelsReviewed(base, review.wireguard.value, b)
  {
  }

  lemma TunnelsReconciled(accepted: DesiredState, draft: Draft, review: Review, base: DesiredState,
      result: DesiredState)
    requires review.wireguard.Some?
    requires KeepsPlaces(accepted.wireguard, base.wireguard)
    requires DistinctTunnels(accepted.wireguard) ==> DistinctTunnels(base.wireguard)
    requires forall name ::
      Named(base.wireguard, name)
      == Carried(Named(accepted.wireguard, name), draft, draft.desired.wireguard, name)
    requires TunnelsReviewed(base, EditedInputs(draft, review.wireguard.value), result)
    ensures ReconcilesTunnels(accepted, draft, review, result)
  {
    assert forall name :: EditedTunnel(draft, name) <==> draft.edits == [] || name in draft.edits;
    hide Named, Carried, Reviewed, LastKey, LastPort, LastAddresses, EditedTunnel, DistinctTunnels;
    var inputs := EditedInputs(draft, review.wireguard.value);
    forall name | !EditedTunnel(draft, name)
      ensures Named(result.wireguard, name) == Named(accepted.wireguard, name)
    {
      CarriedUntouched(Named(accepted.wireguard, name), draft, draft.desired.wireguard, name);
      ReviewedUntouched(Named(base.wireguard, name), inputs, name);
    }
    if DistinctTunnels(draft.desired.wireguard) {
      forall i | 0 <= i < |draft.desired.wireguard| && EditedTunnel(draft, draft.desired.wireguard[i].name)
        ensures var t, given := draft.desired.wireguard[i], review.wireguard.value;
          Named(result.wireguard, t.name) ==
            Some(Wg(t.name, LastKey(given, t.name, t.privateKey), LastPort(given, t.name, t.listenPort),
                    LastAddresses(given, t.name, t.addresses)))
      {
        var t := draft.desired.wireguard[i];
        CarriedOwn(Named(accepted.wireguard, t.name), draft, draft.desired.wireguard, i);
        EditedInputsReview(draft, Some(t), review.wireguard.value, t.name);
        ReviewedParts(t, review.wireguard.value, t.name);
      }
    }
  }
}
