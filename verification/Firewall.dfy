/** The policy compiler: Desired state to ordered nftables rules, evaluated
    first match first, and the meaning of the result. */
module Firewall {
  import opened Common
  import opened Desired
  import opened Addressing
  import opened Validation
  import opened Acceptability
  import Transaction = ApplyTransaction

  // ----- packets and rules ------------------------------------------------------

  datatype Transport =
    | Tcp(tcpDport: nat)
    | Udp(udpSport: nat, udpDport: nat)
    | Icmp6(icmpType: Icmp6Type)
    | OtherTransport

  datatype Icmp6Type =
    | NeighborSolicit | NeighborAdvert | RouterAdvert | PacketTooBig | DestinationUnreachable | TimeExceeded
    | ParameterProblem | EchoRequest | OtherIcmp6

  /** `established` is conntrack's established-or-related; `satisfies` are the
      opaque administrator matches that hold of the packet. */
  datatype Packet = Packet(
    iif: string,
    oif: string,
    source: Ip,
    destination: Ip,
    transport: Transport,
    established: bool,
    satisfies: set<nat>)

  datatype Match =
    | IifName(iif: string)
    | OifName(oif: string)
    | Established
    | Icmp6In(types: set<Icmp6Type>)
    | SourceIn(prefix: Cidr)
    | Destined(address: Ip)
    | TcpTo(dport: nat)
    | UdpFromTo(sport: nat, dport: nat)
    | IsIpv4
    | AdminMatch(id: nat)

  datatype Action = Pass | Stop | Refuse | Masquerade | Dnat(toVeth: Ip)

  datatype Rule = Rule(matches: set<Match>, action: Action)

  predicate InPrefix(prefix: Cidr, a: Ip) {
    match (prefix.ip, a)
    case (V4(p), V4(x)) => prefix.len <= 32 && Contains4(p, prefix.len, x)
    case (V6(p), V6(x)) => prefix.len <= 128 && Contains6(p, prefix.len, x)
    case _ => false
  }

  predicate Matches(m: Match, p: Packet) {
    match m
    case IifName(name) => p.iif == name
    case OifName(name) => p.oif == name
    case Established => p.established
    case Icmp6In(types) => p.transport.Icmp6? && p.transport.icmpType in types
    case SourceIn(prefix) => InPrefix(prefix, p.source)
    case Destined(address) => p.destination == address
    case TcpTo(dport) => p.transport.Tcp? && p.transport.tcpDport == dport
    case UdpFromTo(sport, dport) => p.transport == Udp(sport, dport)
    case IsIpv4 => p.source.V4?
    case AdminMatch(id) => id in p.satisfies
  }

  predicate Applies(r: Rule, p: Packet) {
    forall m :: m in r.matches ==> Matches(m, p)
  }

  /** The first applicable rule decides. */
  function Decide(rules: seq<Rule>, p: Packet): Option<Action> {
    if rules == [] then None
    else if Applies(rules[0], p) then Some(rules[0].action)
    else Decide(rules[1..], p)
  }

  lemma {:induction false} DecideAppend(a: seq<Rule>, b: seq<Rule>, p: Packet)
    ensures Decide(a + b, p) == if Decide(a, p).Some? then Decide(a, p) else Decide(b, p)
  {
    if a == [] {
      assert a + b == b;
    } else {
      assert (a + b)[1..] == a[1..] + b;
      DecideAppend(a[1..], b, p);
    }
  }

  lemma DecideStep(r: Rule, rest: seq<Rule>, p: Packet)
    ensures Decide([r] + rest, p) == if Applies(r, p) then Some(r.action) else Decide(rest, p)
  {
    assert ([r] + rest)[1..] == rest;
  }

  /** A base chain: its rules and what happens to packets none decides. */
  datatype Chain = Chain(rules: seq<Rule>, passByDefault: bool)

  predicate Passes(c: Chain, p: Packet) {
    match Decide(c.rules, p)
    case Some(action) => action == Pass
    case None => c.passByDefault
  }

  datatype Table = Table(input: Chain, forward: Chain, prerouting: seq<Rule>, postrouting: seq<Rule>)

  // ----- the compiler -----------------------------------------------------------

  const MANAGEMENT_VETH := "f0mgmt"
  const VETH_ADDRESS_4: Ip := V4(0xA9FE_7F06)
  const VETH_ADDRESS_6: Ip := V6(0xFD53_0001_0001_0000_0000_0000_0000_0006)
  const PULL_NETWORK: Cidr := Cidr(V4(0xA9FE_7F00), 30)
  const LINK_LOCAL_NETWORK: Cidr := Cidr(V6(0xFE80_0000_0000_0000_0000_0000_0000_0000), 10)

  const NEIGHBOR_TYPES: set<Icmp6Type> :=
    {NeighborSolicit, NeighborAdvert, RouterAdvert, PacketTooBig, DestinationUnreachable, TimeExceeded,
      ParameterProblem}

  function NamesOf(interfaces: seq<Iface>): seq<string> {
    if interfaces == [] then [] else [interfaces[0].name] + NamesOf(interfaces[1..])
  }

  function Wans(state: DesiredState): seq<string> {
    NamesOf(WithRole(state.interfaces, Wan))
  }

  function Mgmts(state: DesiredState): seq<string> {
    NamesOf(WithRole(state.interfaces, Mgmt))
  }

  function FindInside(interfaces: seq<Iface>, name: string): Option<Iface> {
    if interfaces == [] then None
    else if interfaces[0].name == name && interfaces[0].role != Wan then Some(interfaces[0])
    else FindInside(interfaces[1..], name)
  }

  /** The interfaces the UI answers on: never a WAN. */
  function Exposure(interfaces: seq<Iface>, names: seq<string>): seq<Iface> {
    if names == [] then []
    else
      var iface := FindInside(interfaces, names[0]);
      (if iface.Some? then [iface.value] else []) + Exposure(interfaces, names[1..])
  }

  function VerdictAction(v: Verdict): Action {
    match v
    case Accept => Pass
    case Drop => Stop
    case Reject => Refuse
  }

  function AdminRule(r: PolicyRule): Rule {
    Rule((set name | name in r.iifs :: IifName(name)) + (set id | id in r.others :: AdminMatch(id)),
      VerdictAction(r.verdict))
  }

  function AdminRules(extra: seq<PolicyRule>): seq<Rule> {
    if extra == [] then [] else [AdminRule(extra[0])] + AdminRules(extra[1..])
  }

  /** What one WAN may still send in: replies, neighbor discovery and errors,
      DHCPv6 replies to a multicast Solicit. */
  function WanInput(wan: string): seq<Rule> {
    [Rule({IifName(wan), Established}, Pass),
     Rule({IifName(wan), Icmp6In(NEIGHBOR_TYPES)}, Pass),
     Rule({IifName(wan), SourceIn(LINK_LOCAL_NETWORK), UdpFromTo(547, 546)}, Pass),
     Rule({IifName(wan)}, Stop)]
  }

  function WansInput(wans: seq<string>): seq<Rule> {
    if wans == [] then [] else WanInput(wans[0]) + WansInput(wans[1..])
  }

  function ExposedForward(exposed: seq<Iface>): seq<Rule> {
    if exposed == [] then []
    else [Rule({IifName(exposed[0].name), OifName(MANAGEMENT_VETH), TcpTo(443)}, Pass)] + ExposedForward(exposed[1..])
  }

  function MgmtForward(mgmts: seq<string>): seq<Rule> {
    if mgmts == [] then []
    else [Rule({IifName(mgmts[0])}, Stop), Rule({OifName(mgmts[0])}, Stop)] + MgmtForward(mgmts[1..])
  }

  function WanForward(wans: seq<string>): seq<Rule> {
    if wans == [] then [] else [Rule({OifName(wans[0])}, Pass)] + WanForward(wans[1..])
  }

  predicate ExposeAllowed(a: Ip) {
    match a
    case V4(x) =>
      && !(0x7F00_0000 <= x < 0x8000_0000) && x != 0 && !(0xE000_0000 <= x < 0xF000_0000) && x != 0xFFFF_FFFF
      && !(0xA9FE_7F00 <= x < 0xA9FE_8000)
    case V6(x) => x != 1 && x != 0 && !Multicast(a)
  }

  /** The distinct reachable addresses among an interface's own. */
  function ExposeIps(addresses: seq<Cidr>, seen: set<Ip>): seq<Ip> {
    if addresses == [] then []
    else
      var ip := addresses[0].ip;
      if ExposeAllowed(ip) && ip !in seen then [ip] + ExposeIps(addresses[1..], seen + {ip})
          else ExposeIps(addresses[1..], seen)
  }

  function DnatTo(name: string, ips: seq<Ip>): seq<Rule> {
    if ips == [] then []
    else [Rule({IifName(name), Destined(ips[0]), TcpTo(443)},
        Dnat(if ips[0].V6? then VETH_ADDRESS_6 else VETH_ADDRESS_4))] + DnatTo(name, ips[1..])
  }

  /** With no address yet: only on that interface. */
  function IfaceDnat(i: Iface): seq<Rule> {
    var ips := ExposeIps(i.addresses, {});
    if ips == [] then [Rule({IifName(i.name), IsIpv4, TcpTo(443)}, Dnat(VETH_ADDRESS_4))] else DnatTo(i.name, ips)
  }

  function ExposedDnat(exposed: seq<Iface>): seq<Rule> {
    if exposed == [] then [] else IfaceDnat(exposed[0]) + ExposedDnat(exposed[1..])
  }

  predicate Ipv4Wan(state: DesiredState) {
    exists i, c :: 0 <= i < |state.interfaces| && state.interfaces[i].role == Wan
                   && 0 <= c < |state.interfaces[i].addresses| && state.interfaces[i].addresses[c].ip.V4?
  }

  function WanMasquerade(wans: seq<string>): seq<Rule> {
    if wans == [] then [] else [Rule({OifName(wans[0]), IsIpv4}, Masquerade)] + WanMasquerade(wans[1..])
  }

  /** The table every ruleset carries for Host pulls, an IPv4 one. */
  const HOST_PULL: seq<Rule> := [Rule({IsIpv4, SourceIn(PULL_NETWORK)}, Masquerade)]

  function InputRules(state: DesiredState): seq<Rule> {
    [Rule({IifName("lo")}, Pass)] + (AdminRules(state.nftExtra) + WansInput(Wans(state)))
  }

  function ForwardRules(state: DesiredState, guarded: bool): seq<Rule> {
    (if guarded then [Rule({}, Stop)] else [])
    + ([Rule({Established}, Pass), Rule({IifName(MANAGEMENT_VETH)}, Pass)]
       + (ExposedForward(Exposure(state.interfaces, state.uiExposure))
          + (MgmtForward(Mgmts(state)) + WanForward(Wans(state)))))
  }

  function NftRules(state: DesiredState, guarded: bool): Table {
    Table(
      Chain(InputRules(state), true),
      Chain(ForwardRules(state, guarded), false),
      ExposedDnat(Exposure(state.interfaces, state.uiExposure)),
      HOST_PULL + if Ipv4Wan(state) then WanMasquerade(Wans(state)) else [])
  }

  /** What remains when no Accepted policy can be read. */
  const RECOVERY_TABLE: Table := Table(Chain([Rule({IifName("lo")}, Pass)], false), Chain([], false), [], HOST_PULL)

  /** What a kernel comes up with: nothing is filtered. */
  const NO_TABLE: Table := Table(Chain([], true), Chain([], true), [], [])

  function Installed(r: Transaction.Ruleset): Table {
    match r.policy
    case Unfiltered => NO_TABLE
    case RecoveryOnly => RECOVERY_TABLE
    case PolicyOf(state) => NftRules(state, r.guarded)
  }

  // ----- what one group of rules decides ------------------------------------------

  lemma {:induction false} NamesOfMembers(interfaces: seq<Iface>, name: string)
    ensures name in NamesOf(interfaces) <==> exists i :: i in interfaces && i.name == name
  {
    if interfaces != [] {
      NamesOfMembers(interfaces[1..], name);
      assert forall i :: i in interfaces <==> i == interfaces[0] || i in interfaces[1..];
    }
  }

  lemma {:induction false} WansInputDecides(wans: seq<string>, p: Packet)
    ensures Decide(WansInput(wans), p) ==
            if p.iif !in wans then None else if p.established || FromUpstream(p) then Some(Pass) else Some(Stop)
  {
    if wans != [] {
      var rules := WanInput(wans[0]);
      DecideAppend(rules, WansInput(wans[1..]), p);
      WansInputDecides(wans[1..], p);
      WanInputDecides(wans[0], p);
    }
  }

  /** Unsolicited traffic a WAN needs: listed ICMPv6, or a DHCPv6 reply from a
      link-local server. */
  predicate FromUpstream(p: Packet) {
    || (p.transport.Icmp6?
        && p.transport.icmpType in {NeighborSolicit, NeighborAdvert, RouterAdvert, PacketTooBig,
                                    DestinationUnreachable, TimeExceeded, ParameterProblem})
    || (p.transport == Udp(547, 546) && OfOneLink(p.source))
  }

  lemma LinkLocalSource(ip: Ip)
    ensures InPrefix(LINK_LOCAL_NETWORK, ip) <==> OfOneLink(ip)
  {
    if ip.V6? {
      Pow2Of118();
      var block := Block6(10);
      RoundDownIsMultiple(ip.v6, block);
      RoundDownIsMultiple(LINK_LOCAL_NETWORK.ip.v6, block);
    }
  }

  lemma Pow2Of118()
    ensures Pow2(118) == 0x40_0000_0000_0000_0000_0000_0000_0000
  {
    assert Pow2(6) == 64;
    Pow2Of8();
    Pow2Splits(8, 8);
    Pow2Splits(16, 16);
    Pow2Splits(32, 16);
    Pow2Splits(48, 6);
    Pow2Of64();
    Pow2Splits(64, 54);
  }


  lemma WanInputDecides(wan: string, p: Packet)
    ensures Decide(WanInput(wan), p) ==
            if p.iif != wan then None else if p.established || FromUpstream(p) then Some(Pass) else Some(Stop)
  {
    hide InPrefix, OfOneLink;
    LinkLocalSource(p.source);
    var r := WanInput(wan);
    assert Applies(r[0], p) <==> p.iif == wan && p.established by {
      assert Matches(IifName(wan), p) <==> p.iif == wan;
    }
    assert Applies(r[1], p) <==> p.iif == wan && p.transport.Icmp6? && p.transport.icmpType in NEIGHBOR_TYPES by {
      assert IifName(wan) in r[1].matches && Icmp6In(NEIGHBOR_TYPES) in r[1].matches;
    }
    assert Applies(r[2], p) <==>
      p.iif == wan && p.transport == Udp(547, 546) && InPrefix(LINK_LOCAL_NETWORK, p.source)
    by {
      assert IifName(wan) in r[2].matches && SourceIn(LINK_LOCAL_NETWORK) in r[2].matches
          && UdpFromTo(547, 546) in r[2].matches;
    }
    assert Applies(r[3], p) <==> p.iif == wan;
    DecideStep(r[3], [], p);
    DecideStep(r[2], [r[3]], p);
    DecideStep(r[1], [r[2], r[3]], p);
    DecideStep(r[0], [r[1], r[2], r[3]], p);
  }

  lemma {:induction false} ExposedForwardDecides(exposed: seq<Iface>, p: Packet)
    ensures Decide(ExposedForward(exposed), p) ==
            if p.iif in NamesOf(exposed) && ToManagement(p) then Some(Pass) else None
  {
    if exposed != [] {
      var r := Rule({IifName(exposed[0].name), OifName(MANAGEMENT_VETH), TcpTo(443)}, Pass);
      ExposedForwardDecides(exposed[1..], p);
      DecideStep(r, ExposedForward(exposed[1..]), p);
      assert Applies(r, p) <==> p.iif == exposed[0].name && ToManagement(p) by {
        assert IifName(exposed[0].name) in r.matches && OifName(MANAGEMENT_VETH) in r.matches
            && TcpTo(443) in r.matches;
      }
    }
  }

  predicate ToManagement(p: Packet) {
    p.oif == "f0mgmt" && p.transport == Tcp(443)
  }

  lemma {:induction false} MgmtForwardDecides(mgmts: seq<string>, p: Packet)
    ensures Decide(MgmtForward(mgmts), p) == if p.iif in mgmts || p.oif in mgmts then Some(Stop) else None
  {
    if mgmts != [] {
      var iif, oif, rest := Rule({IifName(mgmts[0])}, Stop), Rule({OifName(mgmts[0])}, Stop), MgmtForward(mgmts[1..]);
      MgmtForwardDecides(mgmts[1..], p);
      DecideStep(oif, rest, p);
      DecideStep(iif, [oif] + rest, p);
      assert [iif, oif] + rest == [iif] + ([oif] + rest);
      assert (Applies(iif, p) <==> p.iif == mgmts[0]) && (Applies(oif, p) <==> p.oif == mgmts[0]);
    }
  }

  lemma {:induction false} WanForwardDecides(wans: seq<string>, p: Packet)
    ensures Decide(WanForward(wans), p) == if p.oif in wans then Some(Pass) else None
  {
    if wans != [] {
      var r := Rule({OifName(wans[0])}, Pass);
      WanForwardDecides(wans[1..], p);
      DecideStep(r, WanForward(wans[1..]), p);
      assert Applies(r, p) <==> p.oif == wans[0];
    }
  }

  lemma {:induction false} WanMasqueradeDecides(wans: seq<string>, p: Packet)
    ensures Decide(WanMasquerade(wans), p) == if p.oif in wans && p.source.V4? then Some(Masquerade) else None
  {
    if wans != [] {
      var r := Rule({OifName(wans[0]), IsIpv4}, Masquerade);
      WanMasqueradeDecides(wans[1..], p);
      DecideStep(r, WanMasquerade(wans[1..]), p);
      assert Applies(r, p) <==> p.oif == wans[0] && p.source.V4? by {
        assert OifName(wans[0]) in r.matches && IsIpv4 in r.matches;
      }
    }
  }

  lemma {:induction false} FindInsideFinds(interfaces: seq<Iface>, name: string)
    ensures FindInside(interfaces, name).Some? <==> exists i :: i in interfaces && i.name == name && i.role != Wan
    ensures FindInside(interfaces, name).Some? ==>
      var i := FindInside(interfaces, name).value; i in interfaces && i.name == name && i.role != Wan
  {
    if interfaces != [] {
      FindInsideFinds(interfaces[1..], name);
      assert forall i :: i in interfaces <==> i == interfaces[0] || i in interfaces[1..];
    }
  }

  /** The `k`th interface is the first of its name that is no WAN. */
  predicate FirstInside(interfaces: seq<Iface>, k: nat) {
    && k < |interfaces| && interfaces[k].role != Wan
    && forall j :: 0 <= j < k && interfaces[j].role != Wan ==> interfaces[j].name != interfaces[k].name
  }

  lemma {:induction false} FindInsideMeaning(interfaces: seq<Iface>, i: Iface)
    ensures FindInside(interfaces, i.name) == Some(i) <==>
            exists k: nat :: FirstInside(interfaces, k) && interfaces[k] == i
  {
    if interfaces != [] {
      var rest := interfaces[1..];
      FindInsideMeaning(rest, i);
      assert forall k :: 0 < k < |interfaces| ==> interfaces[k] == rest[k - 1];
      if interfaces[0].name == i.name && interfaces[0].role != Wan {
        assert FirstInside(interfaces, 0);
      } else {
        if k: nat :| FirstInside(rest, k) && rest[k] == i {
          assert FirstInside(interfaces, k + 1);
        }
        if k: nat :| FirstInside(interfaces, k) && interfaces[k] == i {
          assert FirstInside(rest, k - 1);
        }
      }
    }
  }

  lemma {:induction false} ExposureFinds(interfaces: seq<Iface>, names: seq<string>, i: Iface)
    ensures i in Exposure(interfaces, names) <==> i.name in names && FindInside(interfaces, i.name) == Some(i)
  {
    if names != [] {
      FindInsideFinds(interfaces, names[0]);
      ExposureFinds(interfaces, names[1..], i);
    }
  }

  lemma ExposureMembers(interfaces: seq<Iface>, names: seq<string>, i: Iface)
    ensures i in Exposure(interfaces, names) <==>
            i.name in names && exists k: nat :: FirstInside(interfaces, k) && interfaces[k] == i
  {
    ExposureFinds(interfaces, names, i);
    FindInsideMeaning(interfaces, i);
  }

  // ----- the meaning of a ruleset ---------------------------------------------

  predicate HasRole(state: DesiredState, name: string, role: Role) {
    exists i :: i in state.interfaces && i.name == name && i.role == role
  }

  /** The UI answers on this interface. */
  predicate Exposed(state: DesiredState, name: string) {
    name in state.uiExposure && exists i :: i in state.interfaces && i.name == name && i.role != Wan
  }

  lemma RoleNames(state: DesiredState, name: string)
    ensures name in Wans(state) <==> HasRole(state, name, Wan)
    ensures name in Mgmts(state) <==> HasRole(state, name, Mgmt)
    ensures name in NamesOf(Exposure(state.interfaces, state.uiExposure)) <==> Exposed(state, name)
  {
    hide WithRole, Exposure, FindInside;
    NamesOfMembers(WithRole(state.interfaces, Wan), name);
    NamesOfMembers(WithRole(state.interfaces, Mgmt), name);
    var exposed := Exposure(state.interfaces, state.uiExposure);
    NamesOfMembers(exposed, name);
    FindInsideFinds(state.interfaces, name);
    if name in NamesOf(exposed) {
      var i :| i in exposed && i.name == name;
      ExposureFinds(state.interfaces, state.uiExposure, i);
    }
    if FindInside(state.interfaces, name).Some? {
      ExposureFinds(state.interfaces, state.uiExposure, FindInside(state.interfaces, name).value);
    }
  }

  /** What a forwarded packet must be to pass, without rules or their order. */
  predicate MayForward(state: DesiredState, p: Packet) {
    || p.established
    || p.iif == "f0mgmt"
    || (Exposed(state, p.iif) && ToManagement(p))
    || (HasRole(state, p.oif, Wan) && !HasRole(state, p.iif, Mgmt) && !HasRole(state, p.oif, Mgmt))
  }

  lemma GuardDecides(guarded: bool, p: Packet)
    ensures Decide(if guarded then [Rule({}, Stop)] else [], p) == if guarded then Some(Stop) else None
  {
    if guarded { assert Applies(Rule({}, Stop), p); }
  }

  lemma TwoRulesApply(p: Packet)
    ensures Applies(Rule({Established}, Pass), p) <==> p.established
    ensures Applies(Rule({IifName(MANAGEMENT_VETH)}, Pass), p) <==> p.iif == MANAGEMENT_VETH
  {
  }

  /** Every state, valid or not: a guarded ruleset forwards nothing, an
      unguarded one exactly this. */
  lemma ForwardMeaning(state: DesiredState, guarded: bool, p: Packet)
    ensures Passes(NftRules(state, guarded).forward, p) <==> !guarded && MayForward(state, p)
  {
    hide Exposed, HasRole, ToManagement, Ipv4Wan, WithRole, InputRules, Decide, Applies;
    var guard := if guarded then [Rule({}, Stop)] else [];
    var established, veth := Rule({Established}, Pass), Rule({IifName(MANAGEMENT_VETH)}, Pass);
    var exposed := ExposedForward(Exposure(state.interfaces, state.uiExposure));
    var mgmts, wans := MgmtForward(Mgmts(state)), WanForward(Wans(state));
    RoleNames(state, p.iif);
    RoleNames(state, p.oif);
    ExposedForwardDecides(Exposure(state.interfaces, state.uiExposure), p);
    MgmtForwardDecides(Mgmts(state), p);
    WanForwardDecides(Wans(state), p);
    DecideAppend(mgmts, wans, p);
    DecideAppend(exposed, mgmts + wans, p);
    DecideStep(veth, exposed + (mgmts + wans), p);
    DecideStep(established, [veth] + (exposed + (mgmts + wans)), p);
    assert [established, veth] + (exposed + (mgmts + wans)) == [established] + ([veth] + (exposed + (mgmts + wans)));
    DecideAppend(guard, [established, veth] + (exposed + (mgmts + wans)), p);
    GuardDecides(guarded, p);
    TwoRulesApply(p);
  }

  /** netd's rulesets forward nothing exactly when the apply transaction counts
      them as guarded, or no policy is left; a kernel netd has not programmed
      yet forwards everything. */
  lemma GuardMeaning(r: Transaction.Ruleset, p: Packet)
    ensures (r.guarded && !r.policy.Unfiltered?) || r.policy.RecoveryOnly? ==> !Passes(Installed(r).forward, p)
    ensures r.policy.Unfiltered? ==> Passes(Installed(r).forward, p)
    ensures r.policy.RecoveryOnly? ==> (Passes(Installed(r).input, p) <==> p.iif == "lo")
    ensures !r.guarded && r.policy.PolicyOf? ==> (Passes(Installed(r).forward, p) <==> MayForward(r.policy.state, p))
  {
    if r.policy.PolicyOf? {
      ForwardMeaning(r.policy.state, r.guarded, p);
    } else if r.policy.RecoveryOnly? {
      var lo := Rule({IifName("lo")}, Pass);
      assert RECOVERY_TABLE.input.rules == [lo] + [];
      DecideStep(lo, [], p);
      assert Applies(lo, p) <==> p.iif == "lo";
    }
  }

  predicate DistinctNames(interfaces: seq<Iface>) {
    forall i, j :: 0 <= i < j < |interfaces| ==> interfaces[i].name != interfaces[j].name
  }

  lemma {:induction false} FindByName(interfaces: seq<Iface>, i: Iface)
    requires DistinctNames(interfaces) && i in interfaces
    ensures FindIface(interfaces, i.name) == Some(i)
  {
    if interfaces[0] != i {
      assert i in interfaces[1..];
      FindByName(interfaces[1..], i);
    }
  }

  // ----- administrator rules ------------------------------------------------------

  /** As nftables reads the rule, packets from `name` may match it. */
  predicate AdmitsFrom(r: PolicyRule, name: string) {
    forall n :: n in r.iifs ==> n == name
  }

  /** The accept rule does not reach past the interface the validator found:
      nftables matches that one too, or two at once, which nothing satisfies. */
  predicate Confined(r: PolicyRule) {
    r.verdict == Accept ==>
      (r.found.Some? && r.found.value in r.iifs) || exists m, n :: m in r.iifs && n in r.iifs && m != n
  }

  lemma ConfinedMeaning(r: PolicyRule)
    requires r.verdict == Accept
    ensures Confined(r) <==> forall name :: AdmitsFrom(r, name) ==> r.found == Some(name)
  {
    if !Confined(r) {
      var stranger := if r.found.Some? then r.found.value + "x" else "x";
      if n :| n in r.iifs {
        assert AdmitsFrom(r, n);
      } else {
        assert AdmitsFrom(r, stranger);
      }
    }
  }

  lemma AdminApplies(r: PolicyRule, p: Packet)
    ensures Applies(AdminRule(r), p) <==> AdmitsFrom(r, p.iif) && r.others <= p.satisfies
  {
    var matches := AdminRule(r).matches;
    if Applies(AdminRule(r), p) {
      forall n | n in r.iifs
        ensures n == p.iif
      {
        assert IifName(n) in matches;
      }
      forall id | id in r.others
        ensures id in p.satisfies
      {
        assert AdminMatch(id) in matches;
      }
    }
  }

  /** Rule `k` admits some packet from `name` that no rule before it stops. */
  predicate Opens(extra: seq<PolicyRule>, k: nat, name: string)
    requires k < |extra|
  {
    && extra[k].verdict == Accept && AdmitsFrom(extra[k], name)
    && forall j :: 0 <= j < k && extra[j].verdict != Accept && AdmitsFrom(extra[j], name) ==>
         !(extra[j].others <= extra[k].others)
  }

  lemma {:induction false} PassedIsOpened(extra: seq<PolicyRule>, p: Packet) returns (k: nat)
    requires Decide(AdminRules(extra), p) == Some(Pass)
    ensures k < |extra| && Opens(extra, k, p.iif) && extra[k].others <= p.satisfies
  {
    hide AdmitsFrom;
    AdminApplies(extra[0], p);
    DecideStep(AdminRule(extra[0]), AdminRules(extra[1..]), p);
    if Applies(AdminRule(extra[0]), p) {
      k := 0;
    } else {
      k := PassedIsOpened(extra[1..], p);
      k := k + 1;
      assert forall j :: 0 < j < k ==> extra[j] == extra[1..][j - 1];
    }
  }

  lemma {:induction false} OpenedPasses(extra: seq<PolicyRule>, k: nat, p: Packet)
    requires k < |extra| && Opens(extra, k, p.iif) && p.satisfies == extra[k].others
    ensures Decide(AdminRules(extra), p) == Some(Pass)
  {
    hide AdmitsFrom;
    AdminApplies(extra[0], p);
    DecideStep(AdminRule(extra[0]), AdminRules(extra[1..]), p);
    if !Applies(AdminRule(extra[0]), p) {
      assert forall j :: 0 <= j < k - 1 ==> extra[1..][j] == extra[j + 1];
      OpenedPasses(extra[1..], k - 1, p);
    }
  }

  /** No administrator rule that validates and is confined accepts packets
      from a name the validator finds as neither a LAN nor a Management NIC. */
  lemma AdminNeverOpensWan(interfaces: seq<Iface>, extra: seq<PolicyRule>, p: Packet)
    requires Lawful(interfaces, extra) && !FoundInside(interfaces, p.iif)
    ensures Decide(AdminRules(extra), p) != Some(Pass)
  {
    hide AdminRules, AdmitsFrom, Confined;
    if Decide(AdminRules(extra), p) == Some(Pass) {
      var k := PassedIsOpened(extra, p);
      assert CheckPolicyRule(interfaces, extra[k]).None?;
      ConfinedMeaning(extra[k]);
    }
  }

  /** The first interface called `name` is a LAN or a Management NIC. */
  predicate FoundInside(interfaces: seq<Iface>, name: string) {
    var found := FindIface(interfaces, name);
    found.Some? && (found.value.role == Lan || found.value.role == Mgmt)
  }

  /** Rules the validator accepts, none of which reaches past what it found. */
  predicate Lawful(interfaces: seq<Iface>, extra: seq<PolicyRule>) {
    forall k :: 0 <= k < |extra| ==> CheckPolicyRule(interfaces, extra[k]).None? && Confined(extra[k])
  }

  /** What an input packet must be to pass. */
  predicate MayEnter(state: DesiredState, p: Packet) {
    || p.iif == "lo"
    || match Decide(AdminRules(state.nftExtra), p)
       case Some(action) => action == Pass
       case None => HasRole(state, p.iif, Wan) ==> p.established || FromUpstream(p)
  }

  lemma InputMeaning(state: DesiredState, guarded: bool, p: Packet)
    ensures Passes(NftRules(state, guarded).input, p) <==> MayEnter(state, p)
  {
    hide HasRole, FromUpstream, ForwardRules, AdminRules, WithRole, Exposure, ExposedDnat, Ipv4Wan;
    var lo, admin, wans := Rule({IifName("lo")}, Pass), AdminRules(state.nftExtra), WansInput(Wans(state));
    RoleNames(state, p.iif);
    WansInputDecides(Wans(state), p);
    DecideAppend(admin, wans, p);
    DecideStep(lo, admin + wans, p);
    assert Applies(lo, p) <==> p.iif == "lo";
  }

  /** A new packet that no WAN needs to receive. */
  predicate Unsolicited(p: Packet, name: string) {
    p.iif == name && !p.established && !FromUpstream(p)
  }

  ghost predicate Closed(input: Chain, name: string) {
    forall p: Packet :: Unsolicited(p, name) ==> !Passes(input, p)
  }

  /** Every state, valid or not: which of its WANs an unsolicited packet can
      enter by, told from the rules alone. */
  lemma ClosedMeaning(state: DesiredState, guarded: bool, name: string)
    requires HasRole(state, name, Wan)
    ensures Closed(NftRules(state, guarded).input, name)
            <==> name != "lo" && forall k :: 0 <= k < |state.nftExtra| ==> !Opens(state.nftExtra, k, name)
  {
    hide NftRules, AdminRules, Opens, Passes, HasRole;
    var input := NftRules(state, guarded).input;
    forall p: Packet | Unsolicited(p, name) && Passes(input, p)
      ensures name == "lo" || exists k :: 0 <= k < |state.nftExtra| && Opens(state.nftExtra, k, name)
    {
      InputMeaning(state, guarded, p);
      if name != "lo" { var k := PassedIsOpened(state.nftExtra, p); }
    }
    if name == "lo" {
      Intruder(state, guarded, name, {});
    } else if k :| 0 <= k < |state.nftExtra| && Opens(state.nftExtra, k, name) {
      var p := Packet(name, "", V4(0), V4(0), OtherTransport, false, state.nftExtra[k].others);
      OpenedPasses(state.nftExtra, k, p);
      Intruder(state, guarded, name, state.nftExtra[k].others);
    }
  }

  lemma Intruder(state: DesiredState, guarded: bool, name: string, satisfies: set<nat>)
    ensures var p := Packet(name, "", V4(0), V4(0), OtherTransport, false, satisfies);
      && Unsolicited(p, name) && (Passes(NftRules(state, guarded).input, p) <==> MayEnter(state, p))
  {
    hide NftRules, Passes, MayEnter;
    InputMeaning(state, guarded, Packet(name, "", V4(0), V4(0), OtherTransport, false, satisfies));
  }

  /** Under rules that are validated and confined, a WAN admits only replies,
      listed ICMPv6 and DHCPv6 replies, and exactly those unless a rule drops
      or rejects them first. */
  lemma WanStaysClosed(state: DesiredState, guarded: bool, p: Packet)
    requires Lawful(state.interfaces, state.nftExtra) && HasRole(state, p.iif, Wan)
    requires p.iif != "lo" && !FoundInside(state.interfaces, p.iif)
    ensures Passes(NftRules(state, guarded).input, p) <==>
              (p.established || FromUpstream(p)) && Decide(AdminRules(state.nftExtra), p).None?
  {
    hide NftRules, AdminRules, FromUpstream, Lawful, FoundInside;
    AdminNeverOpensWan(state.interfaces, state.nftExtra, p);
    InputMeaning(state, guarded, p);
  }

  /** And that is exactly when: a WAN is closed under all such rules if and
      only if it is not called `lo` and is what the validator finds by its
      name. */
  lemma ClosedUnderEveryPolicy(state: DesiredState, guarded: bool, name: string)
    requires HasRole(state, name, Wan)
    ensures (forall extra :: Lawful(state.interfaces, extra) ==>
              Closed(NftRules(state.(nftExtra := extra), guarded).input, name))
            <==> name != "lo" && !FoundInside(state.interfaces, name)
  {
    hide NftRules, Passes, Lawful, AdminRules, Closed;
    forall extra | Lawful(state.interfaces, extra) && name != "lo" && !FoundInside(state.interfaces, name)
      ensures Closed(NftRules(state.(nftExtra := extra), guarded).input, name)
    {
      LawfulKeepsClosed(state.(nftExtra := extra), guarded, name);
    }
    if name == "lo" {
      assert Lawful(state.interfaces, []) by { LawfulEmpty(state.interfaces); }
      ClosedMeaning(state.(nftExtra := []), guarded, name);
    } else if FoundInside(state.interfaces, name) {
      var rule := PolicyRule(Some(name), 3, {name}, {}, Accept);
      assert Lawful(state.interfaces, [rule]) by { LawfulAccept(state.interfaces, rule); }
      ClosedMeaning(state.(nftExtra := [rule]), guarded, name);
      assert Opens([rule], 0, name);
    }
  }

  lemma LawfulKeepsClosed(state: DesiredState, guarded: bool, name: string)
    requires Lawful(state.interfaces, state.nftExtra) && HasRole(state, name, Wan)
    requires name != "lo" && !FoundInside(state.interfaces, name)
    ensures Closed(NftRules(state, guarded).input, name)
  {
    hide NftRules, Passes, Lawful, AdminRules, FoundInside;
    forall p: Packet | Unsolicited(p, name)
      ensures !Passes(NftRules(state, guarded).input, p)
    {
      WanStaysClosed(state, guarded, p);
    }
  }

  lemma LawfulEmpty(interfaces: seq<Iface>)
    ensures Lawful(interfaces, [])
  {
  }

  lemma LawfulAccept(interfaces: seq<Iface>, rule: PolicyRule)
    requires rule.found.Some? && FoundInside(interfaces, rule.found.value)
    requires rule == PolicyRule(Some(rule.found.value), 3, {rule.found.value}, {}, Accept)
    ensures Lawful(interfaces, [rule])
  {
  }

  /** The table filters as the state means it: forwarding exactly what may be,
      admitting from every WAN whose rules leave it closed only replies and
      what upstream must send. */
  ghost predicate FiltersAs(table: Table, state: DesiredState) {
    && (forall p: Packet :: Passes(table.forward, p) <==> MayForward(state, p))
    && (forall name :: HasRole(state, name, Wan) ==>
          (Closed(table.input, name)
           <==> name != "lo" && forall k :: 0 <= k < |state.nftExtra| ==> !Opens(state.nftExtra, k, name)))
    && (Lawful(state.interfaces, state.nftExtra) ==>
          forall p: Packet :: HasRole(state, p.iif, Wan) && p.iif != "lo" && !FoundInside(state.interfaces, p.iif) ==>
            (Passes(table.input, p) <==>
               (p.established || FromUpstream(p)) && Decide(AdminRules(state.nftExtra), p).None?))
  }

  lemma PolicyFilters(state: DesiredState)
    ensures FiltersAs(NftRules(state, false), state)
  {
    hide NftRules, Passes, MayForward, HasRole, FromUpstream, AdminRules, Decide, Closed, Opens, Lawful, FoundInside;
    forall p: Packet
      ensures Passes(NftRules(state, false).forward, p) <==> MayForward(state, p)
    {
      ForwardMeaning(state, false, p);
    }
    forall name | HasRole(state, name, Wan)
      ensures Closed(NftRules(state, false).input, name)
              <==> name != "lo" && forall k :: 0 <= k < |state.nftExtra| ==> !Opens(state.nftExtra, k, name)
    {
      ClosedMeaning(state, false, name);
    }
    if Lawful(state.interfaces, state.nftExtra) {
      forall p: Packet | HasRole(state, p.iif, Wan) && p.iif != "lo" && !FoundInside(state.interfaces, p.iif)
        ensures Passes(NftRules(state, false).input, p) <==>
                (p.established || FromUpstream(p)) && Decide(AdminRules(state.nftExtra), p).None?
      {
        WanStaysClosed(state, false, p);
      }
    }
  }

  /** A LAN and a WAN, nothing else. */
  function TwoLinks(lan: Iface, wan: Iface, extra: seq<PolicyRule>): DesiredState {
    DesiredState(1, [lan, wan], [], [], extra, [], None, None, None, None, [lan.name], false)
  }

  lemma KeyedByParent(i: Iface)
    requires i.parent.Some?
    ensures L2Key(i) == (i.parent.value, i.vlan)
  {
  }

  lemma TwoLinksValidate(lan: Iface, wan: Iface, extra: seq<PolicyRule>)
    requires lan.role == Lan && wan.role == Wan && L2Key(lan) != L2Key(wan)
    requires forall i :: i in [lan, wan] ==>
      && InterfaceName(i.name) && i.addresses == [] && i.ipv6.None? && !i.requestPd && i.placement == ""
      && i.parent.Some? && InterfaceName(i.parent.value) && i.parent.value != i.name && i.vlan == Some(5)
    requires forall k :: 0 <= k < |extra| ==> CheckPolicyRule([lan, wan], extra[k]).None?
    ensures Validate(TwoLinks(lan, wan, extra)).None?
  {
    hide L2Key, CheckPolicyRule, InterfaceName, Validate;
    var state := TwoLinks(lan, wan, extra);
    assert lan in state.interfaces && wan in state.interfaces by {
      assert state.interfaces[0] == lan && state.interfaces[1] == wan;
    }
    assert CheckIface(lan).None? && CheckIface(wan).None?;
    ValidateChecks(state);
  }

  /** A rule whose only `iifname` stands in a log prefix: the validator takes
      it for a LAN's, nftables accepts every WAN's packets by it. */
  lemma LogRuleOpensWan(p: Packet)
    requires p.iif == "y.5"
    ensures exists state ::
      && Validate(state).None? && DistinctNames(state.interfaces) && HasRole(state, p.iif, Wan)
      && Passes(NftRules(state, false).input, p)
  {
    hide NftRules, Passes, L2Key, Validate;
    var lan := Iface("x.5", "", Lan, [], Some(5), Some("a"), false, None, false);
    var wan := Iface("y.5", "", Wan, [], Some(5), Some("b"), false, None, false);
    var policy := PolicyRule(Some("x.5"), 7, {}, {}, Accept);
    RuleOpens(lan, wan, policy, p);
    assert DistinctNames(TwoLinks(lan, wan, [policy]).interfaces);
  }

  /** With one name on a LAN and then a WAN, a policy for the LAN admits the
      WAN's packets. */
  lemma DuplicateNameOpensWan(p: Packet)
    requires p.iif == "x.5" && 7 in p.satisfies
    ensures exists state ::
      Validate(state).None? && HasRole(state, p.iif, Wan) && Passes(NftRules(state, false).input, p)
  {
    hide NftRules, Passes, L2Key, Validate;
    var lan := Iface("x.5", "", Lan, [], Some(5), Some("a"), false, None, false);
    var wan := Iface("x.5", "", Wan, [], Some(5), Some("b"), false, None, false);
    var policy := PolicyRule(Some("x.5"), 4, {"x.5"}, {7}, Accept);
    RuleOpens(lan, wan, policy, p);
  }

  lemma RuleOpens(lan: Iface, wan: Iface, policy: PolicyRule, p: Packet)
    requires InterfaceName(lan.name) && InterfaceName(wan.name)
    requires lan == Iface(lan.name, "", Lan, [], Some(5), Some("a"), false, None, false)
    requires wan == Iface(wan.name, "", Wan, [], Some(5), Some("b"), false, None, false)
    requires lan.name != "a" && wan.name != "b" && p.iif == wan.name
    requires policy == PolicyRule(Some(lan.name), policy.wordCount, policy.iifs, policy.others, Accept)
        && policy.wordCount >= 2
    requires AdmitsFrom(policy, p.iif) && policy.others <= p.satisfies
    ensures var state := TwoLinks(lan, wan, [policy]);
      Validate(state).None? && HasRole(state, p.iif, Wan) && Passes(NftRules(state, false).input, p)
  {
    hide NftRules, Passes, L2Key, Validate, InterfaceName, AdmitsFrom;
    var state := TwoLinks(lan, wan, [policy]);
    assert L2Key(lan) != L2Key(wan) by { KeyedByParent(lan); KeyedByParent(wan); }
    assert InterfaceName("a") && InterfaceName("b") by { OneLetterNames(); }
    TwoLinksValidate(lan, wan, [policy]);
    assert state.interfaces[1] in state.interfaces;
    AdminApplies(policy, p);
    assert AdminRules(state.nftExtra) == [AdminRule(policy)];
    InputMeaning(state, false, p);
  }

  lemma OneLetterNames()
    ensures InterfaceName("a") && InterfaceName("b")
  {
  }

  /** An interface called `lo` is admitted outright. */
  lemma WanCalledLoIsOpen(p: Packet)
    requires p.iif == "lo"
    ensures exists state ::
      Validate(state).None? && HasRole(state, p.iif, Wan) && Passes(NftRules(state, false).input, p)
  {
    hide NftRules, Passes;
    var lan := Iface("x", "", Lan, [], Some(5), Some("a"), false, None, false);
    var wan := Iface("lo", "", Wan, [], Some(5), Some("b"), false, None, false);
    var state := TwoLinks(lan, wan, []);
    TwoLinksValidate(lan, wan, []);
    assert state.interfaces[1] in state.interfaces;
    InputMeaning(state, false, p);
  }

  /** New traffic from a WAN leaves only by a WAN, and a Management NIC
      exchanges new traffic with nothing but the UI. */
  lemma Isolation(state: DesiredState, guarded: bool, p: Packet)
    requires DistinctNames(state.interfaces)
    requires Passes(NftRules(state, guarded).forward, p) && !p.established && p.iif != "f0mgmt"
    ensures HasRole(state, p.iif, Wan) ==> HasRole(state, p.oif, Wan)
    ensures HasRole(state, p.iif, Mgmt) ==> ToManagement(p)
    ensures HasRole(state, p.oif, Mgmt) ==> ToManagement(p)
    ensures !HasRole(state, p.oif, Wan) ==> ToManagement(p) && Exposed(state, p.iif)
  {
    hide NftRules, Passes, ToManagement;
    ForwardMeaning(state, guarded, p);
    if HasRole(state, p.iif, Wan) {
      var i :| i in state.interfaces && i.name == p.iif && i.role == Wan;
      FindByName(state.interfaces, i);
      forall j | j in state.interfaces && j.name == p.iif
        ensures j.role == Wan
      {
        FindByName(state.interfaces, j);
      }
    }
  }

  // ----- address translation ----------------------------------------------------

  lemma Ipv4WanMeaning(state: DesiredState)
    ensures Ipv4Wan(state) <==> exists w, c :: w in state.interfaces && w.role == Wan && c in w.addresses && c.ip.V4?
  {
    if Ipv4Wan(state) {
      var i, c :| 0 <= i < |state.interfaces| && state.interfaces[i].role == Wan
                  && 0 <= c < |state.interfaces[i].addresses| && state.interfaces[i].addresses[c].ip.V4?;
      assert state.interfaces[i] in state.interfaces
          && state.interfaces[i].addresses[c] in state.interfaces[i].addresses;
    }
    if w, c :| w in state.interfaces && w.role == Wan && c in w.addresses && c.ip.V4? {
      var i :| 0 <= i < |state.interfaces| && state.interfaces[i] == w;
      var k :| 0 <= k < |w.addresses| && w.addresses[k] == c;
    }
  }

  lemma PullMeaning(ip: Ip)
    ensures InPrefix(PULL_NETWORK, ip) <==> ip.V4? && ip.v4 / 4 == 0xA9FE_7F00 / 4
  {
    assert Pow2(2) == 4;
    if ip.V4? { RoundDownIsMultiple(ip.v4, 4); }
  }

  /** IPv4 leaving by a WAN, and the Host's own pulls: no IPv6 source is ever
      translated. */
  lemma SourceTranslation(state: DesiredState, guarded: bool, p: Packet)
    ensures Decide(NftRules(state, guarded).postrouting, p) == Some(Masquerade) <==>
              && p.source.V4?
              && (|| p.source.v4 / 4 == 0xA9FE_7F00 / 4
                  || (HasRole(state, p.oif, Wan)
                      && exists w, c :: w in state.interfaces && w.role == Wan && c in w.addresses && c.ip.V4?))
    ensures p.source.V6? ==> Decide(NftRules(state, guarded).postrouting, p).None?
  {
    Ipv4WanMeaning(state);
    PullMeaning(p.source);
    hide InPrefix, HasRole, Ipv4Wan, WithRole, Exposure, ExposedDnat, InputRules, ForwardRules;
    var pull := HOST_PULL[0];
    RoleNames(state, p.oif);
    WanMasqueradeDecides(Wans(state), p);
    DecideAppend(HOST_PULL, if Ipv4Wan(state) then WanMasquerade(Wans(state)) else [], p);
    assert Applies(pull, p) <==> p.source.V4? && InPrefix(PULL_NETWORK, p.source) by {
      assert IsIpv4 in pull.matches && SourceIn(PULL_NETWORK) in pull.matches;
    }
  }

  predicate SameFamilyEnds(p: Packet) {
    p.source.V4? == p.destination.V4?
  }

  /** Where the UI listens for each family: fd53:1:1::6 and 169.254.127.6. */
  function UiAddress(asked: Ip): Ip {
    if asked.V6? then V6(0xFD53_0001_0001_0000_0000_0000_0000_0006) else V4(0xA9FE_7F06)
  }

  /** An address administrators may reach the UI by: unicast, not loopback, and
      not one of the appliance's own plumbing, 169.254.127.0/24. */
  predicate Reachable(ip: Ip) {
    match ip
    case V4(a) =>
      && a / 0x100_0000 != 127 && a != 0 && a / 0x1000_0000 != 14 && a != 0xFFFF_FFFF
      && a / 0x100 != 0xA9_FE7F
    case V6(a) => a != 0 && a != 1 && a / 0x100_0000_0000_0000_0000_0000_0000_0000 != 0xFF
  }

  lemma ReachableMeaning(ip: Ip)
    ensures ExposeAllowed(ip) <==> Reachable(ip)
  {
  }

  lemma {:induction false} DnatToDecides(name: string, ips: seq<Ip>, p: Packet)
    ensures Decide(DnatTo(name, ips), p) ==
            if p.iif == name && p.transport == Tcp(443) && p.destination in ips
            then Some(Dnat(UiAddress(p.destination))) else None
  {
    if ips != [] {
      var r := Rule({IifName(name), Destined(ips[0]), TcpTo(443)},
          Dnat(if ips[0].V6? then VETH_ADDRESS_6 else VETH_ADDRESS_4));
      DnatToDecides(name, ips[1..], p);
      DecideStep(r, DnatTo(name, ips[1..]), p);
      assert Applies(r, p) <==> p.iif == name && p.destination == ips[0] && p.transport == Tcp(443) by {
        assert IifName(name) in r.matches && Destined(ips[0]) in r.matches && TcpTo(443) in r.matches;
      }
    }
  }

  lemma {:induction false} ExposeIpsMembers(addresses: seq<Cidr>, seen: set<Ip>, ip: Ip)
    ensures ip in ExposeIps(addresses, seen) <==> ip !in seen && Reachable(ip) && SharesAddress(addresses, ip)
  {
    hide ExposeAllowed, Reachable;
    ReachableMeaning(ip);
    if addresses != [] {
      var head := addresses[0].ip;
      ExposeIpsMembers(addresses[1..], if ExposeAllowed(head) && head !in seen then seen + {head} else seen, ip);
      assert SharesAddress(addresses, ip) <==> head == ip || SharesAddress(addresses[1..], ip) by {
        assert forall i :: 0 < i < |addresses| ==> addresses[i] == addresses[1..][i - 1];
      }
    }
  }

  predicate SharesAddress(addresses: seq<Cidr>, ip: Ip) {
    exists i :: 0 <= i < |addresses| && addresses[i].ip == ip
  }

  /** The packets an exposed interface hands to the UI. */
  ghost predicate UiRequest(i: Iface, p: Packet) {
    && p.iif == i.name
    && p.transport == Tcp(443)
    && (if exists ip: Ip :: Reachable(ip) && SharesAddress(i.addresses, ip)
        then Reachable(p.destination) && SharesAddress(i.addresses, p.destination)
        else p.source.V4?)
  }

  lemma IfaceDnatDecides(i: Iface, p: Packet)
    requires SameFamilyEnds(p)
    ensures Decide(IfaceDnat(i), p) ==
            if UiRequest(i, p) then Some(Dnat(UiAddress(p.destination))) else None
  {
    hide Reachable, SharesAddress;
    var ips := ExposeIps(i.addresses, {});
    ExposeIpsMembers(i.addresses, {}, p.destination);
    if ips == [] {
      forall ip
        ensures !(Reachable(ip) && SharesAddress(i.addresses, ip))
      {
        ExposeIpsMembers(i.addresses, {}, ip);
      }
      var r := IfaceDnat(i)[0];
      assert Applies(r, p) <==> p.iif == i.name && p.source.V4? && p.transport == Tcp(443) by {
        assert IifName(i.name) in r.matches && IsIpv4 in r.matches && TcpTo(443) in r.matches;
      }
    } else {
      ExposeIpsMembers(i.addresses, {}, ips[0]);
      DnatToDecides(i.name, ips, p);
    }
  }

  lemma {:induction false} ExposedDnatDecides(exposed: seq<Iface>, p: Packet)
    requires SameFamilyEnds(p)
    ensures Decide(ExposedDnat(exposed), p) ==
            if exists i :: i in exposed && UiRequest(i, p)
            then Some(Dnat(UiAddress(p.destination))) else None
  {
    hide UiRequest, IfaceDnat;
    if exposed != [] {
      DecideAppend(IfaceDnat(exposed[0]), ExposedDnat(exposed[1..]), p);
      IfaceDnatDecides(exposed[0], p);
      ExposedDnatDecides(exposed[1..], p);
      assert forall i :: i in exposed <==> i == exposed[0] || i in exposed[1..];
    }
  }

  /** Only HTTPS to an exposed interface's own address is redirected, to the
      management veth's address of the packet's own family; never a WAN's. */
  lemma DestinationTranslation(state: DesiredState, guarded: bool, p: Packet)
    requires SameFamilyEnds(p)
    ensures Decide(NftRules(state, guarded).prerouting, p) ==
            if exists k: nat :: FirstInside(state.interfaces, k) && state.interfaces[k].name in state.uiExposure
                 && UiRequest(state.interfaces[k], p)
            then Some(Dnat(UiAddress(p.destination))) else None
    ensures DistinctNames(state.interfaces) && HasRole(state, p.iif, Wan) ==>
        Decide(NftRules(state, guarded).prerouting, p).None?
  {
    hide Exposure, FindInside, Ipv4Wan, InputRules, ForwardRules, WithRole, ExposedDnat;
    var exposed := Exposure(state.interfaces, state.uiExposure);
    ExposedDnatDecides(exposed, p);
    forall i: Iface
      ensures i in exposed <==> exists k: nat :: FirstInside(state.interfaces, k) && state.interfaces[k] == i
                                                 && i.name in state.uiExposure
    {
      ExposureMembers(state.interfaces, state.uiExposure, i);
    }
    if DistinctNames(state.interfaces) && HasRole(state, p.iif, Wan) {
      var w :| w in state.interfaces && w.name == p.iif && w.role == Wan;
      FindByName(state.interfaces, w);
      forall i | i in exposed
        ensures !UiRequest(i, p)
      {
        FindByName(state.interfaces, i);
      }
    }
  }
}
