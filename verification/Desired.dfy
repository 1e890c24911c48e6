/** The complete Desired state that the clients, the UI and netd exchange.
    Addresses are parsed values; roles and modes keep an arm for text the
    validator does not know. */
module Desired {
  import opened Common

  type Word32 = x: int | 0 <= x < 0x1_0000_0000

  type Word128 = x: int | 0 <= x < 0x1_0000_0000_0000_0000_0000_0000_0000_0000

  datatype Ip = V4(v4: Word32) | V6(v6: Word128)

  datatype Cidr = Cidr(ip: Ip, len: nat)

  datatype Role = Unassigned | Wan | Lan | Unused | Stick | Mgmt | UnknownRole(text: string)

  datatype Ipv6Mode = Slaac | Dhcpv6 | UnknownMode(text: string)

  datatype Iface = Iface(
    name: string,
    placement: string,
    role: Role,
    addresses: seq<Cidr>,
    vlan: Option<nat>,
    parent: Option<string>,
    dhcp: bool,
    ipv6: Option<Ipv6Mode>,
    requestPd: bool)

  datatype Wg = Wg(name: string, privateKey: string, listenPort: Option<nat>, addresses: seq<Cidr>)

  datatype StaticRoute = StaticRoute(to: Cidr, via: Ip, dev: Option<string>)

  predicate DistinctDestinations(routes: seq<StaticRoute>) {
    forall i, j :: 0 <= i < j < |routes| ==> routes[i].to != routes[j].to
  }

  datatype Pool = Pool(first: Word32, last: Word32)

  datatype Verdict = Accept | Drop | Reject

  /** One administrator policy line, as two readers take it. The validator
      splits it into words: `found` is the word after the first `iifname`.
      nftables parses it: it matches the interfaces `iifs`, and the `others`,
      which are opaque; a packet carries the set it satisfies. An `iifname`
      inside a quoted string is a word to the first and nothing to the second. */
  datatype PolicyRule = PolicyRule(
    found: Option<string>,
    wordCount: nat,
    iifs: set<string>,
    others: set<nat>,
    verdict: Verdict)

  datatype QdiscKind = FqCodel | Fq | Pfifo | Bfifo | Sfq | Cake | UnknownQdisc(text: string)

  datatype Qdisc = Qdisc(dev: string, kind: QdiscKind)

  datatype DesiredState = DesiredState(
    revision: nat,
    interfaces: seq<Iface>,
    wireguard: seq<Wg>,
    routes: seq<StaticRoute>,
    nftExtra: seq<PolicyRule>,
    qdiscs: seq<Qdisc>,
    hostname: Option<string>,
    lanPrefix: Option<Cidr>,
    dhcpPool: Option<Pool>,
    wanPd: Option<Cidr>,
    uiExposure: seq<string>,
    applyConfirmation: bool)

  /** What programming a state into the kernel may do to it: fill in an
      interface's live addresses or append the LAN host address. Nothing else
      moves, and no address is dropped. */
  ghost predicate IfaceExtends(a: Iface, b: Iface) {
    && a == b.(addresses := a.addresses)
    && a.addresses <= b.addresses
  }

  ghost predicate Extends(a: DesiredState, b: DesiredState) {
    && a == b.(interfaces := a.interfaces)
    && |a.interfaces| == |b.interfaces|
    && forall i :: 0 <= i < |a.interfaces| ==> IfaceExtends(a.interfaces[i], b.interfaces[i])
  }

  lemma ExtendsReflexive(a: DesiredState)
    ensures Extends(a, a)
  {
  }

  lemma ExtendsKeeps(a: DesiredState, b: DesiredState)
    requires Extends(a, b)
    ensures a.revision == b.revision && a.applyConfirmation == b.applyConfirmation
  {
  }

  lemma ExtendsTransitive(a: DesiredState, b: DesiredState, c: DesiredState)
    requires Extends(a, b) && Extends(b, c)
    ensures Extends(a, c)
  {
    forall i | 0 <= i < |a.interfaces|
      ensures IfaceExtends(a.interfaces[i], c.interfaces[i])
    {
      assert IfaceExtends(a.interfaces[i], b.interfaces[i]);
      assert IfaceExtends(b.interfaces[i], c.interfaces[i]);
    }
  }

  /** A revision-0 file predates revisions; readers see it as revision 1. */
  function Effective(d: DesiredState): DesiredState {
    if d.revision == 0 then d.(revision := 1) else d
  }

  const MAX_REVISION: nat := 0xFFFF_FFFF_FFFF_FFFF
}
