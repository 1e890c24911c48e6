/** The RDNSS resolvers learned on WANs: a list edited in place, refining the
    latest announcement of each resolver. */
module ResolverTable {
  import opened Common
  import opened RouterAdvertisement

  datatype Entry = Entry(dev: string, server: Address, expires: nat)

  /** What happened to the table, in order. */
  datatype Event =
    | Configured(wans: seq<string>)
    | Announcement(dev: string, server: Address, lifetime: Word32, at: nat)

  /** When the latest announcement of a resolver still counts until: it must
      have had a lifetime, and its WAN stayed configured since. */
  function Latest(history: seq<Event>, dev: string, server: Address): Option<nat>
    decreases |history|
  {
    if history == [] then None
    else
      var before := history[..|history| - 1];
      match history[|history| - 1]
      case Configured(wans) => if dev in wans then Latest(before, dev, server) else None
      case Announcement(d, s, lifetime, at) =>
        if d == dev && s == server then (if lifetime > 0 then Some(at + lifetime) else None)
            else Latest(before, dev, server)
  }

  predicate Distinct(learned: seq<Entry>) {
    forall i, j :: 0 <= i < j < |learned| ==>
      !(learned[i].dev == learned[j].dev && learned[i].server == learned[j].server)
  }

  /** `retain` all but one resolver of one WAN. */
  function Forget(learned: seq<Entry>, dev: string, server: Address): (kept: seq<Entry>)
    ensures forall e :: e in kept <==> e in learned && !(e.dev == dev && e.server == server)
    ensures Distinct(learned) ==> Distinct(kept)
  {
    if learned == [] then []
    else
      assert forall e :: e in learned <==> e == learned[0] || e in learned[1..];
      var rest := Forget(learned[1..], dev, server);
      if learned[0].dev == dev && learned[0].server == server then rest else [learned[0]] + rest
  }

  /** `retain` the configured WANs'. */
  function OnWans(learned: seq<Entry>, wans: seq<string>): (kept: seq<Entry>)
    ensures forall e :: e in kept <==> e in learned && e.dev in wans
    ensures Distinct(learned) ==> Distinct(kept)
  {
    if learned == [] then []
    else
      assert forall e :: e in learned <==> e == learned[0] || e in learned[1..];
      var rest := OnWans(learned[1..], wans);
      if learned[0].dev in wans then [learned[0]] + rest else rest
  }

  /** The list holds exactly what the history says still counts. */
  ghost predicate Refines(learned: seq<Entry>, history: seq<Event>) {
    && Distinct(learned)
    && (forall e :: e in learned ==> Latest(history, e.dev, e.server) == Some(e.expires))
    && (forall dev, server :: Latest(history, dev, server).Some? ==>
        Entry(dev, server, Latest(history, dev, server).value) in learned)
  }

  lemma ConfigureRefines(learned: seq<Entry>, history: seq<Event>, wans: seq<string>)
    requires Refines(learned, history)
    ensures Refines(OnWans(learned, wans), history + [Configured(wans)])
  {
    assert (history + [Configured(wans)])[..|history|] == history;
  }

  /** The table after one announced server. */
  function Heard(learned: seq<Entry>, dev: string, server: Address, lifetime: Word32, at: nat): seq<Entry> {
    Forget(learned, dev, server) + if lifetime > 0 then [Entry(dev, server, at + lifetime)] else []
  }

  lemma LatestAfter(history: seq<Event>, e: Event, dev: string, server: Address)
    requires e.Announcement?
    ensures Latest(history + [e], dev, server) ==
            if e.dev != dev || e.server != server then Latest(history, dev, server)
            else if e.lifetime > 0 then Some(e.at + e.lifetime) else None
  {
    assert (history + [e])[..|history|] == history;
  }

  lemma HeardDistinct(learned: seq<Entry>, dev: string, server: Address, lifetime: Word32, at: nat)
    requires Distinct(learned)
    ensures Distinct(Heard(learned, dev, server, lifetime, at))
  {
    var kept := Forget(learned, dev, server);
    assert forall i :: 0 <= i < |kept| ==> kept[i] in kept;
  }

  lemma AnnouncementRefines(learned: seq<Entry>, history: seq<Event>, dev: string, server: Address, lifetime: Word32,
      at: nat)
    requires Refines(learned, history)
    ensures Refines(Heard(learned, dev, server, lifetime, at), history + [Announcement(dev, server, lifetime, at)])
  {
    HeardDistinct(learned, dev, server, lifetime, at);
    hide Distinct, Latest;
    var e := Announcement(dev, server, lifetime, at);
    var next := Heard(learned, dev, server, lifetime, at);
    forall d, s
      ensures Latest(history + [e], d, s).Some? ==> Entry(d, s, Latest(history + [e], d, s).value) in next
    {
      LatestAfter(history, e, d, s);
    }
    forall x | x in next
      ensures Latest(history + [e], x.dev, x.server) == Some(x.expires)
    {
      LatestAfter(history, e, x.dev, x.server);
    }
  }

  class RdnssListener {
    /** The WANs listened on. */
    var links: seq<string>
    var learned: seq<Entry>
    ghost var history: seq<Event>

    ghost predicate Valid()
      reads this
    {
      Refines(learned, history)
    }

    constructor ()
      ensures Valid() && history == [] && links == []
    {
      links, learned, history := [], [], [];
    }

    /** Listen on exactly these WANs, as far as sockets open: `openable` says on
        which links one does. */
    method Configure(wans: seq<string>, openable: set<string>)
      requires Valid()
      modifies this
      ensures Valid() && history == old(history) + [Configured(wans)]
      ensures forall dev :: dev in links <==> dev in wans && (dev in old(links) || dev in openable)
    {
      ConfigureRefines(learned, history, wans);
      history := history + [Configured(wans)];
      learned := OnWans(learned, wans);
      var kept: seq<string> := [];
      for i := 0 to |links|
        invariant forall dev :: dev in kept <==> dev in links[..i] && dev in wans
      {
        assert links[..i + 1] == links[..i] + [links[i]];
        if links[i] in wans { kept := kept + [links[i]]; }
      }
      assert links[..|links|] == links;
      links := kept;
      for i := 0 to |wans|
        invariant learned == OnWans(old(learned), wans) && history == old(history) + [Configured(wans)]
        invariant forall dev :: dev in links <==> dev in kept || (dev in wans[..i] && dev in openable)
      {
        assert wans[..i + 1] == wans[..i] + [wans[i]];
        if wans[i] !in links && wans[i] in openable { links := links + [wans[i]]; }
      }
      assert wans[..|wans|] == wans;
    }

    /** One advertisement, server by server. */
    method Learn(dev: string, packet: seq<Byte>, now: nat)
      requires Valid()
      modifies `learned, `history
      ensures Valid()
      ensures history == old(history) + Announcements(dev, NamedServers(packet), now)
    {
      hide Refines, Distinct, Latest;
      var servers := RdnssServers(packet);
      for i := 0 to |servers|
        invariant Valid()
        invariant history == old(history) + Announcements(dev, servers[..i], now)
      {
        assert servers[..i + 1][..i] == servers[..i];
        var (server, lifetime) := servers[i];
        AnnouncementRefines(learned, history, dev, server, lifetime, now);
        ghost var heard := Heard(learned, dev, server, lifetime, now);
        history := history + [Announcement(dev, server, lifetime, now)];
        learned := Forget(learned, dev, server);
        if lifetime > 0 { learned := learned + [Entry(dev, server, now + lifetime)]; }
        assert learned == heard;
      }
      assert servers[..|servers|] == servers;
    }

    /** The resolvers to publish for a WAN: each once, exactly those whose
        latest announcement still counts. */
    method Servers(dev: string, now: nat) returns (servers: seq<Address>)
      requires Valid()
      ensures forall i, j :: 0 <= i < j < |servers| ==> servers[i] != servers[j]
      ensures forall s :: s in servers <==> Latest(history, dev, s).Some? && Latest(history, dev, s).value > now
    {
      servers := [];
      for i := 0 to |learned|
        invariant forall j, k :: 0 <= j < k < |servers| ==> servers[j] != servers[k]
        invariant forall s :: s in servers <==>
            exists j :: 0 <= j < i && learned[j].dev == dev && learned[j].server == s && learned[j].expires > now
      {
        if learned[i].dev == dev && learned[i].expires > now {
          assert learned[i].server !in servers;
          servers := servers + [learned[i].server];
        }
      }
      forall s
        ensures s in servers <==> Latest(history, dev, s).Some? && Latest(history, dev, s).value > now
      {
        if Latest(history, dev, s).Some? {
          assert Entry(dev, s, Latest(history, dev, s).value) in learned;
        }
        if s in servers {
          var j :| 0 <= j < |learned| && learned[j].dev == dev && learned[j].server == s && learned[j].expires > now;
          assert Entry(dev, s, learned[j].expires) in learned;
        }
      }
    }
  }

  function Announcements(dev: string, servers: seq<(Address, Word32)>, now: nat): seq<Event>
    decreases |servers|
  {
    if servers == [] then []
    else
      var last := servers[|servers| - 1];
      Announcements(dev, servers[..|servers| - 1], now) + [Announcement(dev, last.0, last.1, now)]
  }
}
