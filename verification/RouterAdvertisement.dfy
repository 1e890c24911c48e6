/** Router Advertisements (sections 4.2 and 4.6.2 of RFC 4861): the encoding
    netd sends on its LANs, and the RDNSS servers (section 5.1 of RFC 8106) it
    reads from those its WANs receive. */
module RouterAdvertisement {
  import opened Common
  import Desired

  type Byte = x: int | 0 <= x < 256

  type Word16 = x: int | 0 <= x < 0x1_0000

  type Word32 = Desired.Word32

  /** An IPv6 address as its octets. */
  type Address = s: seq<Byte> | |s| == 16 witness seq(16, _ => 0)

  type Mac = s: seq<Byte> | |s| == 6 witness seq(6, _ => 0)

  const ROUTER_ADVERT: Byte := 134
  const RDNSS: Byte := 25
  const ROUTER_LIFETIME: Word16 := 1800
  const VALID_LIFETIME: Word32 := 3600
  const PREFERRED_LIFETIME: Word32 := 1800

  function Zeros(n: nat): (z: seq<Byte>)
    ensures |z| == n
  {
    seq(n, _ => 0)
  }

  function BigEndian16(v: Word16): (b: seq<Byte>)
    ensures |b| == 2
  {
    [v / 0x100, v % 0x100]
  }

  function BigEndian32(v: Word32): (b: seq<Byte>)
    ensures |b| == 4
  {
    [v / 0x100_0000, v / 0x1_0000 % 0x100, v / 0x100 % 0x100, v % 0x100]
  }

  function FromBigEndian32(b: seq<Byte>): Word32
    requires |b| == 4
  {
    (b[0] as int) * 0x100_0000 + (b[1] as int) * 0x1_0000 + (b[2] as int) * 0x100 + (b[3] as int)
  }

  lemma BigEndian32RoundTrip(v: Word32)
    ensures FromBigEndian32(BigEndian32(v)) == v
  {
    var high, low := v / 0x1_0000, v % 0x1_0000;
    assert v / 0x100_0000 == high / 0x100;
    assert v / 0x100 % 0x100 == low / 0x100;
  }

  // ----- encoding -------------------------------------------------------------------

  function PrefixOption(prefix: Address, valid: Word32, preferred: Word32): (o: seq<Byte>)
    ensures |o| == 32 && o[0] == 3 && o[1] == 4
  {
    [3, 4, 64, 0x80 + 0x40] + BigEndian32(valid) + BigEndian32(preferred) + Zeros(4) + prefix
  }

  function PrefixOptions(prefixes: seq<Address>, valid: Word32, preferred: Word32): seq<Byte>
    decreases |prefixes|
  {
    if prefixes == [] then []
    else
      PrefixOptions(prefixes[..|prefixes| - 1], valid, preferred)
      + PrefixOption(prefixes[|prefixes| - 1], valid, preferred)
  }

  function MacOption(mac: Option<Mac>): seq<Byte> {
    if mac.Some? then [1, 1] + mac.value else []
  }

  function Header(managed: bool, withdraw: bool): (h: seq<Byte>)
    ensures |h| == 16
  {
    [ROUTER_ADVERT, 0, 0, 0, 64, if managed then 0x80 else 0] + BigEndian16(if withdraw then 0 else ROUTER_LIFETIME)
      + Zeros(8)
  }

  function Lifetimes(withdraw: bool): (Word32, Word32) {
    if withdraw then (0, 0) else (VALID_LIFETIME, PREFERRED_LIFETIME)
  }

  function Advertisement(prefixes: seq<Address>, managed: bool, mac: Option<Mac>, withdraw: bool): seq<Byte> {
    Header(managed, withdraw) + MacOption(mac) + PrefixOptions(prefixes, Lifetimes(withdraw).0, Lifetimes(withdraw).1)
  }

  method Advertise(prefixes: seq<Address>, managed: bool, mac: Option<Mac>, withdraw: bool) returns (packet: seq<Byte>)
    ensures packet == Advertisement(prefixes, managed, mac, withdraw)
  {
    packet := [ROUTER_ADVERT, 0, 0, 0, 64, if managed then 0x80 else 0];
    packet := packet + BigEndian16(if withdraw then 0 else ROUTER_LIFETIME);
    packet := packet + Zeros(8);
    if mac.Some? {
      packet := packet + [1, 1];
      packet := packet + mac.value;
    }
    packet := AddPrefixes(packet, prefixes, Lifetimes(withdraw).0, Lifetimes(withdraw).1);
  }

  method AddPrefixes(start: seq<Byte>, prefixes: seq<Address>, valid: Word32, preferred: Word32)
    returns (packet: seq<Byte>)
    ensures packet == start + PrefixOptions(prefixes, valid, preferred)
  {
    hide PrefixOption;
    packet := start;
    for i := 0 to |prefixes|
      invariant packet == start + PrefixOptions(prefixes[..i], valid, preferred)
    {
      assert prefixes[..i + 1][..i] == prefixes[..i];
      packet := packet + PrefixOption(prefixes[i], valid, preferred);
    }
    assert prefixes[..|prefixes|] == prefixes;
  }

  // ----- options ----------------------------------------------------------------------

  /** The whole first option, if there is one. */
  function OptionLength(options: seq<Byte>): (length: nat)
    ensures length == 0 || 8 <= length <= |options|
  {
    if |options| < 8 then 0
    else
      var length := (options[1] as int) * 8;
      if length > |options| then 0 else length
  }

  function Chunks(body: seq<Byte>, lifetime: Word32): seq<(Address, Word32)>
    decreases |body|
  {
    if |body| < 16 then [] else [(body[..16], lifetime)] + Chunks(body[16..], lifetime)
  }

  function ServersIn(option: seq<Byte>): seq<(Address, Word32)>
    requires |option| >= 8
  {
    if option[0] == RDNSS && |option| >= 24 then Chunks(option[8..], FromBigEndian32(option[4..8])) else []
  }

  function Servers(options: seq<Byte>): seq<(Address, Word32)>
    decreases |options|
  {
    var length := OptionLength(options);
    if length == 0 then [] else ServersIn(options[..length]) + Servers(options[length..])
  }

  predicate IsAdvertisement(packet: seq<Byte>) {
    |packet| >= 16 && packet[0] == ROUTER_ADVERT
  }

  function NamedServers(packet: seq<Byte>): seq<(Address, Word32)> {
    if IsAdvertisement(packet) then Servers(packet[16..]) else []
  }

  /** `rdnss_servers`: a cursor over the options; a malformed one ends it. */
  method RdnssServers(packet: seq<Byte>) returns (servers: seq<(Address, Word32)>)
    ensures servers == NamedServers(packet)
  {
    hide Chunks, FromBigEndian32, Servers;
    servers := [];
    if packet == [] || packet[0] != ROUTER_ADVERT || |packet| < 16 { return; }
    var options := packet[16..];
    while |options| >= 8
      invariant servers + Servers(options) == NamedServers(packet)
      decreases |options|
    {
      var length := (options[1] as int) * 8;
      if length == 0 || length > |options| {
        NoneLeft(options);
        return;
      }
      var option := options[..length];
      Unfold(servers, options);
      if option[0] == RDNSS && length >= 24 {
        servers := PushServers(servers, option[8..], FromBigEndian32(option[4..8]));
      }
      options := options[length..];
    }
    NoneLeft(options);
  }

  lemma NoneLeft(options: seq<Byte>)
    requires OptionLength(options) == 0
    ensures Servers(options) == []
  {
  }

  method PushServers(before: seq<(Address, Word32)>, addresses: seq<Byte>, lifetime: Word32)
    returns (servers: seq<(Address, Word32)>)
    ensures servers == before + Chunks(addresses, lifetime)
  {
    servers := before;
    var body := addresses;
    while |body| >= 16
      invariant servers + Chunks(body, lifetime) == before + Chunks(addresses, lifetime)
      decreases |body|
    {
      servers := servers + [(body[..16], lifetime)];
      body := body[16..];
    }
  }

  lemma Unfold(before: seq<(Address, Word32)>, options: seq<Byte>)
    requires OptionLength(options) > 0
    ensures var length := OptionLength(options);
      before + Servers(options) == before + ServersIn(options[..length]) + Servers(options[length..])
  {
  }

  // ----- truncation -------------------------------------------------------------------

  lemma PrefixedAlike<T>(head: seq<T>, a: seq<T>, b: seq<T>)
    requires a <= b
    ensures head + a <= head + b
  {
  }

  /** Options cut anywhere name a prefix of what the whole ones name. */
  lemma {:induction false} CutOptions(options: seq<Byte>, n: nat)
    requires n <= |options|
    ensures Servers(options[..n]) <= Servers(options)
    decreases |options|
  {
    hide ServersIn;
    var cut := options[..n];
    var length := OptionLength(cut);
    if length > 0 {
      assert OptionLength(options) == length;
      var rest := options[length..];
      assert cut[..length] == options[..length];
      assert cut[length..] == rest[..n - length];
      CutOptions(rest, n - length);
      PrefixedAlike(ServersIn(options[..length]), Servers(rest[..n - length]), Servers(rest));
    }
  }

  lemma Truncation(packet: seq<Byte>, n: nat)
    requires n <= |packet|
    ensures NamedServers(packet[..n]) <= NamedServers(packet)
  {
    if n >= 16 {
      assert packet[..n][16..] == packet[16..][..n - 16];
      CutOptions(packet[16..], n - 16);
    }
  }

  // ----- round trip ---------------------------------------------------------------------

  datatype RdnssOption = RdnssOption(servers: seq<Address>, lifetime: Word32)

  function Octets(servers: seq<Address>): (o: seq<Byte>)
    ensures |o| == 16 * |servers|
  {
    if servers == [] then [] else servers[0] + Octets(servers[1..])
  }

  predicate Encodable(o: RdnssOption) {
    1 <= |o.servers| <= 127
  }

  function EncodeRdnss(o: RdnssOption): (e: seq<Byte>)
    requires Encodable(o)
    ensures |e| == 8 + 16 * |o.servers|
  {
    [RDNSS, 1 + 2 * |o.servers|, 0, 0] + BigEndian32(o.lifetime) + Octets(o.servers)
  }

  function EncodeAll(options: seq<RdnssOption>): seq<Byte>
    requires forall i :: 0 <= i < |options| ==> Encodable(options[i])
  {
    if options == [] then [] else EncodeRdnss(options[0]) + EncodeAll(options[1..])
  }

  function Announced(servers: seq<Address>, lifetime: Word32): seq<(Address, Word32)> {
    if servers == [] then [] else [(servers[0], lifetime)] + Announced(servers[1..], lifetime)
  }

  function AllAnnounced(options: seq<RdnssOption>): seq<(Address, Word32)> {
    if options == [] then [] else Announced(options[0].servers, options[0].lifetime) + AllAnnounced(options[1..])
  }

  lemma {:induction false} ChunksOfOctets(servers: seq<Address>, lifetime: Word32)
    ensures Chunks(Octets(servers), lifetime) == Announced(servers, lifetime)
  {
    if servers != [] {
      assert Octets(servers)[..16] == servers[0] && Octets(servers)[16..] == Octets(servers[1..]);
      ChunksOfOctets(servers[1..], lifetime);
    }
  }

  /** A whole option is read and skipped, whatever follows. */
  lemma FirstOption(option: seq<Byte>, rest: seq<Byte>)
    requires |option| >= 8 && (option[1] as int) * 8 == |option|
    ensures Servers(option + rest) == ServersIn(option) + Servers(rest)
  {
    assert (option + rest)[..|option|] == option && (option + rest)[|option|..] == rest;
  }

  lemma {:induction false} ChunksMeaning(body: seq<Byte>, lifetime: Word32)
    ensures |Chunks(body, lifetime)| == |body| / 16
    ensures forall i :: 0 <= i < |body| / 16 ==> Chunks(body, lifetime)[i] == (body[16 * i..16 * i + 16], lifetime)
    decreases |body|
  {
    if |body| >= 16 {
      ChunksMeaning(body[16..], lifetime);
      forall i | 0 <= i < |body| / 16
        ensures Chunks(body, lifetime)[i] == (body[16 * i..16 * i + 16], lifetime)
      {
        if i > 0 { assert body[16..][16 * (i - 1)..16 * (i - 1) + 16] == body[16 * i..16 * i + 16]; }
      }
    }
  }

  /** Octets five to eight, most significant first. */
  function Lifetime(option: seq<Byte>): Word32
    requires |option| >= 8
  {
    (((option[4] as int) * 256 + option[5] as int) * 256 + option[6] as int) * 256 + option[7] as int
  }

  lemma OptionServers(option: seq<Byte>)
    requires |option| >= 8 && |option| % 8 == 0
    ensures option[0] != 25 ==> ServersIn(option) == []
    ensures option[0] == 25 ==>
      && |ServersIn(option)| == (|option| - 8) / 16
      && forall i :: 0 <= i < (|option| - 8) / 16 ==>
           ServersIn(option)[i] == (option[16 * i + 8..16 * i + 24], Lifetime(option))
  {
    if option[0] == 25 {
      assert FromBigEndian32(option[4..8]) == Lifetime(option);
      hide FromBigEndian32, Lifetime;
      ChunksMeaning(option[8..], Lifetime(option));
      forall i | 0 <= i < (|option| - 8) / 16
        ensures option[8..][16 * i..16 * i + 16] == option[16 * i + 8..16 * i + 24]
      {
      }
    }
  }

  /** A whole option names servers if its type is 25 and none otherwise; each
      sixteen octets from the ninth are one, all with the lifetime of the fifth
      to the eighth, most significant first. */
  lemma OptionMeaning(option: seq<Byte>, rest: seq<Byte>)
    requires |option| >= 8 && (option[1] as int) * 8 == |option|
    ensures option[0] != 25 ==> Servers(option + rest) == Servers(rest)
    ensures option[0] == 25 ==>
      var n := (|option| - 8) / 16;
      var servers := Servers(option + rest);
      && |servers| == n + |Servers(rest)| && servers[n..] == Servers(rest)
      && forall i :: 0 <= i < n ==> servers[i] == (option[16 * i + 8..16 * i + 24], Lifetime(option))
  {
    hide Servers, ServersIn, Lifetime;
    FirstOption(option, rest);
    OptionServers(option);
  }

  /** Where no whole option is left nothing more is named. */
  lemma CutOptionEnds(options: seq<Byte>)
    ensures |options| < 8 || options[1] == 0 || (options[1] as int) * 8 > |options| ==> Servers(options) == []
  {
  }

  /** Any other message names no server. */
  lemma OtherMessages(packet: seq<Byte>)
    ensures NamedServers(packet) == if |packet| >= 16 && packet[0] == 134 then Servers(packet[16..]) else []
  {
  }

  lemma EncodedServers(o: RdnssOption)
    requires Encodable(o)
    ensures ServersIn(EncodeRdnss(o)) == Announced(o.servers, o.lifetime)
  {
    var e := EncodeRdnss(o);
    assert e[8..] == Octets(o.servers) && e[4..8] == BigEndian32(o.lifetime);
    BigEndian32RoundTrip(o.lifetime);
    ChunksOfOctets(o.servers, o.lifetime);
  }

  lemma {:induction false} PrefixOptionsNameNone(prefixes: seq<Address>, valid: Word32, preferred: Word32,
      rest: seq<Byte>)
    ensures Servers(PrefixOptions(prefixes, valid, preferred) + rest) == Servers(rest)
    decreases |prefixes|
  {
    if prefixes == [] {
      assert PrefixOptions(prefixes, valid, preferred) + rest == rest;
    } else {
      var front, last := PrefixOptions(prefixes[..|prefixes| - 1], valid, preferred),
          PrefixOption(prefixes[|prefixes| - 1], valid, preferred);
      assert PrefixOptions(prefixes, valid, preferred) + rest == front + (last + rest);
      PrefixOptionsNameNone(prefixes[..|prefixes| - 1], valid, preferred, last + rest);
      FirstOption(last, rest);
    }
  }

  lemma {:induction false} EncodedAll(options: seq<RdnssOption>)
    requires forall i :: 0 <= i < |options| ==> Encodable(options[i])
    ensures Servers(EncodeAll(options)) == AllAnnounced(options)
  {
    if options != [] {
      FirstOption(EncodeRdnss(options[0]), EncodeAll(options[1..]));
      EncodedServers(options[0]);
      EncodedAll(options[1..]);
    }
  }

  lemma AfterHeader(header: seq<Byte>, a: seq<Byte>, b: seq<Byte>, c: seq<Byte>)
    requires |header| == 16
    ensures (header + a + b + c)[16..] == a + (b + c) && (header + a + b + c)[0] == header[0]
  {
  }

  lemma MacOptionNamesNone(mac: Option<Mac>, rest: seq<Byte>)
    ensures Servers(MacOption(mac) + rest) == Servers(rest)
  {
    hide Servers, Chunks;
    if mac.Some? {
      FirstOption(MacOption(mac), rest);
    } else {
      assert MacOption(mac) + rest == rest;
    }
  }

  lemma OptionsRoundTrip(mac: Option<Mac>, prefixes: seq<Address>, valid: Word32, preferred: Word32,
      options: seq<RdnssOption>)
    requires forall i :: 0 <= i < |options| ==> Encodable(options[i])
    ensures Servers(MacOption(mac) + (PrefixOptions(prefixes, valid, preferred) + EncodeAll(options)))
        == AllAnnounced(options)
  {
    hide PrefixOptions, EncodeAll, AllAnnounced, Servers, MacOption;
    MacOptionNamesNone(mac, PrefixOptions(prefixes, valid, preferred) + EncodeAll(options));
    PrefixOptionsNameNone(prefixes, valid, preferred, EncodeAll(options));
    EncodedAll(options);
  }

  /** Whatever else an advertisement carries, the RDNSS options behind it are
      read back server by server, in order. */
  lemma RoundTrip(prefixes: seq<Address>, managed: bool, mac: Option<Mac>, withdraw: bool, options: seq<RdnssOption>)
    requires forall i :: 0 <= i < |options| ==> Encodable(options[i])
    ensures NamedServers(Advertisement(prefixes, managed, mac, withdraw) + EncodeAll(options)) == AllAnnounced(options)
  {
    var (valid, preferred) := Lifetimes(withdraw);
    OptionsRoundTrip(mac, prefixes, valid, preferred, options);
    AfterHeader(Header(managed, withdraw), MacOption(mac), PrefixOptions(prefixes, valid, preferred),
      EncodeAll(options));
    HeaderStarts(managed, withdraw);
    hide Header, MacOption, Servers, PrefixOptions, EncodeAll, AllAnnounced, Lifetimes;
  }

  lemma HeaderStarts(managed: bool, withdraw: bool)
    ensures Header(managed, withdraw)[0] == ROUTER_ADVERT
  {
  }

  // ----- what a host reads of it ----------------------------------------------------------

  datatype PrefixInformation = PrefixInformation(prefix: Address, length: Byte, onLink: bool, autonomous: bool,
    valid: Word32, preferred: Word32)

  /** The prefix information options a receiver finds (section 4.6.2 of RFC 4861). */
  function Prefixes(options: seq<Byte>): seq<PrefixInformation>
    decreases |options|
  {
    var length := OptionLength(options);
    if length == 0 then []
    else (if options[0] == 3 && length == 32 then [ReadPrefix(options[..32])] else []) + Prefixes(options[length..])
  }

  function ReadPrefix(o: seq<Byte>): PrefixInformation
    requires |o| == 32
  {
    PrefixInformation(o[16..32], o[2], o[3] / 0x80 == 1, o[3] / 0x40 % 2 == 1, FromBigEndian32(o[4..8]),
      FromBigEndian32(o[8..12]))
  }

  function Offered(prefixes: seq<Address>, valid: Word32, preferred: Word32): seq<PrefixInformation> {
    seq(|prefixes|, i requires 0 <= i < |prefixes| => PrefixInformation(prefixes[i], 64, true, true, valid, preferred))
  }

  lemma FirstPrefix(option: seq<Byte>, rest: seq<Byte>)
    requires |option| >= 8 && (option[1] as int) * 8 == |option|
    ensures Prefixes(option + rest) == (if option[0] == 3 && |option| == 32 then [ReadPrefix(option)] else [])
        + Prefixes(rest)
  {
    assert (option + rest)[..|option|] == option && (option + rest)[|option|..] == rest;
  }

  lemma PrefixOptionReads(prefix: Address, valid: Word32, preferred: Word32)
    ensures ReadPrefix(PrefixOption(prefix, valid, preferred))
        == PrefixInformation(prefix, 64, true, true, valid, preferred)
  {
    var o := PrefixOption(prefix, valid, preferred);
    assert o[4..8] == BigEndian32(valid) && o[8..12] == BigEndian32(preferred) && o[16..32] == prefix;
    BigEndian32RoundTrip(valid);
    BigEndian32RoundTrip(preferred);
  }

  lemma {:induction false} PrefixOptionsRead(prefixes: seq<Address>, valid: Word32, preferred: Word32, rest: seq<Byte>)
    ensures Prefixes(PrefixOptions(prefixes, valid, preferred) + rest) == Offered(prefixes, valid, preferred)
        + Prefixes(rest)
    decreases |prefixes|
  {
    hide ReadPrefix, PrefixOption, BigEndian32;
    if prefixes == [] {
      assert PrefixOptions(prefixes, valid, preferred) + rest == rest;
    } else {
      var n := |prefixes| - 1;
      var front, last := PrefixOptions(prefixes[..n], valid, preferred), PrefixOption(prefixes[n], valid, preferred);
      assert PrefixOptions(prefixes, valid, preferred) + rest == front + (last + rest);
      PrefixOptionsRead(prefixes[..n], valid, preferred, last + rest);
      FirstPrefix(last, rest);
      PrefixOptionReads(prefixes[n], valid, preferred);
      OneMoreOffered(prefixes, valid, preferred);
      assert Offered(prefixes, valid, preferred) + Prefixes(rest)
          == Offered(prefixes[..n], valid, preferred)
            + ([PrefixInformation(prefixes[n], 64, true, true, valid, preferred)] + Prefixes(rest));
    }
  }

  lemma OneMoreOffered(prefixes: seq<Address>, valid: Word32, preferred: Word32)
    requires prefixes != []
    ensures var n := |prefixes| - 1;
      Offered(prefixes, valid, preferred) ==
      Offered(prefixes[..n], valid, preferred) + [PrefixInformation(prefixes[n], 64, true, true, valid, preferred)]
  {
  }

  /** A receiver reads back every prefix, in order and on link, with the
      lifetimes meant; withdrawing sets them and the router's to zero. */
  lemma AdvertisementReads(prefixes: seq<Address>, managed: bool, mac: Option<Mac>, withdraw: bool)
    ensures var packet := Advertisement(prefixes, managed, mac, withdraw);
      && IsAdvertisement(packet)
      && packet[4] == 64 && packet[5] == (if managed then 0x80 else 0)
      && (packet[6] as int) * 0x100 + packet[7] as int == (if withdraw then 0 else 1800)
      && (mac.Some? ==> |packet| >= 24 && packet[16..24] == [1, 1] + mac.value)
      && Prefixes(packet[16..]) == Offered(prefixes, if withdraw then 0 else 3600, if withdraw then 0 else 1800)
  {
    hide BigEndian32, Prefixes, PrefixOptions;
    var (valid, preferred) := Lifetimes(withdraw);
    var packet, prefixed := Advertisement(prefixes, managed, mac, withdraw), PrefixOptions(prefixes, valid, preferred);
    assert packet[16..] == MacOption(mac) + prefixed;
    assert mac.Some? ==> packet[16..24] == MacOption(mac);
    assert Prefixes(MacOption(mac) + prefixed) == Prefixes(prefixed) by {
      if mac.Some? { FirstPrefix(MacOption(mac), prefixed); } else { assert MacOption(mac) + prefixed == prefixed; }
    }
    PrefixOptionsRead(prefixes, valid, preferred, []);
    assert prefixed + [] == prefixed;
    NoPrefixes();
  }

  lemma NoPrefixes()
    ensures Prefixes([]) == []
  {
  }
}
