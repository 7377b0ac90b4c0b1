/** The packets that the client puts its messages into: they verify at every receiver,
    and some of them are sent with a zero check field. */
module Transmissions {
  import opened Bytes
  import opened Checksum
  import opened RawUdp
  import opened Messages
  import opened Builder
  import opened ClientMachine
  import ClientRuns

  const INADDR_ANY: u32 := 0

  /** Headers with which a message passes both checks of a receiver. */
  predicate Verifies(ip: seq<byte>, udp: seq<byte>, message: seq<byte>)
  {
    && |ip| == IP_HEADER && |udp| == UDP_HEADER
    && Rfc1071(ip) == 0xFFFF
    && Rfc1071(PseudoHeader(ip, udp) + udp + message) == 0xFFFF
  }

  /** DhcpClient::sendMessage, with the headers that go out in front of the message. */
  method SendMessage(host: ByteOrder, message: seq<byte>) returns (ip: seq<byte>, udp: seq<byte>)
    requires |message| <= CAPACITY && |message| % 2 == 0
    ensures Verifies(ip, udp, message)
    ensures Load16(host, [udp[6], udp[7]]) == Check(host, message)
  {
    hide Rfc1071, Load16, Store16, Store32, Finish, Sum, Covered, CoveredBefore;
    ip, udp := SendRawUdp(host, INADDR_ANY, PORT_BOOTP_CLIENT, INADDR_BROADCAST, PORT_BOOTP_SERVER, message);
    CoveredIs(host, message);
    LoadStore16(host, Check(host, message));
    assert udp[6..] == [udp[6], udp[7]];
  }

  /** What the checksum of a client's message of n bytes covers in front of it: from
      0.0.0.0 to 255.255.255.255, UDP, and from port 68 to port 67. */
  function CoveredBefore(n: nat): (r: seq<byte>)
    requires n <= CAPACITY
    ensures |r| == 20
  {
    var len := Store16(Big, 8 + n);
    [0, 0, 0, 0, 255, 255, 255, 255, 0, IPPROTO_UDP] + len + [0, 68, 0, 67] + len + [0, 0]
  }

  /** The number that sendRawUdp stores in the check field of a client's message. */
  function Check(host: ByteOrder, message: seq<byte>): u16
    requires |message| <= CAPACITY
  {
    Finish(Sum(host, CoveredBefore(|message|) + message, 0))
  }

  lemma CoveredIs(host: ByteOrder, message: seq<byte>)
    requires |message| <= CAPACITY
    ensures Covered(host, INADDR_ANY, PORT_BOOTP_CLIENT, INADDR_BROADCAST, PORT_BOOTP_SERVER, message)
            == CoveredBefore(|message|) + message
  {
    assert Store32(host, INADDR_ANY) == [0, 0, 0, 0] && Store32(host, INADDR_BROADCAST) == [255, 255, 255, 255];
    assert Store16(Big, PORT_BOOTP_CLIENT) == [0, 68] && Store16(Big, PORT_BOOTP_SERVER) == [0, 67];
  }

  // ----- Every message has even length -----

  lemma DiscoverSize(host: ByteOrder, h: Header)
    ensures |Encode(host, h, DiscoverOptions())| == 254
  {
    hide HeaderBytes;
    WireSizeStep(DiscoverOptions());
    WireSizeStep(DiscoverOptions()[1..]);
  }

  lemma RequestSize(host: ByteOrder, h: Header, requestAddress: u32, server: u32)
    ensures |Encode(host, h, RequestOptions(host, requestAddress, server))| == 266
  {
    hide HeaderBytes, Store32;
    var opts := RequestOptions(host, requestAddress, server);
    WireSizeStep(opts);
    WireSizeStep(opts[1..]);
    WireSizeStep(opts[2..]);
    WireSizeStep(opts[3..]);
    assert opts[1..][1..] == opts[2..] && opts[2..][1..] == opts[3..] && opts[3..][1..] == [];
  }

  lemma WireSizeStep(opts: seq<Opt>)
    requires opts != []
    ensures |Wire(opts)| == 2 + |opts[0].data| + |Wire(opts[1..])|
    ensures |opts| == 1 ==> Wire(opts[1..]) == []
  {
  }

  /** Whatever state it is in, a client sends 254 or 266 bytes, so the treatment of a last
      odd byte never matters. */
  lemma TransmissionIsEven(host: ByteOrder, mac: Mac, c: Client, r: Readings, xid: u32)
    ensures forall m | m in Transmission(host, mac, c, Sends(c, r), xid) :: |m| == 254 || |m| == 266
    ensures forall m | m in Transmission(host, mac, c, Sends(c, r), xid) :: OddByteSafe(host, m)
  {
    hide Encode, ClientHeader, DiscoverOptions, RequestOptions, Sends;
    var h := ClientHeader(host, xid, mac);
    DiscoverSize(host, h);
    match Sends(c, r)
    case Request(destination) => RequestSize(host, h, c.requestAddress, destination);
    case Nothing =>
    case Discover =>
  }

  // ----- A check field of zero -----

  /** The parts of a message before and after the first half of its transaction id. */
  lemma AroundXid(host: ByteOrder, h: Header, opts: seq<Opt>, w: u16) returns (b: seq<byte>)
    requires h.xid == Load32(host, Store16(host, w) + [0, 0])
    ensures Encode(host, h, opts) == [h.op, HTYPE_ETHER, ETH_ALEN, 0] + Store16(host, w) + b
    ensures b == [0, 0] + Encode(host, h.(xid := 0), opts)[8..]
  {
    hide Store16, Store32, Load32;
    var word := Store16(host, w) + [0, 0];
    StoreLoad32(host, word);
    var m, m0 := Encode(host, h, opts), Encode(host, h.(xid := 0), opts);
    b := [0, 0] + m0[8..];
    var bytes, bytes0 := HeaderBytes(host, h), HeaderBytes(host, h.(xid := 0));
    assert bytes[4..8] == word;
    assert bytes[8..] == bytes0[8..];
    assert bytes[..4] == [h.op, HTYPE_ETHER, ETH_ALEN, 0];
    assert bytes == bytes[..4] + bytes[4..8] + bytes[8..];
    assert m[8..] == m0[8..];
  }

  /** The number of a message with a given transaction id. */
  lemma EveryIdIsUsed(host: ByteOrder, xid: u32) returns (n: nat)
    ensures n < 0x1_0000_0000 && CounterXid(host)(n) == xid
  {
    hide Htonl, Ntohl;
    HostNetwork32(host, xid);
    var number: int := Ntohl(host, xid);
    n := if number == 0 then 0xFFFF_FFFF else number - 1;
    assert Wrap32(1 + n) == number;
  }

  /** RFC 768 reserves a zero check field for packets without a checksum. Among the first
      2^32 messages with any header and options of a client there is one that is sent
      with it. */
  lemma ZeroCheckOccurs(host: ByteOrder, mac: Mac, opts: seq<Opt>) returns (n: nat)
    requires |Wire(opts)| % 2 == 1 && OPTIONS + 5 + |Wire(opts)| <= CAPACITY
    ensures n < 0x1_0000_0000
    ensures Check(host, Encode(host, ClientHeader(host, CounterXid(host)(n), mac), opts)) == 0
  {
    hide Store16, Store32, Load32, Finish, Sum, CoveredBefore, HeaderBytes, Htons, CounterXid, Encode;
    var blank := Encode(host, ClientHeader(host, 0, mac), opts);
    EncodeSize(host, ClientHeader(host, 0, mac), opts);
    var a := CoveredBefore(|blank|) + [OP_BOOTREQUEST, HTYPE_ETHER, ETH_ALEN, 0];
    var w := Finish(Sum(host, a + [0, 0] + ([0, 0] + blank[8..]), 0));
    n := EveryIdIsUsed(host, Load32(host, Store16(host, w) + [0, 0]));
    var h := ClientHeader(host, CounterXid(host)(n), mac);
    var m := Encode(host, h, opts);
    EncodeSize(host, h, opts);
    var b := AroundXid(host, h, opts, w);
    assert CoveredBefore(|m|) + m == a + Store16(host, w) + b;
    CompletesToZero(host, a, b, CoveredBefore(|m|) + m);
    OnlyZero(host, Check(host, m));
  }

  lemma OnlyZero(host: ByteOrder, x: u16)
    requires Store16(host, x) == [0, 0]
    ensures x == 0
  {
    LoadStore16(host, x);
  }

  /** So a client that hears nothing for long enough sends such a packet. */
  lemma ZeroCheckIsSent(host: ByteOrder, mac: Mac, c: Client) returns (es: seq<Event>)
    requires Starts(c)
    ensures forall e | e in es :: ClientRuns.Plausible(e)
    ensures var c' := ClientRuns.Run(host, CounterXid(host), c, es).c;
            && c'.waiting.None? && c'.sent < 0x1_0000_0000
            && var out := Transmission(host, mac, c', Sends(c', CALM), CounterXid(host)(c'.sent));
            |out| == 1 && |out[0]| == 254 && Check(host, out[0]) == 0
  {
    hide CounterXid, Encode, ClientHeader, DiscoverOptions, Check;
    DiscoverSize(host, ClientHeader(host, 0, mac));
    EncodeSize(host, ClientHeader(host, 0, mac), DiscoverOptions());
    var n := ZeroCheckOccurs(host, mac, DiscoverOptions());
    es := ClientRuns.Unheard(n);
    ClientRuns.UnheardRun(host, CounterXid(host), c, n);
    DiscoverSize(host, ClientHeader(host, CounterXid(host)(n), mac));
  }
}
