/** What whoever receives them reads out of the messages that the factories of
    `common/message.cpp` build. */
module Factories {
  import opened Bytes
  import opened Messages
  import opened Builder
  import opened Configuration

  /** The parameters a client asks for: mask, gateway, DNS, broadcast address, lease time,
      T1, T2 and MTU. */
  const WANTED: seq<byte> := [1, 3, 6, 28, 51, 58, 59, 26]

  /** A message of a client: answered by broadcast, with nothing but its MAC in the header. */
  ghost predicate FromClient(host: ByteOrder, p: Packet, xid: u32, mac: Mac)
  {
    && IsValidDhcpMessage(p, OP_BOOTREQUEST) && Xid(host, p) == xid && Chaddr(p) == mac
    && p.mem[10..12] == [0x80, 0] && Yiaddr(host, p) == 0 && Giaddr(host, p) == 0
    && GetOptionPayload(p, OPT_PARAMETER_LIST) == Some(WANTED)
  }

  lemma BroadcastFlag(host: ByteOrder, p: Packet)
    requires Flags(host, p) == Htons(host, FLAGS_BROADCAST)
    ensures p.mem[10..12] == [0x80, 0]
  {
    hide Load16, Store16;
    StoreLoad16(host, p.mem[10..12]);
    HostNetwork16(host, FLAGS_BROADCAST);
    BroadcastBytes();
  }

  lemma BroadcastBytes()
    ensures Store16(Big, FLAGS_BROADCAST) == [0x80, 0]
  {
  }

  lemma ClientMessageReads(host: ByteOrder, xid: u32, mac: Mac, opts: seq<Opt>, kind: byte, p: Packet)
    requires Received(p, Encode(host, ClientHeader(host, xid, mac), opts))
    requires |opts| > 1 && opts[0] == RawOpt.Opt(OPT_MESSAGE_TYPE, [kind])
    requires opts[1] == RawOpt.Opt(OPT_PARAMETER_LIST, REQUEST_PARAMETERS)
    ensures FromClient(host, p, xid, mac) && Type(p) == kind && Carries(p, opts, 4)
  {
    hide Encode, Xid, Chaddr, Yiaddr, Giaddr, Flags, IsValidDhcpMessage, Type, Htons;
    DecodesEncoded(host, ClientHeader(host, xid, mac), opts, p);
    BroadcastFlag(host, p);
    FirstAt(opts, OPT_MESSAGE_TYPE, 0);
    FirstAt(opts, OPT_PARAMETER_LIST, 1);
    TypeFrom(p, opts, kind);
    FindsPayload(p, opts, OPT_PARAMETER_LIST);
  }

  lemma DiscoverReads(host: ByteOrder, xid: u32, mac: Mac, p: Packet)
    requires Received(p, Encode(host, ClientHeader(host, xid, mac), DiscoverOptions()))
    ensures FromClient(host, p, xid, mac) && Type(p) == DHCPDISCOVER
    ensures GetOptionPayload(p, OPT_REQUESTED_IP) == None && GetOptionPayload(p, OPT_SERVER_ID) == None
  {
    hide Encode, ClientHeader, FromClient, Type, GetOptionPayload;
    var opts := DiscoverOptions();
    ClientMessageReads(host, xid, mac, opts, DHCPDISCOVER, p);
    FirstNone(opts, OPT_REQUESTED_IP);
    FirstNone(opts, OPT_SERVER_ID);
    FindsPayload(p, opts, OPT_REQUESTED_IP);
    FindsPayload(p, opts, OPT_SERVER_ID);
  }

  lemma RequestReads(host: ByteOrder, xid: u32, mac: Mac, requestAddress: u32, server: u32, p: Packet)
    requires Received(p, Encode(host, ClientHeader(host, xid, mac), RequestOptions(host, requestAddress, server)))
    ensures FromClient(host, p, xid, mac) && Type(p) == DHCPREQUEST
    ensures RequestedIp(host, p) == requestAddress && ServerId(host, p) == server
  {
    hide Encode, ClientHeader, FromClient, Store32, Type, Address;
    var opts := RequestOptions(host, requestAddress, server);
    ClientMessageReads(host, xid, mac, opts, DHCPREQUEST, p);
    FirstAt(opts, OPT_REQUESTED_IP, 2);
    FirstAt(opts, OPT_SERVER_ID, 3);
    AddressFrom(host, p, opts, OPT_REQUESTED_IP, requestAddress);
    AddressFrom(host, p, opts, OPT_SERVER_ID, server);
  }

  /** A reply to `source`: the header of a BOOTREPLY with the id, flags, relay and MAC of
      the message it answers. */
  ghost predicate Answers(host: ByteOrder, source: Packet, q: Packet, address: u32)
  {
    && IsValidDhcpMessage(q, OP_BOOTREPLY) && Yiaddr(host, q) == address
    && Xid(host, q) == Xid(host, source) && Flags(host, q) == Flags(host, source)
    && Giaddr(host, q) == Giaddr(host, source) && Chaddr(q) == Chaddr(source)
  }

  lemma ReplyReads(host: ByteOrder, source: Packet, address: u32, opts: seq<Opt>, kind: byte, q: Packet)
    requires Received(q, Encode(host, ReplyHeader(host, source, address), opts))
    requires opts != [] && opts[0] == RawOpt.Opt(OPT_MESSAGE_TYPE, [kind])
    ensures Answers(host, source, q, address) && Type(q) == kind && Carries(q, opts, 4)
  {
    hide Encode, Xid, Chaddr, Yiaddr, Giaddr, Flags, IsValidDhcpMessage, Type;
    DecodesEncoded(host, ReplyHeader(host, source, address), opts, q);
    FirstAt(opts, OPT_MESSAGE_TYPE, 0);
    TypeFrom(q, opts, kind);
  }

  lemma NackReads(host: ByteOrder, source: Packet, server: u32, q: Packet)
    requires Received(q, Encode(host, ReplyHeader(host, source, 0), NackOptions(host, server)))
    ensures Answers(host, source, q, 0) && Type(q) == DHCPNAK && ServerId(host, q) == server
  {
    hide Encode, ReplyHeader, Answers, Store32, Type, Address;
    var opts := NackOptions(host, server);
    ReplyReads(host, source, 0, opts, DHCPNAK, q);
    FirstAt(opts, OPT_SERVER_ID, 1);
    AddressFrom(host, q, opts, OPT_SERVER_ID, server);
  }

  /** Some addresses, one after the other, as they are in memory. */
  ghost predicate Lists(host: ByteOrder, data: seq<byte>, addresses: seq<u32>)
  {
    |data| == 4 * |addresses|
    && forall k: nat | k < |addresses| :: WordAt(host, data, 4 * k) == addresses[k]
  }

  /** The settings in an offer or an acknowledgement, as getOption finds them. */
  ghost predicate Settings(host: ByteOrder, q: Packet, server: u32, netmask: u32, gateway: u32, dns: seq<u32>)
  {
    && ServerId(host, q) == server
    && GetOptionPayload(q, OPT_SUBNET_MASK) == Some(Store32(host, netmask))
    && GetOptionPayload(q, OPT_GATEWAY) == Some(Store32(host, gateway))
    && GetOptionPayload(q, OPT_LEASE_TIME) == Some(Store32(host, DEFAULT_LEASE_TIME))
    && GetOptionPayload(q, OPT_DNS).Some? && Lists(host, GetOptionPayload(q, OPT_DNS).value, dns)
  }

  lemma GrantReads(host: ByteOrder, source: Packet, kind: byte, address: u32, t: Terms, q: Packet)
    requires |t.dns| <= 4
    requires Received(q, Encode(host, ReplyHeader(host, source, address), GrantOptions(host, kind, t)))
    ensures Answers(host, source, q, address) && Type(q) == kind
    ensures Settings(host, q, t.server, t.netmask, t.gateway, t.dns)
  {
    hide Encode, ReplyHeader, Answers, Store32, Type, Address, GetOptionPayload, DnsPayload;
    var opts := GrantOptions(host, kind, t);
    ReplyReads(host, source, address, opts, kind, q);
    FirstAt(opts, OPT_SERVER_ID, 1);
    FirstAt(opts, OPT_LEASE_TIME, 2);
    FirstAt(opts, OPT_SUBNET_MASK, 3);
    FirstAt(opts, OPT_GATEWAY, 4);
    FirstAt(opts, OPT_DNS, 5);
    FindsPayload(q, opts, OPT_LEASE_TIME);
    FindsPayload(q, opts, OPT_SUBNET_MASK);
    FindsPayload(q, opts, OPT_GATEWAY);
    FindsPayload(q, opts, OPT_DNS);
    AddressFrom(host, q, opts, OPT_SERVER_ID, t.server);
    forall k: nat | k < |t.dns|
      ensures WordAt(host, Words(host, t.dns), 4 * k) == t.dns[k]
    {
      WordsAt(host, t.dns, k);
    }
  }
}
