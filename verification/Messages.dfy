/** The DHCP message of `common/message.cpp`: its layout, its option list, the
    accessors that read it, and the bytes that the builder in Builder.dfy leaves behind.
 */
module Messages {
  import opened Bytes

  const OPTIONS: nat := 236    // offset of the options field
  const CAPACITY: nat := 1260  // sizeof(Dhcp)
  const MEMORY: nat := 1264    // the struct and the four bytes that follow it in the object

  const OP_BOOTREQUEST: byte := 1
  const OP_BOOTREPLY: byte := 2
  const HTYPE_ETHER: byte := 1
  const ETH_ALEN: byte := 6
  const FLAGS_BROADCAST: u16 := 0x8000

  const COOKIE: seq<byte> := [0x63, 0x82, 0x53, 0x63]

  const OPT_PAD: byte := 0
  const OPT_SUBNET_MASK: byte := 1
  const OPT_GATEWAY: byte := 3
  const OPT_DNS: byte := 6
  const OPT_MTU: byte := 26
  const OPT_BROADCAST_ADDR: byte := 28
  const OPT_REQUESTED_IP: byte := 50
  const OPT_LEASE_TIME: byte := 51
  const OPT_MESSAGE_TYPE: byte := 53
  const OPT_SERVER_ID: byte := 54
  const OPT_PARAMETER_LIST: byte := 55
  const OPT_T1: byte := 58
  const OPT_T2: byte := 59
  const OPT_END: byte := 255

  const DHCPDISCOVER: byte := 1
  const DHCPOFFER: byte := 2
  const DHCPREQUEST: byte := 3
  const DHCPACK: byte := 5
  const DHCPNAK: byte := 6

  const DEFAULT_LEASE_TIME: u32 := 600

  const REQUEST_PARAMETERS: seq<byte> :=
    [OPT_SUBNET_MASK, OPT_GATEWAY, OPT_DNS, OPT_BROADCAST_ADDR, OPT_LEASE_TIME, OPT_T1, OPT_T2, OPT_MTU]

  const PORT_BOOTP_SERVER: u16 := 67
  const PORT_BOOTP_CLIENT: u16 := 68

  type Mac = m: seq<byte> | |m| == 6 witness [0, 0, 0, 0, 0, 0]

  // ----- Reading -----

  /** A message object as a value: all of its memory, and the size it records. */
  datatype RawPacket = Packet(mem: seq<byte>, size: nat)

  type Packet = p: RawPacket | |p.mem| == MEMORY && p.size <= CAPACITY
    witness RawPacket.Packet(seq(MEMORY, _ => 0), 0)

  /** The receiver copies the bytes of a datagram to the front of a message object.
      What follows them in memory is left over from before. */
  ghost predicate Received(p: Packet, bytes: seq<byte>)
  {
    p.size == |bytes| && p.mem[..p.size] == bytes
  }

  /** A message object that holds the given bytes. */
  function Holding(bytes: seq<byte>): (p: Packet)
    requires |bytes| <= CAPACITY
    ensures Received(p, bytes)
  {
    var mem := bytes + seq(MEMORY - |bytes|, _ => 0);
    assert mem[..|bytes|] == bytes;
    RawPacket.Packet(mem, |bytes|)
  }

  function Op(p: Packet): byte { p.mem[0] }
  function Xid(host: ByteOrder, p: Packet): u32 { Load32(host, p.mem[4..8]) }
  function Flags(host: ByteOrder, p: Packet): u16 { Load16(host, p.mem[10..12]) }
  function Yiaddr(host: ByteOrder, p: Packet): u32 { Load32(host, p.mem[16..20]) }
  function Giaddr(host: ByteOrder, p: Packet): u32 { Load32(host, p.mem[24..28]) }
  function Chaddr(p: Packet): Mac { p.mem[28..34] }

  function OptionsSize(p: Packet): nat
  {
    if p.size <= OPTIONS then 0 else p.size - OPTIONS
  }

  predicate IsValidDhcpMessage(p: Packet, expectedOp: byte)
  {
    && OPTIONS + 4 <= p.size
    && p.mem[0] == expectedOp && p.mem[1] == HTYPE_ETHER && p.mem[2] == ETH_ALEN
    && p.mem[OPTIONS..OPTIONS + 4] == COOKIE
  }

  predicate IsValidReply(host: ByteOrder, p: Packet, expectedXid: u32)
  {
    IsValidDhcpMessage(p, OP_BOOTREPLY) && Xid(host, p) == expectedXid
  }

  /** What is accepted, byte by byte: at least the header and the cookie 99.130.83.99 of
      section 3 of RFC 2131, the operation, hardware type 1 and address length 6. */
  lemma ValidExactly(host: ByteOrder, p: Packet, op: byte, xid: u32)
    ensures IsValidDhcpMessage(p, op)
            <==> p.size >= 240 && p.mem[..3] == [op, 1, 6] && p.mem[236..240] == [99, 130, 83, 99]
    ensures IsValidReply(host, p, xid) <==> IsValidDhcpMessage(p, 2) && p.mem[4..8] == Store32(host, xid)
  {
    hide Load32, Store32;
    assert p.mem[..3] == [p.mem[0], p.mem[1], p.mem[2]];
    StoreLoad32(host, p.mem[4..8]);
    LoadStore32(host, xid);
  }

  /** A payload as getOption reports it: an offset into the options and a length
      that nobody has compared with the end of the message. */
  datatype Payload = Payload(at: nat, length: byte)

  function FindOption(p: Packet, expected: byte, i: nat): (r: Option<Payload>)
    ensures r.Some? ==> i + 2 <= r.value.at < OptionsSize(p)
    decreases OptionsSize(p) - i
  {
    if i + 2 >= OptionsSize(p) then None
    else
      var code, len := p.mem[OPTIONS + i], p.mem[OPTIONS + i + 1];
      if code == OPT_END then None
      else if code == expected then Some(Payload(i + 2, len))
      else FindOption(p, expected, i + 2 + len)
  }

  /** The loop of Message::getOption. */
  method GetOption(p: Packet, expected: byte) returns (r: Option<Payload>)
    ensures r == FindOption(p, expected, 4)
  {
    var i := 4;
    while i + 2 < OptionsSize(p)
      invariant FindOption(p, expected, 4) == FindOption(p, expected, i)
      decreases OptionsSize(p) - i
    {
      var code, len := p.mem[OPTIONS + i], p.mem[OPTIONS + i + 1];
      if code == OPT_END {
        return None;
      }
      if code == expected {
        return Some(Payload(i + 2, len));
      }
      i := i + 2 + len;
    }
    return None;
  }

  function Type(p: Packet): byte
  {
    match FindOption(p, OPT_MESSAGE_TYPE, 4)
    case Some(o) => if o.length == 1 then p.mem[OPTIONS + o.at] else 0
    case None => 0
  }

  /** The four bytes at the payload of an option of length four, otherwise zero. */
  function Address(host: ByteOrder, p: Packet, code: byte): u32
  {
    match FindOption(p, code, 4)
    case Some(o) => if o.length == 4 then Load32(host, p.mem[OPTIONS + o.at..OPTIONS + o.at + 4]) else 0
    case None => 0
  }

  function ServerId(host: ByteOrder, p: Packet): u32 { Address(host, p, OPT_SERVER_ID) }
  function RequestedIp(host: ByteOrder, p: Packet): u32 { Address(host, p, OPT_REQUESTED_IP) }

  // ----- Reading past the end -----

  /** Two objects that hold the same message; what follows it in memory may differ. */
  ghost predicate SameMessage(p: Packet, q: Packet)
  {
    p.size == q.size && p.mem[..p.size] == q.mem[..q.size]
  }

  lemma SameSlice(p: Packet, q: Packet, i: nat, j: nat)
    requires SameMessage(p, q) && i <= j <= p.size
    ensures p.size == q.size && p.mem[i..j] == q.mem[i..j]
    ensures i < j ==> p.mem[i] == q.mem[i]
  {
    SubSlice(p.mem, 0, p.size, i, j);
    SubSlice(q.mem, 0, p.size, i, j);
    assert i < j ==> p.mem[i] == p.mem[i..j][0] && q.mem[i] == q.mem[i..j][0];
  }

  /** The search reads nothing beyond the message, only the payload may lie there. */
  lemma {:induction false} FindsInside(p: Packet, q: Packet, expected: byte, i: nat)
    requires SameMessage(p, q)
    ensures FindOption(p, expected, i) == FindOption(q, expected, i)
    decreases OptionsSize(p) - i
  {
    hide SameMessage;
    SameSlice(p, q, 0, 0);
    if i + 2 < OptionsSize(p) {
      SameSlice(p, q, OPTIONS + i, OPTIONS + i + 1);
      SameSlice(p, q, OPTIONS + i + 1, OPTIONS + i + 2);
      FindsInside(p, q, expected, i + 2 + p.mem[OPTIONS + i + 1]);
    }
  }

  /** An address option that ends after the message. */
  predicate AddressCut(p: Packet, code: byte)
  {
    match FindOption(p, code, 4)
    case Some(o) => o.length == 4 && o.at + 4 > OptionsSize(p)
    case None => false
  }

  /** The address accessors have no end check either. What they report depends on the
      bytes of the message alone exactly if the option does not end after the message;
      it can lie at most three bytes beyond. The type is always read inside. */
  lemma AddressInside(host: ByteOrder, p: Packet, code: byte)
    ensures (forall q: Packet | SameMessage(p, q) :: Address(host, q, code) == Address(host, p, code))
            <==> !AddressCut(p, code)
    ensures AddressCut(p, code) ==> FindOption(p, code, 4).value.at + 1 <= OptionsSize(p)
    ensures forall q: Packet | SameMessage(p, q) :: Type(q) == Type(p)
  {
    hide Load32, SameMessage;
    forall q: Packet | SameMessage(p, q)
      ensures !AddressCut(p, code) ==> Address(host, q, code) == Address(host, p, code)
      ensures Type(q) == Type(p)
    {
      FindsInside(p, q, code, 4);
      FindsInside(p, q, OPT_MESSAGE_TYPE, 4);
      var kind, address := FindOption(p, OPT_MESSAGE_TYPE, 4), FindOption(p, code, 4);
      if kind.Some? {
        SameSlice(p, q, OPTIONS + kind.value.at, OPTIONS + kind.value.at + 1);
      }
      if address.Some? && address.value.at + 4 <= OptionsSize(p) {
        SameSlice(p, q, OPTIONS + address.value.at, OPTIONS + address.value.at + 4);
      }
    }
    if AddressCut(p, code) {
      AddressVaries(host, p, code);
    }
  }

  lemma AddressVaries(host: ByteOrder, p: Packet, code: byte)
    requires AddressCut(p, code)
    ensures exists q: Packet :: SameMessage(p, q) && Address(host, q, code) != Address(host, p, code)
  {
    hide Load32, Store32;
    var at := OPTIONS + FindOption(p, code, 4).value.at;
    var q: Packet := RawPacket.Packet(p.mem[at + 3 := (p.mem[at + 3] as int + 1) % 0x100], p.size);
    assert SameMessage(p, q);
    FindsInside(p, q, code, 4);
    var a, b := p.mem[at..at + 4], q.mem[at..at + 4];
    assert a[3] != b[3];
    StoreLoad32(host, a);
    StoreLoad32(host, b);
  }

  // ----- Option lists -----

  datatype RawOpt = Opt(code: byte, data: seq<byte>)

  /** An option that the wire format can hold. */
  type Opt = o: RawOpt | o.code != OPT_END && |o.data| <= 0xFF witness RawOpt.Opt(0, [])

  function Tlv(o: Opt): seq<byte> { [o.code, |o.data|] + o.data }

  function Wire(opts: seq<Opt>): seq<byte>
  {
    if opts == [] then [] else Tlv(opts[0]) + Wire(opts[1..])
  }

  lemma {:induction false} WireConcat(a: seq<Opt>, b: seq<Opt>)
    ensures Wire(a + b) == Wire(a) + Wire(b)
  {
    if a == [] {
      assert a + b == b;
    } else {
      assert (a + b)[0] == a[0] && (a + b)[1..] == a[1..] + b;
      WireConcat(a[1..], b);
    }
  }

  lemma {:induction false} WireBound(opts: seq<Opt>)
    requires forall o | o in opts :: |o.data| <= 16
    ensures |Wire(opts)| <= 18 * |opts|
  {
    if opts != [] {
      WireBound(opts[1..]);
    }
  }

  /** The payload of the first option with a given code. */
  function First(opts: seq<Opt>, code: byte): Option<seq<byte>>
  {
    if opts == [] then None
    else if opts[0].code == code then Some(opts[0].data)
    else First(opts[1..], code)
  }

  lemma {:induction false} FirstAt(opts: seq<Opt>, code: byte, k: nat)
    requires k < |opts| && opts[k].code == code
    requires forall j | 0 <= j < k :: opts[j].code != code
    ensures First(opts, code) == Some(opts[k].data)
  {
    if k > 0 {
      FirstAt(opts[1..], code, k - 1);
    }
  }

  /** From index i of the options field on, the message holds exactly the options
      `opts` and an end marker. Anything may follow the end marker. */
  ghost predicate Carries(p: Packet, opts: seq<Opt>, i: nat)
  {
    && i + |Wire(opts)| < OptionsSize(p)
    && p.mem[OPTIONS + i..OPTIONS + i + |Wire(opts)|] == Wire(opts)
    && p.mem[OPTIONS + i + |Wire(opts)|] == OPT_END
  }

  /** The first of some options that are in memory, and the others behind it. */
  lemma WireStep(mem: seq<byte>, from: nat, opts: seq<Opt>)
    requires opts != [] && from + |Wire(opts)| <= |mem| && mem[from..from + |Wire(opts)|] == Wire(opts)
    ensures |Wire(opts)| == 2 + |opts[0].data| + |Wire(opts[1..])|
    ensures mem[from] == opts[0].code && mem[from + 1] == |opts[0].data|
    ensures mem[from + 2..from + 2 + |opts[0].data|] == opts[0].data
    ensures mem[from + 2 + |opts[0].data|..from + |Wire(opts)|] == Wire(opts[1..])
  {
    var o, rest, w := opts[0], opts[1..], Wire(opts);
    var n := |o.data|;
    var view := mem[from..from + |w|];
    assert view == Tlv(o) + Wire(rest);
    assert view[0] == o.code && view[1] == n;
    assert view[2..2 + n] == Tlv(o)[2..] == o.data;
    assert view[2 + n..] == Wire(rest);
    SubSlice(mem, from, from + |w|, 2, 2 + n);
    SubSlice(mem, from, from + |w|, 2 + n, |w|);
  }

  /** One step of either parser over a well-formed option. */
  lemma CarriesStep(p: Packet, opts: seq<Opt>, i: nat)
    requires opts != [] && Carries(p, opts, i)
    ensures p.mem[OPTIONS + i] == opts[0].code && p.mem[OPTIONS + i + 1] == |opts[0].data|
    ensures i + 2 + |opts[0].data| < OptionsSize(p)
    ensures p.mem[OPTIONS + i + 2..OPTIONS + i + 2 + |opts[0].data|] == opts[0].data
    ensures Carries(p, opts[1..], i + 2 + |opts[0].data|)
  {
    hide Tlv;
    WireStep(p.mem, OPTIONS + i, opts);
  }

  /** What getOption finds in a well-formed message: the first option with the code
      and nothing else; it returns null exactly when there is none. */
  lemma {:induction false} FindsFirst(p: Packet, opts: seq<Opt>, code: byte, i: nat)
    requires Carries(p, opts, i)
    ensures match First(opts, code)
            case None => FindOption(p, code, i) == None
            case Some(data) =>
              && FindOption(p, code, i).Some?
              && var o := FindOption(p, code, i).value;
              && o.length == |data| && o.at + |data| < OptionsSize(p)
              && p.mem[OPTIONS + o.at..OPTIONS + o.at + |data|] == data
    decreases |opts|
  {
    hide Carries, Tlv;
    if opts == [] {
      FindsEnd(p, code, i);
    } else {
      CarriesStep(p, opts, i);
      FindStep(p, opts, code, i);
      if opts[0].code != code {
        FindsFirst(p, opts[1..], code, i + 2 + |opts[0].data|);
      }
    }
  }

  lemma FindsEnd(p: Packet, code: byte, i: nat)
    requires Carries(p, [], i)
    ensures FindOption(p, code, i) == None
  {
  }

  lemma FindStep(p: Packet, opts: seq<Opt>, code: byte, i: nat)
    requires opts != [] && Carries(p, opts, i)
    ensures FindOption(p, code, i)
            == if opts[0].code == code then Some(Payload(i + 2, |opts[0].data|))
               else FindOption(p, code, i + 2 + |opts[0].data|)
  {
    hide Carries, Tlv;
    CarriesStep(p, opts, i);
  }

  /** What type and the address accessors report of a well-formed message: the payload of
      the first option with the code, or zero if there is none or its length is wrong. */
  lemma TypeIs(p: Packet, opts: seq<Opt>)
    requires Carries(p, opts, 4)
    ensures var data := First(opts, OPT_MESSAGE_TYPE);
            Type(p) == if data.Some? && |data.value| == 1 then data.value[0] else 0
  {
    hide Carries;
    FindsFirst(p, opts, OPT_MESSAGE_TYPE, 4);
  }

  lemma AddressIs(host: ByteOrder, p: Packet, opts: seq<Opt>, code: byte)
    requires Carries(p, opts, 4)
    ensures var data := First(opts, code);
            Address(host, p, code) == if data.Some? && |data.value| == 4 then Load32(host, data.value) else 0
  {
    hide Carries, Load32;
    FindsFirst(p, opts, code, 4);
  }

  lemma TypeFrom(p: Packet, opts: seq<Opt>, kind: byte)
    requires Carries(p, opts, 4) && First(opts, OPT_MESSAGE_TYPE) == Some([kind])
    ensures Type(p) == kind
  {
    hide Carries, Type;
    TypeIs(p, opts);
  }

  lemma AddressFrom(host: ByteOrder, p: Packet, opts: seq<Opt>, code: byte, x: u32)
    requires Carries(p, opts, 4) && First(opts, code) == Some(Store32(host, x))
    ensures Address(host, p, code) == x
  {
    hide Store32, Load32, Carries, Address;
    AddressIs(host, p, opts, code);
    LoadStore32(host, x);
  }

  // ----- Pads -----

  /** An option list as section 3.1 of RFC 2132 has it: code 0 is a single byte that
      fills up space. Both parsers take it for an option with a length byte. */
  datatype Item = Pad | Field(o: Opt)

  function RfcWire(items: seq<Item>): seq<byte>
  {
    if items == [] then []
    else (if items[0].Pad? then [OPT_PAD] else Tlv(items[0].o)) + RfcWire(items[1..])
  }

  /** The options that are meant. */
  function Meant(items: seq<Item>): seq<Opt>
  {
    if items == [] then []
    else (if items[0].Pad? then [] else [items[0].o]) + Meant(items[1..])
  }

  /** Every run of pads has even length. */
  predicate EvenPads(items: seq<Item>)
  {
    items == [] ||
    (if items[0].Field? then EvenPads(items[1..])
     else |items| > 1 && items[1].Pad? && EvenPads(items[2..]))
  }

  /** The options that the parsers see then: two pads are an empty option with code 0. */
  function Seen(items: seq<Item>): seq<Opt>
    requires EvenPads(items)
  {
    if items == [] then []
    else if items[0].Field? then [items[0].o] + Seen(items[1..])
    else [RawOpt.Opt(OPT_PAD, [])] + Seen(items[2..])
  }

  lemma {:induction false} SeenOnWire(items: seq<Item>)
    requires EvenPads(items)
    ensures RfcWire(items) == Wire(Seen(items))
  {
    if items != [] {
      if items[0].Field? {
        SeenOnWire(items[1..]);
        WireCons(items[0].o, Seen(items[1..]));
      } else {
        SeenOnWire(items[2..]);
        WireCons(RawOpt.Opt(OPT_PAD, []), Seen(items[2..]));
        assert items[1..][1..] == items[2..];
        assert RfcWire(items) == [OPT_PAD] + ([OPT_PAD] + RfcWire(items[2..]));
      }
    }
  }

  lemma WireCons(o: Opt, opts: seq<Opt>)
    ensures Wire([o] + opts) == Tlv(o) + Wire(opts)
  {
    assert ([o] + opts)[0] == o && ([o] + opts)[1..] == opts;
  }

  /** Neither parser is led astray: a search for any option finds what is meant. */
  lemma {:induction false} PadsAreHarmless(items: seq<Item>, code: byte)
    requires EvenPads(items) && code != OPT_PAD
    ensures First(Seen(items), code) == First(Meant(items), code)
  {
    if items != [] {
      if items[0].Field? {
        PadsAreHarmless(items[1..], code);
        FirstCons(items[0].o, Seen(items[1..]), code);
        FirstCons(items[0].o, Meant(items[1..]), code);
      } else {
        PadsAreHarmless(items[2..], code);
        FirstCons(RawOpt.Opt(OPT_PAD, []), Seen(items[2..]), code);
        MeantAfterPads(items);
      }
    }
  }

  lemma FirstCons(o: Opt, opts: seq<Opt>, code: byte)
    ensures First([o] + opts, code) == if o.code == code then Some(o.data) else First(opts, code)
  {
    assert ([o] + opts)[0] == o && ([o] + opts)[1..] == opts;
  }

  lemma MeantAfterPads(items: seq<Item>)
    requires |items| > 1 && items[0].Pad? && items[1].Pad?
    ensures Meant(items) == Meant(items[2..])
  {
    assert items[1..][1..] == items[2..];
    assert Meant(items) == [] + ([] + Meant(items[2..]));
  }

  /** A single pad hides what follows it: this message has no type. */
  lemma OddPadMisread(p: Packet)
    requires p.size == OPTIONS + 9
    requires p.mem[OPTIONS + 4..p.size] == RfcWire([Pad, Field(RawOpt.Opt(OPT_MESSAGE_TYPE, [DHCPACK]))]) + [OPT_END]
    ensures Type(p) == 0
  {
    var acknowledgement := Field(RawOpt.Opt(OPT_MESSAGE_TYPE, [DHCPACK]));
    assert [Pad, acknowledgement][1..] == [acknowledgement] && [acknowledgement][1..] == [];
    assert RfcWire([acknowledgement]) == Tlv(acknowledgement.o) + [];
    var view := p.mem[OPTIONS + 4..p.size];
    assert view == [OPT_PAD, OPT_MESSAGE_TYPE, 1, DHCPACK, OPT_END];
    assert p.mem[OPTIONS + 4] == view[0] && p.mem[OPTIONS + 5] == view[1];
    assert FindOption(p, OPT_MESSAGE_TYPE, 4 + 2 + OPT_MESSAGE_TYPE as int) == None;
  }

  // ----- Building -----

  /** The header fields that the factories set; all others stay zero. */
  datatype Header = Header(op: byte, xid: u32, flags: u16, yiaddr: u32, giaddr: u32, mac: Mac)

  function HeaderByte(host: ByteOrder, h: Header, k: nat): byte
  {
    if k == 0 then h.op
    else if k == 1 then HTYPE_ETHER
    else if k == 2 then ETH_ALEN
    else if 4 <= k < 8 then Store32(host, h.xid)[k - 4]
    else if 10 <= k < 12 then Store16(host, h.flags)[k - 10]
    else if 16 <= k < 20 then Store32(host, h.yiaddr)[k - 16]
    else if 24 <= k < 28 then Store32(host, h.giaddr)[k - 24]
    else if 28 <= k < 34 then h.mac[k - 28]
    else 0
  }

  function HeaderBytes(host: ByteOrder, h: Header): (b: seq<byte>)
    ensures |b| == OPTIONS
  {
    seq(OPTIONS, k requires 0 <= k < OPTIONS => HeaderByte(host, h, k))
  }

  /** The bytes put on the wire for a header and a list of options. */
  function Encode(host: ByteOrder, h: Header, opts: seq<Opt>): seq<byte>
  {
    HeaderBytes(host, h) + COOKIE + Wire(opts) + [OPT_END]
  }

  lemma EncodeSize(host: ByteOrder, h: Header, opts: seq<Opt>)
    ensures |Encode(host, h, opts)| == OPTIONS + 5 + |Wire(opts)|
  {
    hide HeaderBytes;
  }

  /** Whoever receives the bytes of Encode reads back the header and the options,
      whatever was in the receiving object before. */
  lemma DecodesEncoded(host: ByteOrder, h: Header, opts: seq<Opt>, p: Packet)
    requires Received(p, Encode(host, h, opts))
    ensures IsValidDhcpMessage(p, h.op)
    ensures forall op: byte :: op != h.op ==> !IsValidDhcpMessage(p, op)
    ensures Op(p) == h.op && Xid(host, p) == h.xid && Flags(host, p) == h.flags
    ensures Yiaddr(host, p) == h.yiaddr && Giaddr(host, p) == h.giaddr && Chaddr(p) == h.mac
    ensures Carries(p, opts, 4)
  {
    var bytes := Encode(host, h, opts);
    var w := Wire(opts);
    assert bytes[..OPTIONS] == HeaderBytes(host, h);
    assert bytes[OPTIONS..OPTIONS + 4] == COOKIE;
    assert bytes[OPTIONS + 4..OPTIONS + 4 + |w|] == w;
    assert bytes[OPTIONS + 4 + |w|] == OPT_END;
    ReadsHeader(host, h, p, bytes);
    Prefix(p, bytes, OPTIONS, OPTIONS + 4);
    Prefix(p, bytes, OPTIONS + 4, OPTIONS + 4 + |w|);
  }

  /** All other bytes of the header are zero: hops, seconds, the client's own address, the
      next server, the rest of the MAC field, and the two names. */
  lemma RestIsZero(host: ByteOrder, h: Header, opts: seq<Opt>, p: Packet)
    requires Received(p, Encode(host, h, opts))
    ensures forall k | k == 3 || 8 <= k < 10 || 12 <= k < 16 || 20 <= k < 24 || 34 <= k < 236 :: p.mem[k] == 0
  {
    hide Store16, Store32;
    var bytes := Encode(host, h, opts);
    Prefix(p, bytes, 0, OPTIONS);
    assert bytes[..OPTIONS] == HeaderBytes(host, h);
    assert forall k | 0 <= k < OPTIONS :: p.mem[k] == p.mem[..OPTIONS][k];
  }

  lemma Prefix(p: Packet, bytes: seq<byte>, i: nat, j: nat)
    requires Received(p, bytes) && i <= j <= |bytes|
    ensures p.mem[i..j] == bytes[i..j]
  {
    SubSlice(p.mem, 0, p.size, i, j);
  }

  lemma ReadsHeader(host: ByteOrder, h: Header, p: Packet, bytes: seq<byte>)
    requires Received(p, bytes) && |bytes| >= OPTIONS && bytes[..OPTIONS] == HeaderBytes(host, h)
    ensures p.mem[0] == h.op && p.mem[1] == HTYPE_ETHER && p.mem[2] == ETH_ALEN
    ensures Xid(host, p) == h.xid && Flags(host, p) == h.flags
    ensures Yiaddr(host, p) == h.yiaddr && Giaddr(host, p) == h.giaddr && Chaddr(p) == h.mac
  {
    hide Store16, Store32, Load16, Load32, Xid, Flags, Yiaddr, Giaddr;
    Prefix(p, bytes, 0, OPTIONS);
    var b := p.mem[..OPTIONS];
    assert b == HeaderBytes(host, h);
    assert p.mem[4..8] == b[4..8] == Store32(host, h.xid);
    assert p.mem[10..12] == b[10..12] == Store16(host, h.flags);
    assert p.mem[16..20] == b[16..20] == Store32(host, h.yiaddr);
    assert p.mem[24..28] == b[24..28] == Store32(host, h.giaddr);
    assert p.mem[28..34] == b[28..34] == h.mac;
    assert p.mem[0] == b[0] && p.mem[1] == b[1] && p.mem[2] == b[2];
    LoadsBack(host, h, p);
  }

  lemma LoadsBack(host: ByteOrder, h: Header, p: Packet)
    requires p.mem[4..8] == Store32(host, h.xid) && p.mem[10..12] == Store16(host, h.flags)
    requires p.mem[16..20] == Store32(host, h.yiaddr) && p.mem[24..28] == Store32(host, h.giaddr)
    ensures Xid(host, p) == h.xid && Flags(host, p) == h.flags
    ensures Yiaddr(host, p) == h.yiaddr && Giaddr(host, p) == h.giaddr
  {
    hide Store16, Store32, Load16, Load32;
    LoadStore32(host, h.xid);
    LoadStore16(host, h.flags);
    LoadStore32(host, h.yiaddr);
    LoadStore32(host, h.giaddr);
  }
}
