/** The constructors and factories of `common/message.cpp`, writing a message into
    memory piece by piece. */
module Builder {
  import opened Bytes
  import opened Messages

  /** The process-wide counter `sNextTransactionId`. */
  class TransactionIds {
    var next: u32

    constructor ()
      ensures next == 1
    {
      next := 1;
    }

    method Take() returns (id: u32)
      modifies this
      ensures id == old(next) && next == Wrap32(old(next) + 1)
    {
      id := next;
      next := Wrap32(next + 1);
    }
  }

  // ----- The option lists of the factories -----

  function DiscoverOptions(): seq<Opt>
  {
    [RawOpt.Opt(OPT_MESSAGE_TYPE, [DHCPDISCOVER]), RawOpt.Opt(OPT_PARAMETER_LIST, REQUEST_PARAMETERS)]
  }

  function RequestOptions(host: ByteOrder, requestAddress: u32, serverAddress: u32): seq<Opt>
  {
    [RawOpt.Opt(OPT_MESSAGE_TYPE, [DHCPREQUEST]),
     RawOpt.Opt(OPT_PARAMETER_LIST, REQUEST_PARAMETERS),
     RawOpt.Opt(OPT_REQUESTED_IP, Store32(host, requestAddress)),
     RawOpt.Opt(OPT_SERVER_ID, Store32(host, serverAddress))]
  }

  /** What a server tells in an offer or an acknowledgement besides the address. */
  datatype Terms = Terms(server: u32, netmask: u32, gateway: u32, dns: seq<u32>)

  function Words(host: ByteOrder, words: seq<u32>): (b: seq<byte>)
    ensures |b| == 4 * |words|
  {
    if words == [] then [] else Store32(host, words[0]) + Words(host, words[1..])
  }

  /** The size of the server list reaches addOption through a `uint8_t`. */
  function DnsPayload(host: ByteOrder, dns: seq<u32>): (b: seq<byte>)
    ensures |b| <= 0xFF
    ensures |dns| <= 4 ==> b == Words(host, dns)
  {
    Words(host, dns)[..4 * |dns| % 0x100]
  }

  function GrantOptions(host: ByteOrder, kind: byte, t: Terms): seq<Opt>
  {
    [RawOpt.Opt(OPT_MESSAGE_TYPE, [kind]),
     RawOpt.Opt(OPT_SERVER_ID, Store32(host, t.server)),
     RawOpt.Opt(OPT_LEASE_TIME, Store32(host, DEFAULT_LEASE_TIME)),
     RawOpt.Opt(OPT_SUBNET_MASK, Store32(host, t.netmask)),
     RawOpt.Opt(OPT_GATEWAY, Store32(host, t.gateway)),
     RawOpt.Opt(OPT_DNS, DnsPayload(host, t.dns))]
  }

  function NackOptions(host: ByteOrder, server: u32): seq<Opt>
  {
    [RawOpt.Opt(OPT_MESSAGE_TYPE, [DHCPNAK]), RawOpt.Opt(OPT_SERVER_ID, Store32(host, server))]
  }

  function ClientHeader(host: ByteOrder, xid: u32, mac: Mac): Header
  {
    Header(OP_BOOTREQUEST, xid, Htons(host, FLAGS_BROADCAST), 0, 0, mac)
  }

  /** The header of a reply: everything but the offered address comes from the
      message it answers. */
  function ReplyHeader(host: ByteOrder, source: Packet, yiaddr: u32): Header
  {
    Header(OP_BOOTREPLY, Xid(host, source), Flags(host, source), yiaddr, Giaddr(host, source), Chaddr(source))
  }

  // ----- Messages under construction -----

  /** The bytes of a message that has not been ended yet. */
  ghost function Open(host: ByteOrder, h: Header, opts: seq<Opt>): seq<byte>
  {
    HeaderBytes(host, h) + COOKIE + Wire(opts)
  }

  ghost function Patch(s: seq<byte>, at: nat, data: seq<byte>): (r: seq<byte>)
    requires at + |data| <= |s|
    ensures |r| == |s|
  {
    s[..at] + data + s[at + |data|..]
  }

  /** `data` at offset `at` is what changes when the header becomes h'. */
  ghost predicate IsField(host: ByteOrder, h: Header, h': Header, at: nat, data: seq<byte>)
  {
    || (at == 4 && data == Store32(host, h'.xid) && h' == h.(xid := h'.xid))
    || (at == 10 && data == Store16(host, h'.flags) && h' == h.(flags := h'.flags))
    || (at == 16 && data == Store32(host, h'.yiaddr) && h' == h.(yiaddr := h'.yiaddr))
    || (at == 24 && data == Store32(host, h'.giaddr) && h' == h.(giaddr := h'.giaddr))
    || (at == 28 && data == h'.mac && h' == h.(mac := h'.mac))
  }

  lemma IsFieldPatches(host: ByteOrder, h: Header, h': Header, at: nat, data: seq<byte>)
    requires at + |data| <= OPTIONS && IsField(host, h, h', at, data)
    ensures HeaderBytes(host, h') == Patch(HeaderBytes(host, h), at, data)
  {
  }

  lemma HeaderPatched(host: ByteOrder, h: Header, h': Header, s: seq<byte>, at: nat, data: seq<byte>)
    requires OPTIONS <= |s| && s[..OPTIONS] == HeaderBytes(host, h) && at + |data| <= OPTIONS
    requires HeaderBytes(host, h') == Patch(HeaderBytes(host, h), at, data)
    ensures Patch(s, at, data)[..OPTIONS] == HeaderBytes(host, h')
    ensures Patch(s, at, data)[OPTIONS..] == s[OPTIONS..]
  {
    hide HeaderBytes, HeaderByte, Store16, Store32;
    assert Patch(s, at, data)[..OPTIONS] == Patch(s[..OPTIONS], at, data);
  }

  lemma OpenParts(host: ByteOrder, h: Header, opts: seq<Opt>, s: seq<byte>)
    ensures s == Open(host, h, opts)
            <==> |s| >= OPTIONS && s[..OPTIONS] == HeaderBytes(host, h) && s[OPTIONS..] == COOKIE + Wire(opts)
  {
    hide HeaderBytes, HeaderByte, Store16, Store32;
    if |s| >= OPTIONS {
      assert s == s[..OPTIONS] + s[OPTIONS..];
    }
    assert Open(host, h, opts)[OPTIONS..] == COOKIE + Wire(opts);
  }

  lemma WireOne(o: Opt)
    ensures Wire([o]) == Tlv(o)
  {
    assert Wire([o]) == Tlv(o) + Wire([]);
  }

  lemma OpenSnoc(host: ByteOrder, h: Header, opts: seq<Opt>, o: Opt)
    ensures Open(host, h, opts + [o]) == Open(host, h, opts) + Tlv(o)
  {
    hide HeaderBytes, HeaderByte, Store16, Store32;
    WireConcat(opts, [o]);
    WireOne(o);
  }

  const NO_MAC: Mac := [0, 0, 0, 0, 0, 0]

  lemma BlankHeader(host: ByteOrder, op: byte, s: seq<byte>)
    requires |s| == MEMORY && s[..4] == [op, HTYPE_ETHER, ETH_ALEN, 0]
    requires s[4..] == seq(MEMORY - 4, _ => 0)
    ensures s[..OPTIONS] == HeaderBytes(host, Header(op, 0, 0, 0, 0, NO_MAC))
  {
    assert Store32(host, 0) == [0, 0, 0, 0];
    assert forall k | 0 <= k < 4 :: s[k] == s[..4][k];
    assert forall k | 4 <= k < OPTIONS :: s[k] == s[4..][k - 4];
  }

  // ----- The message object -----

  class Message {
    const host: ByteOrder
    const memory: array<byte>
    var size: nat
    ghost var header: Header
    ghost var options: seq<Opt>

    /** A message under construction: the header, the cookie and the options added
        so far, and room for the end marker. */
    ghost predicate Valid()
      reads this, memory
    {
      && memory.Length == MEMORY
      && size < CAPACITY
      && memory[..size] == Open(host, header, options)
    }

    constructor (host: ByteOrder, operation: byte, mac: Mac, kind: byte, ids: TransactionIds)
      modifies ids
      ensures Valid() && fresh(memory) && this.host == host
      ensures header == Header(operation, Htonl(host, old(ids.next)), Htons(host, FLAGS_BROADCAST), 0, 0, mac)
      ensures options == [RawOpt.Opt(OPT_MESSAGE_TYPE, [kind])] && size == OPTIONS + 7
      ensures ids.next == Wrap32(old(ids.next) + 1)
    {
      this.host := host;
      memory := new byte[MEMORY](_ => 0);
      size := 0;
      new;
      var id := ids.Take();
      FillHeader(operation, mac, id);
      StartOptions(kind);
    }

    method FillHeader(operation: byte, mac: Mac, id: u32)
      requires memory.Length == MEMORY && forall k | 0 <= k < MEMORY :: memory[k] == 0
      modifies this`header, memory
      ensures header == Header(operation, Htonl(host, id), Htons(host, FLAGS_BROADCAST), 0, 0, mac)
      ensures memory[..OPTIONS] == HeaderBytes(host, header)
    {
      hide HeaderBytes, HeaderByte, Store16, Store32, Htons, Htonl, Load16, Load32;
      assert memory[4..] == seq(MEMORY - 4, _ => 0);
      Copy(0, [operation, HTYPE_ETHER, ETH_ALEN, 0]);
      assert memory[..][..4] == memory[..4] && memory[..][4..] == memory[4..];
      header := Header(operation, 0, 0, 0, 0, NO_MAC);
      BlankHeader(host, operation, memory[..]);
      assert memory[..][..OPTIONS] == memory[..OPTIONS];
      SetField(10, Store16(host, Htons(host, FLAGS_BROADCAST)), header.(flags := Htons(host, FLAGS_BROADCAST)));
      SetField(4, Store32(host, Htonl(host, id)), header.(xid := Htonl(host, id)));
      SetField(28, mac, header.(mac := mac));
    }

    method StartOptions(kind: byte)
      requires memory.Length == MEMORY && memory[..OPTIONS] == HeaderBytes(host, header)
      modifies this`size, this`options, memory
      ensures Valid() && options == [RawOpt.Opt(OPT_MESSAGE_TYPE, [kind])] && size == OPTIONS + 7
    {
      hide HeaderBytes, HeaderByte;
      Copy(OPTIONS, COOKIE);
      Copy(OPTIONS + 4, [OPT_MESSAGE_TYPE, 1, kind]);
      options := [RawOpt.Opt(OPT_MESSAGE_TYPE, [kind])];
      WireOne(options[0]);
      size := OPTIONS + 7;
    }

    /** memcpy into the object */
    method Copy(at: nat, data: seq<byte>)
      requires at + |data| <= memory.Length
      modifies memory
      ensures memory[..at + |data|] == old(memory[..at]) + data
      ensures memory[at + |data|..] == old(memory[at + |data|..])
    {
      forall k | 0 <= k < |data| {
        memory[at + k] := data[k];
      }
    }

    /** The assignment of a header field, whose bytes are at a fixed offset. */
    method SetField(at: nat, data: seq<byte>, ghost h: Header)
      requires memory.Length == MEMORY && memory[..OPTIONS] == HeaderBytes(host, header)
      requires at + |data| <= OPTIONS && IsField(host, header, h, at, data)
      modifies this`header, memory
      ensures memory[..OPTIONS] == HeaderBytes(host, h) && memory[OPTIONS..] == old(memory[OPTIONS..])
      ensures header == h
    {
      hide HeaderBytes, HeaderByte, Store16, Store32;
      IsFieldPatches(host, header, h, at, data);
      HeaderPatched(host, header, h, memory[..], at, data);
      assert memory[..][..OPTIONS] == memory[..OPTIONS] && memory[..][OPTIONS..] == memory[OPTIONS..];
      ghost var patched := Patch(memory[..], at, data);
      Copy(at, data);
      assert memory[..] == memory[..at + |data|] + memory[at + |data|..] == patched;
      assert memory[..][..OPTIONS] == memory[..OPTIONS] && memory[..][OPTIONS..] == memory[OPTIONS..];
      header := h;
    }

    method SetXid(x: u32)
      requires Valid()
      modifies this`header, memory
      ensures Valid() && header == old(header).(xid := x)
    {
      hide HeaderBytes, HeaderByte, Store16, Store32;
      OpenParts(host, header, options, memory[..size]);
      SetField(4, Store32(host, x), header.(xid := x));
      OpenParts(host, header, options, memory[..size]);
    }

    method SetFlags(x: u16)
      requires Valid()
      modifies this`header, memory
      ensures Valid() && header == old(header).(flags := x)
    {
      hide HeaderBytes, HeaderByte, Store16, Store32;
      OpenParts(host, header, options, memory[..size]);
      SetField(10, Store16(host, x), header.(flags := x));
      OpenParts(host, header, options, memory[..size]);
    }

    method SetYiaddr(x: u32)
      requires Valid()
      modifies this`header, memory
      ensures Valid() && header == old(header).(yiaddr := x)
    {
      hide HeaderBytes, HeaderByte, Store16, Store32;
      OpenParts(host, header, options, memory[..size]);
      SetField(16, Store32(host, x), header.(yiaddr := x));
      OpenParts(host, header, options, memory[..size]);
    }

    method SetGiaddr(x: u32)
      requires Valid()
      modifies this`header, memory
      ensures Valid() && header == old(header).(giaddr := x)
    {
      hide HeaderBytes, HeaderByte, Store16, Store32;
      OpenParts(host, header, options, memory[..size]);
      SetField(24, Store32(host, x), header.(giaddr := x));
      OpenParts(host, header, options, memory[..size]);
    }

    /** addOption has no end check: its callers have to leave room. */
    method AddOption(code: byte, data: seq<byte>)
      requires Valid() && code != OPT_END && |data| <= 0xFF
      requires size + 2 + |data| < CAPACITY
      modifies this`size, this`options, memory
      ensures Valid() && options == old(options) + [RawOpt.Opt(code, data)]
      ensures size == old(size) + 2 + |data|
    {
      hide HeaderBytes, HeaderByte, Store16, Store32;
      ghost var before := memory[..size];
      Copy(size, [code]);
      Copy(size + 1, [|data|]);
      Copy(size + 2, data);
      assert memory[..size + 2 + |data|] == before + ([code, |data|] + data);
      AppendOption(RawOpt.Opt(code, data));
      size := size + 2 + |data|;
    }

    /** The overload for an array copies its items one at a time. */
    method AddItems(code: byte, items: seq<byte>)
      requires Valid() && code != OPT_END && |items| <= 0xFF
      requires size + 2 + |items| < CAPACITY
      modifies this`size, this`options, memory
      ensures Valid() && options == old(options) + [RawOpt.Opt(code, items)]
      ensures size == old(size) + 2 + |items|
    {
      hide HeaderBytes, HeaderByte, Store16, Store32;
      ghost var prefix := memory[..size] + [code, |items|];
      Copy(size, [code]);
      Copy(size + 1, [|items|]);
      var opts := size + 2;
      for k := 0 to |items|
        invariant size == old(size) && options == old(options) && opts == size + 2 + k
        invariant memory[..opts] == prefix + items[..k]
      {
        Copy(opts, [items[k]]);
        opts := opts + 1;
        assert items[..k + 1] == items[..k] + [items[k]];
      }
      assert items[..|items|] == items;
      AppendOption(RawOpt.Opt(code, items));
      size := opts;
    }

    /** updateSize, after the bytes of an option have been put behind the others. */
    ghost method AppendOption(o: Opt)
      requires memory.Length == MEMORY && size + 2 + |o.data| < CAPACITY
      requires memory[..size + 2 + |o.data|] == Open(host, header, options) + Tlv(o)
      modifies this`options
      ensures options == old(options) + [o]
      ensures memory[..size + 2 + |o.data|] == Open(host, header, options)
    {
      hide HeaderBytes, HeaderByte, Store16, Store32;
      OpenSnoc(host, header, options, o);
      options := options + [o];
    }

    method EndOptions()
      requires Valid()
      modifies this`size, memory
      ensures memory.Length == MEMORY && size <= CAPACITY
      ensures memory[..size] == Encode(host, header, options)
    {
      hide HeaderBytes, HeaderByte, Store16, Store32;
      Copy(size, [OPT_END]);
      size := size + 1;
      assert memory[..size] == old(memory[..size]) + [OPT_END];
    }

    static method Discover(host: ByteOrder, mac: Mac, ids: TransactionIds) returns (m: Message)
      modifies ids
      ensures fresh(m) && m.memory.Length == MEMORY && m.size <= CAPACITY
      ensures ids.next == Wrap32(old(ids.next) + 1)
      ensures m.memory[..m.size] == Encode(host, ClientHeader(host, Htonl(host, old(ids.next)), mac), DiscoverOptions())
    {
      hide HeaderBytes, HeaderByte, Store16, Store32, Htons, Htonl, DnsPayload, Encode;
      m := new Message(host, OP_BOOTREQUEST, mac, DHCPDISCOVER, ids);
      m.AddItems(OPT_PARAMETER_LIST, REQUEST_PARAMETERS);
      assert m.options == DiscoverOptions();
      m.EndOptions();
    }

    static method Request(host: ByteOrder, mac: Mac, requestAddress: u32, serverAddress: u32, ids: TransactionIds)
      returns (m: Message)
      modifies ids
      ensures fresh(m) && m.memory.Length == MEMORY && m.size <= CAPACITY
      ensures ids.next == Wrap32(old(ids.next) + 1)
      ensures m.memory[..m.size] == Encode(host, ClientHeader(host, Htonl(host, old(ids.next)), mac),
                                           RequestOptions(host, requestAddress, serverAddress))
    {
      hide HeaderBytes, HeaderByte, Store16, Store32, Htons, Htonl, DnsPayload, Encode;
      m := new Message(host, OP_BOOTREQUEST, mac, DHCPREQUEST, ids);
      m.AddItems(OPT_PARAMETER_LIST, REQUEST_PARAMETERS);
      m.AddOption(OPT_REQUESTED_IP, Store32(host, requestAddress));
      m.AddOption(OPT_SERVER_ID, Store32(host, serverAddress));
      assert m.options == RequestOptions(host, requestAddress, serverAddress);
      m.EndOptions();
    }

    method AddTerms(t: Terms)
      requires Valid() && size == OPTIONS + 7 && |options| == 1
      modifies this`size, this`options, memory
      ensures Valid() && size < CAPACITY
      ensures options == old(options) + GrantOptions(host, 0, t)[1..]
    {
      hide HeaderBytes, HeaderByte, Store16, Store32;
      AddOption(OPT_SERVER_ID, Store32(host, t.server));
      AddOption(OPT_LEASE_TIME, Store32(host, DEFAULT_LEASE_TIME));
      AddOption(OPT_SUBNET_MASK, Store32(host, t.netmask));
      AddOption(OPT_GATEWAY, Store32(host, t.gateway));
      AddOption(OPT_DNS, DnsPayload(host, t.dns));
    }

    /** The common text of Message::offer and Message::ack, which differ in `kind`. */
    static method Grant(host: ByteOrder, kind: byte, source: Packet, address: u32, t: Terms, ids: TransactionIds)
      returns (m: Message)
      modifies ids
      ensures fresh(m) && m.memory.Length == MEMORY && m.size <= CAPACITY
      ensures m.memory[..m.size] == Encode(host, ReplyHeader(host, source, address), GrantOptions(host, kind, t))
    {
      hide HeaderBytes, HeaderByte, Store16, Store32, Htons, Htonl, DnsPayload, Encode;
      m := new Message(host, OP_BOOTREPLY, Chaddr(source), kind, ids);
      m.SetXid(Xid(host, source));
      m.SetFlags(Flags(host, source));
      m.SetYiaddr(address);
      m.SetGiaddr(Giaddr(host, source));
      m.AddTerms(t);
      assert m.options == GrantOptions(host, kind, t);
      m.EndOptions();
    }

    static method Nack(host: ByteOrder, source: Packet, server: u32, ids: TransactionIds) returns (m: Message)
      modifies ids
      ensures fresh(m) && m.memory.Length == MEMORY && m.size <= CAPACITY
      ensures m.memory[..m.size] == Encode(host, ReplyHeader(host, source, 0), NackOptions(host, server))
    {
      hide HeaderBytes, HeaderByte, Store16, Store32, Htons, Htonl, DnsPayload, Encode;
      m := new Message(host, OP_BOOTREPLY, Chaddr(source), DHCPNAK, ids);
      m.SetXid(Xid(host, source));
      m.SetFlags(Flags(host, source));
      m.SetGiaddr(Giaddr(host, source));
      m.AddOption(OPT_SERVER_ID, Store32(host, server));
      assert m.options == NackOptions(host, server);
      m.EndOptions();
    }
  }
}
