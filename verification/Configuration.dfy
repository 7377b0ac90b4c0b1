/** The option loop of `DhcpClient::configureDhcp`, which reads a lease out of an
    acknowledgement, compared with `Message::getOption`. */
module Configuration {
  import opened Bytes
  import opened Messages
  import opened Builder

  datatype DhcpInfo = DhcpInfo(
    t1: u32, t2: u32, leaseTime: u32, mtu: u16,
    dns0: u32, dns1: u32, dns2: u32, dns3: u32,
    gateway: u32, subnetMask: u32, serverId: u32, offeredAddress: u32)

  const NO_INFO: DhcpInfo := DhcpInfo(0, 0, 0, 0, 0, 0, 0, 0, 0, 0, 0, 0)

  /** The address in four bytes of a payload. */
  function WordAt(host: ByteOrder, data: seq<byte>, at: nat): u32
    requires at + 4 <= |data|
  {
    Load32(host, data[at..at + 4])
  }

  function ApplyDns(host: ByteOrder, info: DhcpInfo, data: seq<byte>): DhcpInfo
  {
    var n := |data|;
    info.(dns0 := if n >= 4 then WordAt(host, data, 0) else info.dns0,
          dns1 := if n >= 8 then WordAt(host, data, 4) else info.dns1,
          dns2 := if n >= 12 then WordAt(host, data, 8) else info.dns2,
          dns3 := if n >= 16 then WordAt(host, data, 12) else info.dns3)
  }

  function ApplyServerId(host: ByteOrder, info: DhcpInfo, data: seq<byte>): DhcpInfo
  {
    if |data| == 4 then info.(serverId := Load32(host, data)) else info
  }

  /** The switch over one option. The case for DNS has no `break` and falls through
      into the case for the server identifier. */
  function Apply(host: ByteOrder, info: DhcpInfo, code: byte, data: seq<byte>): DhcpInfo
  {
    if code == OPT_LEASE_TIME then
      if |data| == 4 then info.(leaseTime := Ntohl(host, Load32(host, data))) else info
    else if code == OPT_T1 then
      if |data| == 4 then info.(t1 := Ntohl(host, Load32(host, data))) else info
    else if code == OPT_T2 then
      if |data| == 4 then info.(t2 := Ntohl(host, Load32(host, data))) else info
    else if code == OPT_SUBNET_MASK then
      if |data| == 4 then info.(subnetMask := Load32(host, data)) else info
    else if code == OPT_GATEWAY then
      if |data| >= 4 then info.(gateway := WordAt(host, data, 0)) else info
    else if code == OPT_MTU then
      if |data| == 2 then info.(mtu := Ntohs(host, Load16(host, data))) else info
    else if code == OPT_DNS then
      ApplyServerId(host, ApplyDns(host, info, data), data)
    else if code == OPT_SERVER_ID then
      ApplyServerId(host, info, data)
    else info
  }

  /** Whether the loop ran to its end, and the fields it has set until then. */
  datatype Parsed = Parsed(complete: bool, info: DhcpInfo)

  function ParseFrom(host: ByteOrder, p: Packet, i: nat, info: DhcpInfo): Parsed
    decreases OptionsSize(p) - i
  {
    if i + 1 >= OptionsSize(p) then Parsed(true, info)
    else
      var code, len := p.mem[OPTIONS + i], p.mem[OPTIONS + i + 1];
      if code == OPT_END then Parsed(true, info)
      else if len + i >= OptionsSize(p) then Parsed(false, info)
      else
        var at := OPTIONS + i + 2;
        ParseFrom(host, p, i + 2 + len, Apply(host, info, code, p.mem[at..at + len]))
  }

  /** The loop itself. That it verifies says that it ends on every message and stays
      inside the message object. */
  method ParseOptions(host: ByteOrder, p: Packet) returns (r: Parsed)
    ensures r == ParseFrom(host, p, 4, NO_INFO)
  {
    var info := NO_INFO;
    var i := 4;
    while i + 1 < OptionsSize(p)
      invariant ParseFrom(host, p, 4, NO_INFO) == ParseFrom(host, p, i, info)
      decreases OptionsSize(p) - i
    {
      var code, len := p.mem[OPTIONS + i], p.mem[OPTIONS + i + 1];
      if code == OPT_END {
        break;
      }
      if len + i >= OptionsSize(p) {
        return Parsed(false, info);
      }
      var at := OPTIONS + i + 2;
      info := Apply(host, info, code, p.mem[at..at + len]);
      i := i + 2 + len;
    }
    return Parsed(true, info);
  }

  // ----- On well-formed options: a fold in which the last option wins -----

  function Fold(host: ByteOrder, opts: seq<Opt>, info: DhcpInfo): DhcpInfo
  {
    if opts == [] then info else Fold(host, opts[1..], Apply(host, info, opts[0].code, opts[0].data))
  }

  lemma {:induction false} ParseIsFold(host: ByteOrder, p: Packet, opts: seq<Opt>, i: nat, info: DhcpInfo)
    requires Carries(p, opts, i)
    ensures ParseFrom(host, p, i, info) == Parsed(true, Fold(host, opts, info))
    decreases |opts|
  {
    hide Apply, Tlv;
    if opts != [] {
      var o := opts[0];
      CarriesStep(p, opts, i);
      ParseStep(host, p, opts, i, info);
      ParseIsFold(host, p, opts[1..], i + 2 + |o.data|, Apply(host, info, o.code, o.data));
    }
  }

  lemma ParseStep(host: ByteOrder, p: Packet, opts: seq<Opt>, i: nat, info: DhcpInfo)
    requires opts != [] && Carries(p, opts, i)
    ensures var o := opts[0];
            ParseFrom(host, p, i, info)
            == ParseFrom(host, p, i + 2 + |o.data|, Apply(host, info, o.code, o.data))
  {
    hide Apply;
    CarriesStep(p, opts, i);
  }

  /** The payload of the last option with one of the codes and a length in range. */
  function Last(opts: seq<Opt>, codes: set<byte>, lo: nat, hi: nat): (r: Option<seq<byte>>)
    ensures r.Some? ==> lo <= |r.value| <= hi
  {
    if opts == [] then None
    else
      var later := Last(opts[1..], codes, lo, hi);
      if later.Some? then later
      else if opts[0].code in codes && lo <= |opts[0].data| <= hi then Some(opts[0].data)
      else None
  }

  /** The word at an offset of a payload, if there is such a payload. */
  function WordOr(order: ByteOrder, found: Option<seq<byte>>, at: nat, default: u32): u32
  {
    if found.Some? && at + 4 <= |found.value| then WordAt(order, found.value, at) else default
  }

  /** Every field after the loop is decided by the last option that can set it. The
      server identifier can be set by a DNS option as well. */
  ghost predicate Decided(host: ByteOrder, opts: seq<Opt>, before: DhcpInfo, after: DhcpInfo)
  {
    && after.leaseTime == WordOr(Big, Last(opts, {OPT_LEASE_TIME}, 4, 4), 0, before.leaseTime)
    && after.t1 == WordOr(Big, Last(opts, {OPT_T1}, 4, 4), 0, before.t1)
    && after.t2 == WordOr(Big, Last(opts, {OPT_T2}, 4, 4), 0, before.t2)
    && after.subnetMask == WordOr(host, Last(opts, {OPT_SUBNET_MASK}, 4, 4), 0, before.subnetMask)
    && after.gateway == WordOr(host, Last(opts, {OPT_GATEWAY}, 4, 0xFF), 0, before.gateway)
    && after.mtu == ShortOr(Last(opts, {OPT_MTU}, 2, 2), before.mtu)
    && after.dns0 == WordOr(host, Last(opts, {OPT_DNS}, 4, 0xFF), 0, before.dns0)
    && after.dns1 == WordOr(host, Last(opts, {OPT_DNS}, 8, 0xFF), 4, before.dns1)
    && after.dns2 == WordOr(host, Last(opts, {OPT_DNS}, 12, 0xFF), 8, before.dns2)
    && after.dns3 == WordOr(host, Last(opts, {OPT_DNS}, 16, 0xFF), 12, before.dns3)
    && after.serverId == WordOr(host, Last(opts, {OPT_SERVER_ID, OPT_DNS}, 4, 4), 0, before.serverId)
    && after.offeredAddress == before.offeredAddress
  }

  function ShortOr(found: Option<seq<byte>>, default: u16): u16
  {
    if found.Some? && |found.value| == 2 then Load16(Big, found.value) else default
  }

  lemma ApplyDecided(host: ByteOrder, o: Opt, info: DhcpInfo)
    ensures Decided(host, [o], info, Apply(host, info, o.code, o.data))
  {
    assert forall codes: set<byte>, lo: nat, hi: nat ::
      Last([o], codes, lo, hi) == if o.code in codes && lo <= |o.data| <= hi then Some(o.data) else None;
    if |o.data| == 4 {
      StoreLoad32(host, o.data);
      assert o.data[0..4] == o.data;
    }
    if |o.data| == 2 {
      StoreLoad16(host, o.data);
    }
  }

  lemma FieldStep(order: ByteOrder, opts: seq<Opt>, codes: set<byte>, lo: nat, hi: nat, at: nat, d: u32)
    requires opts != [] && at + 4 <= lo
    ensures WordOr(order, Last(opts, codes, lo, hi), at, d)
            == WordOr(order, Last(opts[1..], codes, lo, hi), at, WordOr(order, Last([opts[0]], codes, lo, hi), at, d))
  {
  }

  lemma DecidedStep(host: ByteOrder, opts: seq<Opt>, a: DhcpInfo, b: DhcpInfo, c: DhcpInfo)
    requires opts != [] && Decided(host, [opts[0]], a, b) && Decided(host, opts[1..], b, c)
    ensures Decided(host, opts, a, c)
  {
    FieldStep(Big, opts, {OPT_LEASE_TIME}, 4, 4, 0, a.leaseTime);
    FieldStep(Big, opts, {OPT_T1}, 4, 4, 0, a.t1);
    FieldStep(Big, opts, {OPT_T2}, 4, 4, 0, a.t2);
    FieldStep(host, opts, {OPT_SUBNET_MASK}, 4, 4, 0, a.subnetMask);
    FieldStep(host, opts, {OPT_GATEWAY}, 4, 0xFF, 0, a.gateway);
    FieldStep(host, opts, {OPT_DNS}, 4, 0xFF, 0, a.dns0);
    FieldStep(host, opts, {OPT_DNS}, 8, 0xFF, 4, a.dns1);
    FieldStep(host, opts, {OPT_DNS}, 12, 0xFF, 8, a.dns2);
    FieldStep(host, opts, {OPT_DNS}, 16, 0xFF, 12, a.dns3);
    FieldStep(host, opts, {OPT_SERVER_ID, OPT_DNS}, 4, 4, 0, a.serverId);
    assert Last(opts, {OPT_MTU}, 2, 2) ==
      var later := Last(opts[1..], {OPT_MTU}, 2, 2);
      if later.Some? then later else Last([opts[0]], {OPT_MTU}, 2, 2);
  }

  lemma {:induction false} FoldDecided(host: ByteOrder, opts: seq<Opt>, info: DhcpInfo)
    ensures Decided(host, opts, info, Fold(host, opts, info))
  {
    if opts != [] {
      var next := Apply(host, info, opts[0].code, opts[0].data);
      ApplyDecided(host, opts[0], info);
      FoldDecided(host, opts[1..], next);
      DecidedStep(host, opts, info, next, Fold(host, opts, info));
    }
  }

  // ----- Agreement with getOption -----

  /** The payload to which the pointer and the length from getOption refer. */
  function GetOptionPayload(p: Packet, code: byte): Option<seq<byte>>
  {
    match FindOption(p, code, 4)
    case None => None
    case Some(o) =>
      if o.at + o.length <= OptionsSize(p) then Some(p.mem[OPTIONS + o.at..OPTIONS + o.at + o.length]) else None
  }

  function Within(found: Option<seq<byte>>, lo: nat, hi: nat): Option<seq<byte>>
  {
    if found.Some? && lo <= |found.value| <= hi then found else None
  }

  ghost predicate DistinctCodes(opts: seq<Opt>)
  {
    forall i, j | 0 <= i < j < |opts| :: opts[i].code != opts[j].code
  }

  lemma {:induction false} FirstAbsent(opts: seq<Opt>, code: byte, lo: nat, hi: nat)
    requires forall i | 0 <= i < |opts| :: opts[i].code != code
    ensures First(opts, code) == None && Last(opts, {code}, lo, hi) == None
  {
    if opts != [] {
      FirstAbsent(opts[1..], code, lo, hi);
    }
  }

  /** Where no code is repeated, the last option with a code is the first one. */
  lemma {:induction false} LastIsFirst(opts: seq<Opt>, code: byte, lo: nat, hi: nat)
    requires DistinctCodes(opts)
    ensures Last(opts, {code}, lo, hi) == Within(First(opts, code), lo, hi)
  {
    if opts != [] {
      if opts[0].code == code {
        FirstAbsent(opts[1..], code, lo, hi);
      } else {
        LastIsFirst(opts[1..], code, lo, hi);
      }
    }
  }

  lemma FindsPayload(p: Packet, opts: seq<Opt>, code: byte)
    requires Carries(p, opts, 4)
    ensures GetOptionPayload(p, code) == First(opts, code)
  {
    FindsFirst(p, opts, code, 4);
  }

  /** The option round trip: a message built by the constructor with type `kind`, then
      with addOption for each of `opts`, then with endOptions, is accepted by whoever
      receives it, reports its type, and for every code yields the first payload that
      was added, or nothing exactly when none was. */
  lemma OptionRoundTrip(host: ByteOrder, h: Header, kind: byte, opts: seq<Opt>, p: Packet)
    requires Received(p, Encode(host, h, [RawOpt.Opt(OPT_MESSAGE_TYPE, [kind])] + opts))
    ensures IsValidReply(host, p, h.xid) <==> h.op == OP_BOOTREPLY
    ensures IsValidDhcpMessage(p, h.op) && Type(p) == kind
    ensures forall code: byte :: code != OPT_MESSAGE_TYPE ==> GetOptionPayload(p, code) == First(opts, code)
    ensures forall code: byte :: First(opts, code) == None <==> forall i | 0 <= i < |opts| :: opts[i].code != code
  {
    hide Encode, Xid, IsValidDhcpMessage, Chaddr, Yiaddr, Flags, Giaddr, Type;
    var all: seq<Opt> := [RawOpt.Opt(OPT_MESSAGE_TYPE, [kind])] + opts;
    assert all[1..] == opts;
    DecodesEncoded(host, h, all, p);
    FirstAt(all, OPT_MESSAGE_TYPE, 0);
    TypeFrom(p, all, kind);
    forall code: byte
      ensures code != OPT_MESSAGE_TYPE ==> GetOptionPayload(p, code) == First(opts, code)
      ensures First(opts, code) == None <==> forall i | 0 <= i < |opts| :: opts[i].code != code
    {
      FindsPayload(p, all, code);
      FirstNone(opts, code);
    }
  }

  lemma {:induction false} FirstNone(opts: seq<Opt>, code: byte)
    ensures First(opts, code) == None <==> forall i | 0 <= i < |opts| :: opts[i].code != code
  {
    if opts != [] {
      FirstNone(opts[1..], code);
      if First(opts, code) == None {
        forall i | 0 <= i < |opts|
          ensures opts[i].code != code
        {
          assert i > 0 ==> opts[i] == opts[1..][i - 1];
        }
      } else if opts[0].code != code {
        var i :| 0 <= i < |opts[1..]| && opts[1..][i].code == code;
        assert opts[i + 1].code == code;
      }
    }
  }

  /** Where no code is repeated, every field but the server identifier is what
      getOption would have found. */
  lemma ParsersAgree(host: ByteOrder, p: Packet, opts: seq<Opt>)
    requires Carries(p, opts, 4) && DistinctCodes(opts)
    ensures ParseFrom(host, p, 4, NO_INFO).complete
    ensures var info := ParseFrom(host, p, 4, NO_INFO).info;
            && info.leaseTime == WordOr(Big, Within(GetOptionPayload(p, OPT_LEASE_TIME), 4, 4), 0, 0)
            && info.t1 == WordOr(Big, Within(GetOptionPayload(p, OPT_T1), 4, 4), 0, 0)
            && info.t2 == WordOr(Big, Within(GetOptionPayload(p, OPT_T2), 4, 4), 0, 0)
            && info.subnetMask == WordOr(host, Within(GetOptionPayload(p, OPT_SUBNET_MASK), 4, 4), 0, 0)
            && info.gateway == WordOr(host, GetOptionPayload(p, OPT_GATEWAY), 0, 0)
            && info.mtu == ShortOr(GetOptionPayload(p, OPT_MTU), 0)
            && info.dns0 == WordOr(host, GetOptionPayload(p, OPT_DNS), 0, 0)
            && info.dns1 == WordOr(host, GetOptionPayload(p, OPT_DNS), 4, 0)
            && info.dns2 == WordOr(host, GetOptionPayload(p, OPT_DNS), 8, 0)
            && info.dns3 == WordOr(host, GetOptionPayload(p, OPT_DNS), 12, 0)
  {
    ParseIsFold(host, p, opts, 4, NO_INFO);
    FoldDecided(host, opts, NO_INFO);
    AgreeOn(p, opts, OPT_LEASE_TIME, 4, 4);
    AgreeOn(p, opts, OPT_T1, 4, 4);
    AgreeOn(p, opts, OPT_T2, 4, 4);
    AgreeOn(p, opts, OPT_SUBNET_MASK, 4, 4);
    AgreeOn(p, opts, OPT_GATEWAY, 4, 0xFF);
    AgreeOn(p, opts, OPT_MTU, 2, 2);
    AgreeOn(p, opts, OPT_DNS, 4, 0xFF);
    AgreeOn(p, opts, OPT_DNS, 8, 0xFF);
    AgreeOn(p, opts, OPT_DNS, 12, 0xFF);
    AgreeOn(p, opts, OPT_DNS, 16, 0xFF);
    FirstBound(opts, OPT_GATEWAY);
    FirstBound(opts, OPT_DNS);
  }

  lemma AgreeOn(p: Packet, opts: seq<Opt>, code: byte, lo: nat, hi: nat)
    requires Carries(p, opts, 4) && DistinctCodes(opts)
    ensures Last(opts, {code}, lo, hi) == Within(GetOptionPayload(p, code), lo, hi)
    ensures GetOptionPayload(p, code) == First(opts, code)
  {
    LastIsFirst(opts, code, lo, hi);
    FindsPayload(p, opts, code);
  }

  lemma {:induction false} FirstBound(opts: seq<Opt>, code: byte)
    ensures First(opts, code).Some? ==> |First(opts, code).value| <= 0xFF
  {
    if opts != [] {
      FirstBound(opts[1..], code);
    }
  }

  /** A four-byte DNS option that no four-byte server identifier follows. */
  ghost predicate DnsIsLastId(opts: seq<Opt>, d: nat)
  {
    && d < |opts| && opts[d].code == OPT_DNS && |opts[d].data| == 4
    && forall j | d < j < |opts| :: opts[j].code == OPT_SERVER_ID ==> |opts[j].data| != 4
  }

  /** Because of the fall-through, the server identifier the loop reports is the one
      getOption finds exactly when no DNS option with a different address takes the
      last word. */
  lemma ServerIdAgrees(host: ByteOrder, p: Packet, opts: seq<Opt>)
    requires Carries(p, opts, 4) && DistinctCodes(opts)
    ensures ParseFrom(host, p, 4, NO_INFO).info.serverId == ServerId(host, p)
            <==> forall d: nat :: DnsIsLastId(opts, d) ==> Load32(host, opts[d].data) == ServerId(host, p)
  {
    ParseIsFold(host, p, opts, 4, NO_INFO);
    FoldDecided(host, opts, NO_INFO);
    AgreeOn(p, opts, OPT_SERVER_ID, 4, 4);
    FindsFirst(p, opts, OPT_SERVER_ID, 4);
    LastId(opts);
    var last := Last(opts, {OPT_SERVER_ID, OPT_DNS}, 4, 4);
    if last.Some? {
      assert last.value[0..4] == last.value;
    }
    if d: nat :| DnsIsLastId(opts, d) {
      assert last == Some(opts[d].data);
    }
  }

  lemma {:induction false} LastId(opts: seq<Opt>)
    requires DistinctCodes(opts)
    ensures forall d: nat :: DnsIsLastId(opts, d) ==> Last(opts, {OPT_SERVER_ID, OPT_DNS}, 4, 4) == Some(opts[d].data)
    ensures (forall d: nat :: !DnsIsLastId(opts, d)) ==>
              Last(opts, {OPT_SERVER_ID, OPT_DNS}, 4, 4) == Last(opts, {OPT_SERVER_ID}, 4, 4)
  {
    if opts != [] {
      var rest := opts[1..];
      LastId(rest);
      assert forall d: nat :: d > 0 && DnsIsLastId(opts, d) ==> DnsIsLastId(rest, d - 1);
      assert forall d: nat :: DnsIsLastId(rest, d) ==> DnsIsLastId(opts, d + 1);
      if DnsIsLastId(opts, 0) {
        NoneLast(rest);
      } else if opts[0].code == OPT_DNS && |opts[0].data| == 4 {
        var j :| 0 < j < |opts| && opts[j].code == OPT_SERVER_ID && |opts[j].data| == 4;
        LastSome(rest, {OPT_SERVER_ID}, 4, 4, j - 1);
      }
    }
  }

  lemma {:induction false} LastSome(opts: seq<Opt>, codes: set<byte>, lo: nat, hi: nat, j: nat)
    requires j < |opts| && opts[j].code in codes && lo <= |opts[j].data| <= hi
    ensures Last(opts, codes, lo, hi).Some?
  {
    if j > 0 {
      LastSome(opts[1..], codes, lo, hi, j - 1);
    }
  }

  lemma {:induction false} NoneLast(opts: seq<Opt>)
    requires forall j | 0 <= j < |opts| :: opts[j].code in {OPT_SERVER_ID, OPT_DNS} ==> |opts[j].data| != 4
    ensures Last(opts, {OPT_SERVER_ID, OPT_DNS}, 4, 4) == None
  {
    if opts != [] {
      NoneLast(opts[1..]);
    }
  }

  // ----- Pads -----

  lemma {:induction false} FoldIgnoresPads(host: ByteOrder, items: seq<Item>, info: DhcpInfo)
    requires EvenPads(items)
    ensures Fold(host, Seen(items), info) == Fold(host, Meant(items), info)
  {
    if items != [] {
      if items[0].Field? {
        var o := items[0].o;
        FoldCons(host, o, Seen(items[1..]), info);
        FoldCons(host, o, Meant(items[1..]), info);
        FoldIgnoresPads(host, items[1..], Apply(host, info, o.code, o.data));
      } else {
        FoldCons(host, RawOpt.Opt(OPT_PAD, []), Seen(items[2..]), info);
        MeantAfterPads(items);
        FoldIgnoresPads(host, items[2..], info);
      }
    }
  }

  lemma FoldCons(host: ByteOrder, o: Opt, opts: seq<Opt>, info: DhcpInfo)
    ensures Fold(host, [o] + opts, info) == Fold(host, opts, Apply(host, info, o.code, o.data))
  {
    hide Apply;
    assert ([o] + opts)[0] == o && ([o] + opts)[1..] == opts;
  }

  /** Where pads come in runs of even length, both parsers find what is meant. */
  lemma EvenPadsAreHarmless(host: ByteOrder, p: Packet, items: seq<Item>)
    requires EvenPads(items) && |RfcWire(items)| + 4 < OptionsSize(p)
    requires p.mem[OPTIONS + 4..OPTIONS + 4 + |RfcWire(items)|] == RfcWire(items)
    requires p.mem[OPTIONS + 4 + |RfcWire(items)|] == OPT_END
    ensures ParseFrom(host, p, 4, NO_INFO) == Parsed(true, Fold(host, Meant(items), NO_INFO))
    ensures forall code: byte :: code != OPT_PAD ==> GetOptionPayload(p, code) == First(Meant(items), code)
  {
    hide Apply, GetOptionPayload;
    SeenOnWire(items);
    ParseIsFold(host, p, Seen(items), 4, NO_INFO);
    FoldIgnoresPads(host, items, NO_INFO);
    forall code: byte | code != OPT_PAD
      ensures GetOptionPayload(p, code) == First(Meant(items), code)
    {
      FindsPayload(p, Seen(items), code);
      PadsAreHarmless(items, code);
    }
  }

  // ----- From server to client -----

  function Slot(dns: seq<u32>, k: nat): u32
  {
    if k < |dns| then dns[k] else 0
  }

  lemma {:induction false} WordsAt(host: ByteOrder, words: seq<u32>, k: nat)
    requires k < |words|
    ensures WordAt(host, Words(host, words), 4 * k) == words[k]
  {
    hide Store32, Load32;
    var b := Words(host, words);
    if k == 0 {
      LoadStore32(host, words[0]);
      assert b[0..4] == Store32(host, words[0]);
    } else {
      WordsAt(host, words[1..], k - 1);
      var rest, j := Words(host, words[1..]), 4 * (k - 1);
      assert b == Store32(host, words[0]) + rest;
      assert b[j + 4..j + 8] == rest[j..j + 4];
    }
  }

  lemma AppliesWord(host: ByteOrder, x: u32)
    ensures |Store32(host, x)| == 4 && Load32(host, Store32(host, x)) == x
    ensures WordAt(host, Store32(host, x), 0) == x
  {
    LoadStore32(host, x);
    assert Store32(host, x)[0..4] == Store32(host, x);
  }

  lemma AppliesDns(host: ByteOrder, info: DhcpInfo, dns: seq<u32>)
    requires |dns| <= 4 && info.dns0 == info.dns1 == info.dns2 == info.dns3 == 0
    ensures Apply(host, info, OPT_DNS, DnsPayload(host, dns))
            == info.(dns0 := Slot(dns, 0), dns1 := Slot(dns, 1), dns2 := Slot(dns, 2), dns3 := Slot(dns, 3),
                     serverId := if |dns| == 1 then dns[0] else info.serverId)
  {
    var b := Words(host, dns);
    if |dns| > 0 { WordsAt(host, dns, 0); }
    if |dns| > 1 { WordsAt(host, dns, 1); }
    if |dns| > 2 { WordsAt(host, dns, 2); }
    if |dns| > 3 { WordsAt(host, dns, 3); }
    if |dns| == 1 {
      assert b[0..4] == b;
    }
  }

  lemma FoldAt(host: ByteOrder, opts: seq<Opt>, k: nat, info: DhcpInfo)
    requires k < |opts|
    ensures Fold(host, opts[k..], info) == Fold(host, opts[k + 1..], Apply(host, info, opts[k].code, opts[k].data))
  {
    assert opts[k..][1..] == opts[k + 1..];
  }

  /** What the client makes of an offer or an acknowledgement from this server. */
  function GrantInfo(host: ByteOrder, t: Terms): DhcpInfo
  {
    DhcpInfo(0, 0, Ntohl(host, DEFAULT_LEASE_TIME), 0,
             Slot(t.dns, 0), Slot(t.dns, 1), Slot(t.dns, 2), Slot(t.dns, 3),
             t.gateway, t.netmask, if |t.dns| == 1 then t.dns[0] else t.server, 0)
  }

  lemma FoldGrant(host: ByteOrder, kind: byte, t: Terms)
    requires |t.dns| <= 4
    ensures Fold(host, GrantOptions(host, kind, t), NO_INFO) == GrantInfo(host, t)
  {
    hide Store32, Load32, WordAt, DnsPayload, Ntohl;
    var o := GrantOptions(host, kind, t);
    AppliesWord(host, t.server);
    AppliesWord(host, t.netmask);
    AppliesWord(host, t.gateway);
    LoadStore32(host, DEFAULT_LEASE_TIME);
    var withId := NO_INFO.(serverId := t.server);
    var withLease := withId.(leaseTime := Ntohl(host, DEFAULT_LEASE_TIME));
    var withMask := withLease.(subnetMask := t.netmask);
    var withGateway := withMask.(gateway := t.gateway);
    FoldAt(host, o, 0, NO_INFO);
    FoldAt(host, o, 1, NO_INFO);
    FoldAt(host, o, 2, withId);
    FoldAt(host, o, 3, withLease);
    FoldAt(host, o, 4, withMask);
    FoldAt(host, o, 5, withGateway);
    AppliesDns(host, withGateway, t.dns);
    assert o[0..] == o && o[6..] == [];
  }

  /** The client recovers from Message::ack every value the server put in: unused DNS
      slots are zero; the lease time is in the wrong byte order; a single DNS server
      is taken for the server identifier. */
  lemma GrantRoundTrip(host: ByteOrder, source: Packet, kind: byte, address: u32, t: Terms, p: Packet)
    requires |t.dns| <= 4
    requires Received(p, Encode(host, ReplyHeader(host, source, address), GrantOptions(host, kind, t)))
    ensures ParseFrom(host, p, 4, NO_INFO) == Parsed(true, GrantInfo(host, t))
    ensures Type(p) == kind && ServerId(host, p) == t.server
    ensures Yiaddr(host, p) == address && Xid(host, p) == Xid(host, source) && Chaddr(p) == Chaddr(source)
    ensures IsValidDhcpMessage(p, OP_BOOTREPLY) && !IsValidDhcpMessage(p, OP_BOOTREQUEST)
  {
    hide Encode, ReplyHeader, GrantInfo, GrantOptions, Store32, Xid, Yiaddr, Chaddr, Flags, Giaddr;
    hide IsValidDhcpMessage, Type, Address;
    var opts := GrantOptions(host, kind, t);
    ReplyHeaderFields(host, source, address);
    DecodesEncoded(host, ReplyHeader(host, source, address), opts, p);
    ParseIsFold(host, p, opts, 4, NO_INFO);
    FoldGrant(host, kind, t);
    GrantFirst(host, kind, t);
    TypeFrom(p, opts, kind);
    AddressFrom(host, p, opts, OPT_SERVER_ID, t.server);
  }

  lemma ReplyHeaderFields(host: ByteOrder, source: Packet, address: u32)
    ensures var h := ReplyHeader(host, source, address);
            && h.op == OP_BOOTREPLY && h.xid == Xid(host, source)
            && h.yiaddr == address && h.mac == Chaddr(source)
  {
  }

  lemma GrantFirst(host: ByteOrder, kind: byte, t: Terms)
    ensures First(GrantOptions(host, kind, t), OPT_MESSAGE_TYPE) == Some([kind])
    ensures First(GrantOptions(host, kind, t), OPT_SERVER_ID) == Some(Store32(host, t.server))
  {
    hide Store32, DnsPayload;
    FirstAt(GrantOptions(host, kind, t), OPT_MESSAGE_TYPE, 0);
    FirstAt(GrantOptions(host, kind, t), OPT_SERVER_ID, 1);
  }

  /** The ten minutes the server grants, which it stores in its own order and the client
      reads in the network's, arrive as ten minutes exactly on hosts where the two are
      the same; elsewhere they arrive as 0x58020000 seconds. */
  lemma LeaseTimeArrives(host: ByteOrder)
    ensures Ntohl(host, DEFAULT_LEASE_TIME) == DEFAULT_LEASE_TIME <==> host.Big?
    ensures host.Little? ==> Ntohl(host, DEFAULT_LEASE_TIME) == 0x5802_0000
  {
    if host.Little? {
      assert Store32(Little, DEFAULT_LEASE_TIME) == [0x58, 0x02, 0, 0];
    } else {
      LoadStore32(Big, DEFAULT_LEASE_TIME);
    }
  }

  /** That is the lease time the client gets. The server identifier arrives exactly
      unless a single, different DNS server is sent. */
  lemma GrantInfoFields(host: ByteOrder, t: Terms)
    ensures var info := GrantInfo(host, t);
            && info.leaseTime == Ntohl(host, DEFAULT_LEASE_TIME)
            && info.t1 == 0 && info.t2 == 0 && info.mtu == 0
            && info.subnetMask == t.netmask && info.gateway == t.gateway
            && (info.serverId == t.server <==> |t.dns| != 1 || t.dns[0] == t.server)
  {
    hide Ntohl;
  }

  // ----- Messages that are cut short -----

  /** Whether the loop takes another option at index i. */
  predicate Continues(p: Packet, i: nat)
  {
    && i + 1 < OptionsSize(p)
    && p.mem[OPTIONS + i] != OPT_END
    && p.mem[OPTIONS + i + 1] + i < OptionsSize(p)
  }

  /** The index after that option, and what the switch makes of it. */
  function After(p: Packet, i: nat): (r: nat)
    requires Continues(p, i)
    ensures i + 2 <= r <= OptionsSize(p) + 1
  {
    i + 2 + p.mem[OPTIONS + i + 1]
  }

  function Taken(host: ByteOrder, p: Packet, i: nat, info: DhcpInfo): DhcpInfo
    requires Continues(p, i)
  {
    Apply(host, info, p.mem[OPTIONS + i], p.mem[OPTIONS + i + 2..OPTIONS + After(p, i)])
  }

  /** The index at which the loop stops. */
  function Stop(p: Packet, i: nat): (r: nat)
    decreases OptionsSize(p) - i
  {
    if Continues(p, i) then Stop(p, After(p, i)) else i
  }

  /** The length check leaves out the two bytes of the option header, so the loop can
      step one byte past the end of the message, and no further. */
  lemma {:induction false} StopBound(p: Packet, i: nat)
    requires i <= OptionsSize(p) + 1
    ensures Stop(p, i) <= OptionsSize(p) + 1
    decreases OptionsSize(p) - i
  {
    if Continues(p, i) {
      StopBound(p, After(p, i));
    }
  }

  /** The options of which the switch reads the last byte. */
  predicate ReadsLast(code: byte, len: byte)
  {
    || (code in {OPT_LEASE_TIME, OPT_T1, OPT_T2, OPT_SUBNET_MASK, OPT_GATEWAY, OPT_SERVER_ID} && len == 4)
    || (code == OPT_MTU && len == 2)
    || (code == OPT_DNS && len in {4, 8, 12, 16})
  }

  /** The message ends one byte before the end of its last option, and the switch reads
      that byte. */
  predicate CutShort(p: Packet, i: nat)
    decreases OptionsSize(p) - i
  {
    && Continues(p, i)
    && if After(p, i) > OptionsSize(p) then ReadsLast(p.mem[OPTIONS + i], p.mem[OPTIONS + i + 1])
       else CutShort(p, After(p, i))
  }

  /** The switch tells payloads apart that differ in their last byte exactly for those
      options. */
  lemma ApplyLast(host: ByteOrder, info: DhcpInfo, code: byte, a: seq<byte>, b: seq<byte>)
    requires |a| == |b| && 0 < |a| <= 0xFF && a[..|a| - 1] == b[..|a| - 1] && a[|a| - 1] != b[|a| - 1]
    ensures Apply(host, info, code, a) == Apply(host, info, code, b) <==> !ReadsLast(code, |a|)
  {
    hide Load16, Load32, Ntohl, Ntohs;
    var n := |a|;
    WordsDiffer(host, a, b);
    forall k: nat | k + 4 <= n
      ensures WordAt(host, a, k) == WordAt(host, b, k) <==> k + 4 < n
    {
      SlicesDiffer(a, b, k, k + 4);
      WordsDiffer(host, a[k..k + 4], b[k..k + 4]);
    }
  }

  lemma SlicesDiffer(a: seq<byte>, b: seq<byte>, i: nat, j: nat)
    requires |a| == |b| && i < j <= |a| && a[..|a| - 1] == b[..|a| - 1] && a[|a| - 1] != b[|a| - 1]
    ensures a[i..j] == b[i..j] <==> j < |a|
  {
    var n := |a|;
    assert forall k | 0 <= k < n - 1 :: a[k] == a[..n - 1][k] && b[k] == b[..n - 1][k];
    if j == n {
      assert a[i..j][j - i - 1] == a[n - 1] && b[i..j][j - i - 1] == b[n - 1];
    }
  }

  /** Different bytes make different words, in either order. */
  lemma WordsDiffer(host: ByteOrder, a: seq<byte>, b: seq<byte>)
    requires |a| == |b|
    ensures |a| == 4 ==> (Load32(host, a) == Load32(host, b) <==> a == b)
    ensures |a| == 4 ==> (Ntohl(host, Load32(host, a)) == Ntohl(host, Load32(host, b)) <==> a == b)
    ensures |a| == 2 ==> (Ntohs(host, Load16(host, a)) == Ntohs(host, Load16(host, b)) <==> a == b)
  {
    hide Load16, Load32, Store16, Store32;
    if |a| == 4 {
      StoreLoad32(host, a);
      StoreLoad32(host, b);
      StoreLoad32(Big, a);
      StoreLoad32(Big, b);
    } else if |a| == 2 {
      StoreLoad16(host, a);
      StoreLoad16(host, b);
      StoreLoad16(Big, a);
      StoreLoad16(Big, b);
    }
  }

  /** One turn of the loop. */
  lemma Turn(host: ByteOrder, p: Packet, i: nat, info: DhcpInfo)
    requires Continues(p, i)
    ensures ParseFrom(host, p, i, info) == ParseFrom(host, p, After(p, i), Taken(host, p, i, info))
  {
    hide Apply;
  }

  /** Both objects take the same option, with the same payload up to the end. */
  lemma InsideStep(p: Packet, q: Packet, i: nat)
    requires SameMessage(p, q) && Continues(p, i)
    ensures Continues(q, i) && After(q, i) == After(p, i) && OptionsSize(q) == OptionsSize(p)
    ensures q.mem[OPTIONS + i] == p.mem[OPTIONS + i]
    ensures var at, to := OPTIONS + i + 2, OPTIONS + After(p, i);
            if to > p.size then p.mem[at..p.size] == q.mem[at..p.size] else p.mem[at..to] == q.mem[at..to]
  {
    hide SameMessage;
    var at, to := OPTIONS + i + 2, OPTIONS + After(p, i);
    SameSlice(p, q, at - 2, at - 1);
    SameSlice(p, q, at - 1, at);
    SameSlice(p, q, at, if to > p.size then p.size else to);
  }

  lemma BothTurn(host: ByteOrder, p: Packet, q: Packet, i: nat, info: DhcpInfo)
    requires SameMessage(p, q) && Continues(p, i)
    requires After(p, i) <= OptionsSize(p) || p.mem[p.size] == q.mem[p.size]
    ensures ParseFrom(host, p, i, info) == ParseFrom(host, p, After(p, i), Taken(host, p, i, info))
    ensures ParseFrom(host, q, i, info) == ParseFrom(host, q, After(p, i), Taken(host, p, i, info))
  {
    hide Apply, SameMessage;
    InsideStep(p, q, i);
    Turn(host, p, i, info);
    Turn(host, q, i, info);
    var at, to := OPTIONS + i + 2, OPTIONS + After(p, i);
    if to > p.size {
      assert p.mem[at..to] == p.mem[at..p.size] + [p.mem[p.size]];
      assert q.mem[at..to] == q.mem[at..p.size] + [q.mem[p.size]];
    }
  }

  lemma InsideEnd(host: ByteOrder, p: Packet, q: Packet, i: nat, info: DhcpInfo)
    requires SameMessage(p, q) && !Continues(p, i)
    ensures ParseFrom(host, p, i, info) == ParseFrom(host, q, i, info)
  {
    hide Apply, SameMessage;
    SameSlice(p, q, 0, 0);
    if i + 1 < OptionsSize(p) {
      SameSlice(p, q, OPTIONS + i, OPTIONS + i + 1);
      SameSlice(p, q, OPTIONS + i + 1, OPTIONS + i + 2);
    }
  }

  /** The last option of a message that is one byte too short for it. */
  lemma LastStep(host: ByteOrder, p: Packet, q: Packet, i: nat, info: DhcpInfo)
    requires SameMessage(p, q) && p.mem[p.size] != q.mem[p.size]
    requires Continues(p, i) && After(p, i) > OptionsSize(p)
    ensures ParseFrom(host, p, i, info) == ParseFrom(host, q, i, info) <==> !CutShort(p, i)
  {
    hide Apply, SameMessage, ReadsLast;
    var at, to := OPTIONS + i + 2, OPTIONS + After(p, i);
    InsideStep(p, q, i);
    var a, b := p.mem[at..to], q.mem[at..to];
    SubSlice(p.mem, at, to, 0, to - at - 1);
    SubSlice(q.mem, at, to, 0, to - at - 1);
    ApplyLast(host, info, p.mem[OPTIONS + i], a, b);
    Turn(host, p, i, info);
    Turn(host, q, i, info);
  }

  /** Two objects that hold the same message and differ in the byte that follows it are
      parsed alike exactly if the message is not cut short. */
  lemma {:induction false} DiffersBeyond(host: ByteOrder, p: Packet, q: Packet, i: nat, info: DhcpInfo)
    requires SameMessage(p, q) && p.mem[p.size] != q.mem[p.size]
    ensures ParseFrom(host, p, i, info) == ParseFrom(host, q, i, info) <==> !CutShort(p, i)
    decreases OptionsSize(p) - i
  {
    hide Taken, SameMessage, ReadsLast, Continues;
    if !Continues(p, i) {
      InsideEnd(host, p, q, i, info);
    } else if After(p, i) > OptionsSize(p) {
      LastStep(host, p, q, i, info);
    } else {
      BothTurn(host, p, q, i, info);
      DiffersBeyond(host, p, q, After(p, i), Taken(host, p, i, info));
    }
  }

  /** Two that agree in that byte as well are always parsed alike. */
  lemma {:induction false} AgreesBeyond(host: ByteOrder, p: Packet, q: Packet, i: nat, info: DhcpInfo)
    requires SameMessage(p, q) && p.mem[p.size] == q.mem[p.size]
    ensures ParseFrom(host, p, i, info) == ParseFrom(host, q, i, info)
    decreases OptionsSize(p) - i
  {
    hide Taken, SameMessage, Continues;
    if !Continues(p, i) {
      InsideEnd(host, p, q, i, info);
    } else {
      BothTurn(host, p, q, i, info);
      AgreesBeyond(host, p, q, After(p, i), Taken(host, p, i, info));
    }
  }

  /** What the loop makes of a message, however malformed, depends on the bytes of the
      message alone exactly if the message is not cut short. At most one byte beyond it
      ever matters. */
  lemma InsideMessage(host: ByteOrder, p: Packet)
    ensures (forall q: Packet | SameMessage(p, q) :: ParseFrom(host, q, 4, NO_INFO) == ParseFrom(host, p, 4, NO_INFO))
            <==> !CutShort(p, 4)
    ensures forall q: Packet | SameMessage(p, q) && p.mem[p.size] == q.mem[p.size] ::
              ParseFrom(host, q, 4, NO_INFO) == ParseFrom(host, p, 4, NO_INFO)
  {
    hide SameMessage, Apply;
    forall q: Packet | SameMessage(p, q)
      ensures !CutShort(p, 4) || p.mem[p.size] == q.mem[p.size]
              ==> ParseFrom(host, q, 4, NO_INFO) == ParseFrom(host, p, 4, NO_INFO)
    {
      if p.mem[p.size] == q.mem[p.size] {
        AgreesBeyond(host, p, q, 4, NO_INFO);
      } else {
        DiffersBeyond(host, p, q, 4, NO_INFO);
      }
    }
    var q := OtherBeyond(p);
    DiffersBeyond(host, p, q, 4, NO_INFO);
  }

  lemma OtherBeyond(p: Packet) returns (q: Packet)
    ensures SameMessage(p, q) && p.mem[p.size] != q.mem[p.size]
  {
    q := RawPacket.Packet(p.mem[p.size := (p.mem[p.size] as int + 1) % 0x100], p.size);
  }

  /** The options of an acknowledgement whose lease time lost its last byte. */
  const CUT_LEASE: seq<byte> := [OPT_MESSAGE_TYPE, 1, DHCPACK, OPT_LEASE_TIME, 4, 0, 0, 1]

  /** It is taken for an acknowledgement, and its lease time is completed with the byte
      that follows the message in memory. */
  lemma ReadsOneByteBeyond(host: ByteOrder, p: Packet)
    requires p.size == OPTIONS + 12 && p.mem[OPTIONS + 4..p.size] == CUT_LEASE
    ensures Type(p) == DHCPACK && CutShort(p, 4) && Stop(p, 4) == OptionsSize(p) + 1
    ensures ParseFrom(host, p, 4, NO_INFO) == Parsed(true, NO_INFO.(leaseTime := 0x100 + p.mem[p.size] as int))
  {
    hide Apply;
    var from := OPTIONS + 4;
    var cut := p.mem[from..p.size];
    assert p.mem[from] == cut[0] && p.mem[from + 1] == cut[1] && p.mem[from + 2] == cut[2];
    assert p.mem[from + 3] == cut[3] && p.mem[from + 4] == cut[4];
    assert p.mem[from + 5] == cut[5] && p.mem[from + 6] == cut[6] && p.mem[from + 7] == cut[7];
    var data := p.mem[from + 5..from + 9];
    assert data == [0, 0, 1, p.mem[p.size]];
    LastByteWord(host, data);
    Turn(host, p, 4, NO_INFO);
    Turn(host, p, 7, NO_INFO);
    TypeIsIgnored(host, NO_INFO, p.mem[from + 2..from + 3]);
    assert Stop(p, 13) == 13 && Stop(p, 7) == 13;
  }

  lemma TypeIsIgnored(host: ByteOrder, info: DhcpInfo, data: seq<byte>)
    ensures Apply(host, info, OPT_MESSAGE_TYPE, data) == info
  {
  }

  lemma LastByteWord(host: ByteOrder, data: seq<byte>)
    requires |data| == 4 && data[..3] == [0, 0, 1]
    ensures Apply(host, NO_INFO, OPT_LEASE_TIME, data) == NO_INFO.(leaseTime := 0x100 + data[3] as int)
  {
    StoreLoad32(host, data);
    assert data[0] == data[..3][0] && data[1] == data[..3][1] && data[2] == data[..3][2];
    assert data[..2] == [0, 0] && data[2..] == [1, data[3]];
  }
}
