/** What a client makes of a well-formed message, in terms of the options in it. */
module ClientReplies {
  import opened Bytes
  import opened Messages
  import opened Configuration
  import opened ClientMachine
  import opened ClientRuns

  /** The value of the last option with a code, if it is four bytes long, in the given
      byte order; zero if there is none. */
  function Number(order: ByteOrder, opts: seq<Opt>, code: byte): u32
  {
    WordOr(order, Last(opts, {code}, 4, 4), 0, 0)
  }

  /** The two timers in seconds: what the server says, or else half and seven eighths of the
      lease time, the latter with the product taken in 32 bits. */
  function FirstTimer(opts: seq<Opt>): u32
  {
    if Number(Big, opts, 58) > 0 then Number(Big, opts, 58) else Number(Big, opts, 51) / 2
  }

  function SecondTimer(opts: seq<Opt>): u32
  {
    if Number(Big, opts, 59) > 0 then Number(Big, opts, 59)
    else (7 * Number(Big, opts, 51) as int) % 0x1_0000_0000 / 8
  }

  function Mtu(opts: seq<Opt>): u16 { ShortOr(Last(opts, {26}, 2, 2), 0) }

  /** The settings after a configuration that has a lease time. Each call is made only if
      those before it succeeded; the one for the MTU is allowed to fail. */
  function Set(host: ByteOrder, n: Network, opts: seq<Opt>, address: u32, o: Outcomes): Network
  {
    Network(
      o.up || n.up,
      if o.up && o.mtu && Mtu(opts) != 0 then Mtu(opts) else n.mtu,
      if o.up && o.address then address else n.address,
      if o.up && o.address && o.subnetMask then Number(host, opts, 1) else n.subnetMask,
      if o.up && o.address && o.subnetMask && o.gateway then WordOr(host, Last(opts, {3}, 4, 255), 0, 0) else n.gateway)
  }

  lemma SettingUp(host: ByteOrder, n: Network, opts: seq<Opt>, info: DhcpInfo, o: Outcomes)
    requires Decided(host, opts, NO_INFO, info.(offeredAddress := 0))
    ensures SetUp(n, info, o) == Set(host, n, opts, info.offeredAddress, o)
  {
    hide Last, WordOr, ShortOr;
  }

  /** What configuring from a well-formed message does. It succeeds exactly if there is a
      nonzero lease time and all calls but the one for the MTU succeed. Without a lease
      time nothing but the record of the lease changes. */
  lemma ConfigureReads(host: ByteOrder, c: Client, p: Packet, opts: seq<Opt>, now1: Millis, now2: Millis, o: Outcomes)
    requires Carries(p, opts, 4)
    ensures var r := Configure(host, c, p, now1, now2, o);
            var lease := Number(Big, opts, 51);
            && (r.ok <==> lease != 0 && o.up && o.address && o.subnetMask && o.gateway)
            && Decided(host, opts, NO_INFO, r.client.info.(offeredAddress := 0))
            && r.client.info.offeredAddress == Load32(host, p.mem[16..20])
            && r.client == c.(info := r.client.info, network := r.client.network, t1 := r.client.t1, t2 := r.client.t2)
            && (lease == 0 ==> r.client == c.(info := r.client.info))
            && (lease != 0 ==>
                  && r.client.network == Set(host, c.network, opts, Load32(host, p.mem[16..20]), o)
                  && r.client.t1 == now1 + 1000 * FirstTimer(opts) as int
                  && r.client.t2 == now2 + 1000 * SecondTimer(opts) as int)
  {
    hide Configure, SetUp, Set, Number, Load32, Decided, Carries;
    ParseIsFold(host, p, opts, 4, NO_INFO);
    FoldDecided(host, opts, NO_INFO);
    var parsed := Fold(host, opts, NO_INFO);
    DecidedTimers(host, opts, parsed);
    var info := parsed.(offeredAddress := Yiaddr(host, p));
    assert info.(offeredAddress := 0) == parsed;
    SettingUp(host, c.network, opts, info, o);
    ConfigureFrom(host, c, p, parsed, now1, now2, o);
    CarriesRoom(p, opts);
  }

  lemma CarriesRoom(p: Packet, opts: seq<Opt>)
    requires Carries(p, opts, 4)
    ensures OptionsSize(p) >= 4
  {
  }

  /** Configuring, once the options have been read. */
  lemma ConfigureFrom(host: ByteOrder, c: Client, p: Packet, parsed: DhcpInfo, now1: Millis, now2: Millis, o: Outcomes)
    requires OptionsSize(p) >= 4 ==> ParseFrom(host, p, 4, NO_INFO) == Parsed(true, parsed)
    ensures var info := parsed.(offeredAddress := Yiaddr(host, p));
            OptionsSize(p) >= 4 ==>
              Configure(host, c, p, now1, now2, o)
              == if info.leaseTime == 0 then Configured(false, c.(info := info))
                 else Configured(AllSet(o), c.(info := info, network := SetUp(c.network, info, o),
                        t1 := now1 + 1000 * (if info.t1 > 0 then info.t1 else DefaultT1(info.leaseTime)) as int,
                        t2 := now2 + 1000 * (if info.t2 > 0 then info.t2 else DefaultT2(info.leaseTime)) as int))
  {
    hide SetUp, DefaultT1, DefaultT2, Yiaddr;
  }

  lemma DecidedTimers(host: ByteOrder, opts: seq<Opt>, info: DhcpInfo)
    requires Decided(host, opts, NO_INFO, info)
    ensures info.leaseTime == Number(Big, opts, 51) && info.offeredAddress == 0
    ensures info.t1 == Number(Big, opts, 58) && info.t2 == Number(Big, opts, 59)
  {
  }

  /** The effect of a poll that brings a message on a client that goes on waiting. */
  ghost predicate StaysPut(c: Client, c': Client)
  {
    c' == c.(waiting := c'.waiting)
  }

  /** The effect of a valid reply of a kind, given the result of configuring from it. */
  ghost predicate Heeds(host: ByteOrder, c: Client, p: Packet, opts: seq<Opt>, r: Configured, o: Outcomes, c': Client)
  {
    var kind := First(opts, 53);
    if c.state == Selecting && kind == Some([2]) then
      var server := First(opts, 54);
      c' == c.(state := Requesting, nextTimeout := 0, fuzz := true, waiting := None,
               requestAddress := Load32(host, p.mem[16..20]),
               serverAddress := if server.Some? && |server.value| == 4 then Load32(host, server.value) else 0)
    else if c.state in {Requesting, Renewing, Rebinding} && kind == Some([5]) then
      if r.ok then c' == r.client.(state := Bound, nextTimeout := 0, fuzz := true, waiting := None)
      else c' == r.client.(waiting := c'.waiting)
    else if c.state in {Requesting, Renewing, Rebinding} && kind == Some([6]) then
      c' == c.(state := Init, nextTimeout := 0, fuzz := true, waiting := None,
               network := c.network.(address := if o.address then 0 else c.network.address,
                                     up := c.network.up && !o.down))
    else StaysPut(c, c')
  }

  /** What every message does to a waiting client. Only a reply to its last transmission
      counts; an offer counts in Selecting; an acknowledgement or a denial in the states
      that have sent a request; everything else leaves all but the wait as it was. */
  lemma MessageMoves(host: ByteOrder, c: Client, p: Packet, opts: seq<Opt>, e: Poll)
    requires Carries(p, opts, 4) && c.waiting.Some? && e.Arrived? && e.message == Some(p)
    ensures var c' := PollStep(host, c, e);
            if IsValidReply(host, p, c.lastXid) then
              Heeds(host, c, p, opts, Configure(host, c, p, e.now1, e.now2, e.o), e.o, c')
            else StaysPut(c, c')
  {
    hide Type, Address, Yiaddr, Configure, IsValidReply, Carries, Load32, Halt;
    TypeIs(p, opts);
    OneByte(First(opts, 53), 2);
    OneByte(First(opts, 53), 5);
    OneByte(First(opts, 53), 6);
    AddressIs(host, p, opts, OPT_SERVER_ID);
    AcceptedMoves(host, c, p, opts, e);
  }

  lemma OneByte(data: Option<seq<byte>>, kind: byte)
    ensures data == Some([kind]) <==> data.Some? && |data.value| == 1 && data.value[0] == kind
  {
    assert data.Some? && |data.value| == 1 ==> data.value == [data.value[0]];
  }

  /** The same, once it is known what type and serverId report. */
  lemma AcceptedMoves(host: ByteOrder, c: Client, p: Packet, opts: seq<Opt>, e: Poll)
    requires c.waiting.Some? && e.Arrived? && e.message == Some(p)
    requires Type(p) == 2 <==> First(opts, 53) == Some([2])
    requires Type(p) == 5 <==> First(opts, 53) == Some([5])
    requires Type(p) == 6 <==> First(opts, 53) == Some([6])
    requires var server := First(opts, 54);
             ServerId(host, p) == if server.Some? && |server.value| == 4 then Load32(host, server.value) else 0
    ensures var c' := PollStep(host, c, e);
            if IsValidReply(host, p, c.lastXid) then
              Heeds(host, c, p, opts, Configure(host, c, p, e.now1, e.now2, e.o), e.o, c')
            else StaysPut(c, c')
  {
    hide Type, ServerId, Configure, IsValidReply, Load32;
    ConfigureKeepsPace(host, c, p, e.now1, e.now2, e.o);
  }

  /** A message cut off within an option, so that the length of the option exceeds what is
      left of the message, is dropped, whatever options come before. */
  lemma {:induction false} TooLongIsDropped(host: ByteOrder, p: Packet, opts: seq<Opt>, i: nat, info: DhcpInfo)
    requires i + |Wire(opts)| + 1 < OptionsSize(p)
    requires p.mem[OPTIONS + i..OPTIONS + i + |Wire(opts)|] == Wire(opts)
    requires var j := OPTIONS + i + |Wire(opts)|; p.mem[j] != OPT_END && j + p.mem[j + 1] >= p.size
    ensures !ParseFrom(host, p, i, info).complete
    decreases |opts|
  {
    hide Apply;
    if opts != [] {
      PrefixStep(p, opts, i);
      Turn(host, p, i, info);
      TooLongIsDropped(host, p, opts[1..], After(p, i), Taken(host, p, i, info));
    }
  }

  /** So a client does not configure itself from such a message. */
  lemma TooLongIsRefused(host: ByteOrder, c: Client, p: Packet, opts: seq<Opt>, now1: Millis, now2: Millis, o: Outcomes)
    requires 4 + |Wire(opts)| + 1 < OptionsSize(p)
    requires p.mem[OPTIONS + 4..OPTIONS + 4 + |Wire(opts)|] == Wire(opts)
    requires var j := OPTIONS + 4 + |Wire(opts)|; p.mem[j] != OPT_END && j + p.mem[j + 1] >= p.size
    ensures var r := Configure(host, c, p, now1, now2, o); !r.ok && r.client == c.(info := r.client.info)
  {
    hide SetUp, DefaultT1, DefaultT2, Yiaddr, Apply;
    TooLongIsDropped(host, p, opts, 4, NO_INFO);
  }

  lemma PrefixStep(p: Packet, opts: seq<Opt>, i: nat)
    requires opts != [] && i + |Wire(opts)| + 1 < OptionsSize(p)
    requires p.mem[OPTIONS + i..OPTIONS + i + |Wire(opts)|] == Wire(opts)
    ensures Continues(p, i) && |Wire(opts)| == 2 + |opts[0].data| + |Wire(opts[1..])|
    ensures After(p, i) == i + 2 + |opts[0].data|
    ensures var at := OPTIONS + After(p, i); p.mem[at..at + |Wire(opts[1..])|] == Wire(opts[1..])
  {
    hide Tlv;
    var n, w := |opts[0].data|, |Wire(opts)|;
    WireStep(p.mem, OPTIONS + i, opts);
    RoomFor(p, opts, i, w);
    assert After(p, i) == i + 2 + n;
  }

  lemma RoomFor(p: Packet, opts: seq<Opt>, i: nat, w: nat)
    requires opts != [] && i + w + 1 < OptionsSize(p) && 2 + |opts[0].data| <= w
    requires p.mem[OPTIONS + i] == opts[0].code && p.mem[OPTIONS + i + 1] == |opts[0].data|
    ensures Continues(p, i)
  {
  }
}
