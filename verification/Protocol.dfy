/** One server, any number of clients and a network that may lose, duplicate and
    reorder what it is given. Everything that travels is bytes: what a client or the
    server does with a frame is decided by reading those bytes back.
 */
module Protocol {
  import opened Bytes
  import opened Messages
  import opened Builder
  import opened Configuration
  import opened Factories
  import opened Allocator
  import M = ClientMachine
  import S = Server
  import ClientRuns

  /** Where a client is attached: the server's interface to its link, and its MAC. */
  datatype Station = Station(link: u32, mac: Mac)

  /** `xids(i, n)` is the transaction id (the word in memory) of the n-th message of
      client i. */
  datatype Setup = Setup(host: ByteOrder, server: S.Config, stations: seq<Station>, xids: (nat, nat) -> u32)

  /** A datagram on a link. The last two fields record, for the proof only, which
      message of which client it is or answers; nobody looks at them. */
  datatype Frame = Frame(link: u32, port: u16, bytes: seq<byte>, client: nat, serial: nat)

  /** The network keeps every frame it was ever given and delivers any of them at any
      time, any number of times, or never. */
  datatype State = State(table: Table, clients: seq<M.Client>, net: set<Frame>)

  ghost predicate Initial(u: Setup, s: State)
  {
    && s.table == EMPTY && s.net == {} && |s.clients| == |u.stations|
    && forall i | 0 <= i < |s.clients| :: M.Starts(s.clients[i])
  }

  datatype Event =
    | Decides(i: nat, r: M.Readings)
    | Waits(i: nat, e: M.Poll)
    | Hears(i: nat, f: Frame, p: Packet, e: M.Poll)
    | Serves(f: Frame, p: Packet, env: S.Env)

  function KeyOf(u: Setup, i: nat): Key
    requires i < |u.stations|
  {
    Key(u.stations[i].link, u.stations[i].mac)
  }

  /** Whether an event can happen: which client it is, and that what is delivered is a
      frame of the network on the right link and port. */
  ghost predicate Enabled(u: Setup, s: State, ev: Event)
    requires |s.clients| == |u.stations|
  {
    match ev
    case Decides(i, r) => i < |s.clients| && s.clients[i].waiting.None?
    case Waits(i, e) => i < |s.clients| && s.clients[i].waiting.Some? && (e.Arrived? ==> e.message == None)
    case Hears(i, f, p, e) =>
      && i < |s.clients| && s.clients[i].waiting.Some?
      && f in s.net && f.link == u.stations[i].link && f.port == PORT_BOOTP_CLIENT && Received(p, f.bytes)
      && e.Arrived? && e.message == Some(p)
    case Serves(f, p, env) =>
      f in s.net && f.port == PORT_BOOTP_SERVER && Received(p, f.bytes) && |env.dns| <= 4
  }

  ghost function Sent(u: Setup, i: nat, c: M.Client, r: M.Readings): set<Frame>
    requires i < |u.stations|
  {
    var out := M.Transmission(u.host, u.stations[i].mac, c, M.Sends(c, r), u.xids(i, c.sent));
    if out == [] then {} else {Frame(u.stations[i].link, PORT_BOOTP_SERVER, out[0], i, c.sent)}
  }

  ghost function Answer(u: Setup, f: Frame, p: Packet, reply: S.Reply): set<Frame>
  {
    var out := S.ReplyBytes(u.host, p, reply);
    if out.None? then {} else {Frame(f.link, PORT_BOOTP_CLIENT, out.value, f.client, f.serial)}
  }

  ghost function Next(u: Setup, s: State, ev: Event): State
    requires |s.clients| == |u.stations| && Enabled(u, s, ev)
  {
    match ev
    case Decides(i, r) =>
      var c := s.clients[i];
      State(s.table, s.clients[i := M.Decide(c, r, u.xids(i, c.sent))], s.net + Sent(u, i, c, r))
    case Waits(i, e) =>
      s.(clients := s.clients[i := M.PollStep(u.host, s.clients[i], e)])
    case Hears(i, f, p, e) =>
      s.(clients := s.clients[i := M.PollStep(u.host, s.clients[i], e)])
    case Serves(f, p, env) =>
      var (t, reply) := S.Handle(u.host, u.server, s.table, p, f.link, env);
      State(t, s.clients, s.net + Answer(u, f, p, reply))
  }

  /** The state after a sequence of events; events that cannot happen are passed over. */
  ghost function Exec(u: Setup, s: State, evs: seq<Event>): (s': State)
    requires |s.clients| == |u.stations|
    ensures |s'.clients| == |u.stations|
  {
    if evs == [] then s
    else
      var before := Exec(u, s, evs[..|evs| - 1]);
      var ev := evs[|evs| - 1];
      if Enabled(u, before, ev) then Next(u, before, ev) else before
  }

  // ----- What is to be shown -----

  /** Every nonzero address on an interface is the server's lease for that client. */
  ghost predicate Safe(u: Setup, s: State)
    requires |s.clients| == |u.stations|
  {
    forall i | 0 <= i < |s.clients| ::
      s.clients[i].network.address == 0 || s.clients[i].network.address == Lookup(s.table, KeyOf(u, i))
  }

  /** Clients with different keys never hold the same address. */
  ghost predicate Exclusive(u: Setup, s: State)
    requires |s.clients| == |u.stations|
  {
    forall i, j | 0 <= i < |s.clients| && 0 <= j < |s.clients| && KeyOf(u, i) != KeyOf(u, j) ::
      s.clients[i].network.address == 0 || s.clients[i].network.address != s.clients[j].network.address
  }

  predicate Served(u: Setup, link: u32)
  {
    link != 0 && link != u.server.excluded
  }

  /** Clients on one served link whose messages share a transaction id have the same
      MAC address. */
  ghost predicate IdsApart(u: Setup)
  {
    forall i: nat, j: nat, m: nat, n: nat ::
      (&& i < |u.stations| && j < |u.stations| && u.stations[i].link == u.stations[j].link
       && Served(u, u.stations[i].link) && u.xids(i, m) == u.xids(j, n))
      ==> u.stations[i].mac == u.stations[j].mac
  }

  // ----- The invariant -----

  /** What reading the bytes of a frame yields. */
  ghost predicate FrameOk(u: Setup, t: Table, f: Frame)
  {
    && f.client < |u.stations| && f.link == u.stations[f.client].link
    && (f.port == PORT_BOOTP_CLIENT ==> Served(u, f.link))
    && forall p: Packet {:trigger Received(p, f.bytes)} :: Received(p, f.bytes) ==>
         && Xid(u.host, p) == u.xids(f.client, f.serial)
         && (f.port == PORT_BOOTP_SERVER ==> Chaddr(p) == u.stations[f.client].mac)
         && (f.port == PORT_BOOTP_CLIENT && Type(p) == DHCPACK ==>
               Yiaddr(u.host, p) != 0 && Yiaddr(u.host, p) == Lookup(t, KeyOf(u, f.client)))
  }

  ghost predicate ClientOk(u: Setup, t: Table, i: nat, c: M.Client)
    requires i < |u.stations|
  {
    && (c.network.address == 0 || c.network.address == Lookup(t, KeyOf(u, i)))
    && (c.sent > 0 ==> c.lastXid == u.xids(i, c.sent - 1))
    && (c.waiting.Some? || c.state !in {M.Init, M.Selecting} ==> c.sent > 0)
  }

  ghost predicate Inv(u: Setup, s: State)
  {
    && |s.clients| == |u.stations|
    && (forall f | f in s.net :: FrameOk(u, s.table, f))
    && (forall i | 0 <= i < |s.clients| :: ClientOk(u, s.table, i, s.clients[i]))
  }

  // ----- One request and its answer, end to end -----

  /** What a request says on the wire: the address the client was offered, and the server
      that offered it, or everybody once the client is rebinding. */
  lemma RequestOnWire(host: ByteOrder, mac: Mac, c: M.Client, r: M.Readings, xid: u32, p: Packet)
    requires c.state in {M.Requesting, M.Renewing, M.Rebinding} && !M.Sends(c, r).Nothing?
    requires Received(p, M.Transmission(host, mac, c, M.Sends(c, r), xid)[0])
    ensures IsValidDhcpMessage(p, OP_BOOTREQUEST) && Type(p) == DHCPREQUEST && Xid(host, p) == xid && Chaddr(p) == mac
    ensures RequestedIp(host, p) == c.requestAddress
    ensures ServerId(host, p) == if c.state == M.Rebinding then 0xFFFF_FFFF else c.serverAddress
  {
    hide Encode, ClientHeader, RequestOptions, Type, Xid, Chaddr, RequestedIp, ServerId, IsValidDhcpMessage, Received;
    RequestReads(host, xid, mac, c.requestAddress, M.Sends(c, r).destination, p);
  }

  /** A client waits for the answer to the request p. */
  predicate Awaits(host: ByteOrder, c: M.Client, p: Packet)
  {
    c.waiting.Some? && c.state in {M.Requesting, M.Renewing, M.Rebinding} && c.lastXid == Xid(host, p)
  }

  /** A request for the address that the allocator grants its sender binds the client:
      server and client together set address, mask and gateway to what the server was
      started with, and the timers to what OwnServerTimers says. */
  lemma RequestBinds(host: ByteOrder, cfg: S.Config, t: Table, p: Packet, iface: u32, env: S.Env,
                     c: M.Client, q: Packet, e: M.Poll)
    requires !t.hung && S.Relevant(cfg, p, iface) && Type(p) == DHCPREQUEST && env.address.Some? && |env.dns| <= 4
    requires Offer(host, cfg.range, t, S.KeyOf(p, iface)).1 == Granted(RequestedIp(host, p))
    requires Awaits(host, c, p) && e.Arrived? && e.message == Some(q) && M.AllSet(e.o)
    requires e.now1 <= e.now2 < e.now1 + ClientRuns.REVERSED_BY
    requires var out := S.ReplyBytes(host, p, S.Handle(host, cfg, t, p, iface, env).1);
             out.Some? ==> Received(q, out.value)
    ensures var c' := M.PollStep(host, c, e);
            && c'.state == M.Bound && c'.waiting.None?
            && c'.network == M.Network(true, c.network.mtu, RequestedIp(host, p), cfg.netmask, cfg.gateway)
            && Lookup(S.Handle(host, cfg, t, p, iface, env).0, S.KeyOf(p, iface)) == RequestedIp(host, p)
            && (c'.t1 <= c'.t2 <==> host.Big?)
  {
    hide Encode, ReplyHeader, GrantOptions, NackOptions, Type, Xid, Yiaddr, Chaddr, RequestedIp, ServerId, Offer;
    hide S.Relevant, IsValidDhcpMessage, Received, Awaits, M.PollStep, M.AllSet;
    var key := S.KeyOf(p, iface);
    var terms := S.TermsOf(cfg, env);
    S.OfferKeeps(host, cfg.range, t, key);
    OfferKnown(host, cfg.range, Offer(host, cfg.range, t, key).0, key);
    assert S.Handle(host, cfg, t, p, iface, env).1 == S.AckOf(RequestedIp(host, p), terms);
    AckBinds(host, p, RequestedIp(host, p), terms, c, q, e);
  }

  lemma AckBinds(host: ByteOrder, p: Packet, address: u32, terms: Terms, c: M.Client, q: Packet, e: M.Poll)
    requires |terms.dns| <= 4
    requires Received(q, Encode(host, ReplyHeader(host, p, address), GrantOptions(host, DHCPACK, terms)))
    requires Awaits(host, c, p) && e.Arrived? && e.message == Some(q) && M.AllSet(e.o)
    requires e.now1 <= e.now2 < e.now1 + ClientRuns.REVERSED_BY
    ensures var c' := M.PollStep(host, c, e);
            && c'.state == M.Bound && c'.waiting.None?
            && c'.network == M.Network(true, c.network.mtu, address, terms.netmask, terms.gateway)
            && (c'.t1 <= c'.t2 <==> host.Big?)
  {
    hide Encode, ReplyHeader, GrantOptions, Type, Xid, Yiaddr, Chaddr, ServerId;
    hide IsValidDhcpMessage, M.Configure, M.AllSet;
    hide Received, M.PollStep;
    GrantRoundTrip(host, p, DHCPACK, address, terms, q);
    ClientRuns.OwnServerTimers(host, p, address, terms, q, c, e.now1, e.now2, e.o);
    AckAccepted(host, c, q, e);
  }

  lemma AckAccepted(host: ByteOrder, c: M.Client, q: Packet, e: M.Poll)
    requires c.waiting.Some? && c.state in {M.Requesting, M.Renewing, M.Rebinding} && IsValidReply(host, q, c.lastXid)
    requires Type(q) == DHCPACK && e.Arrived? && e.message == Some(q)
    requires M.Configure(host, c, q, e.now1, e.now2, e.o).ok
    ensures M.PollStep(host, c, e)
            == M.SetNextState(M.Configure(host, c, q, e.now1, e.now2, e.o).client.(waiting := None), M.Bound)
  {
    hide Type, IsValidReply, M.Configure;
  }

  /** Any other request, whether its sender has a lease, could get one or finds the server
      out of addresses, sends the client back to Init with its network halted, unless the
      server hangs over it. */
  lemma RequestDenied(host: ByteOrder, cfg: S.Config, t: Table, p: Packet, iface: u32, env: S.Env,
                      c: M.Client, q: Packet, e: M.Poll)
    requires !t.hung && S.Relevant(cfg, p, iface) && Type(p) == DHCPREQUEST && env.address.Some?
    requires var o := Offer(host, cfg.range, t, S.KeyOf(p, iface)).1; !o.Hangs? && o != Granted(RequestedIp(host, p))
    requires Awaits(host, c, p) && e.Arrived? && e.message == Some(q) && e.o.address && e.o.down
    requires var out := S.ReplyBytes(host, p, S.Handle(host, cfg, t, p, iface, env).1);
             out.Some? ==> Received(q, out.value)
    ensures var c' := M.PollStep(host, c, e);
            c'.state == M.Init && c'.waiting.None? && c'.network.address == 0 && !c'.network.up
  {
    hide Encode, ReplyHeader, GrantOptions, NackOptions, Type, Xid, Yiaddr, Chaddr, RequestedIp, ServerId, Offer;
    hide S.Relevant, IsValidDhcpMessage, M.Configure, Received;
    assert S.Handle(host, cfg, t, p, iface, env).1 == S.NakFrom(env.address.value);
    NackReads(host, p, env.address.value, q);
  }

  // ----- Every event keeps the invariant -----

  lemma SentIsOk(u: Setup, s: State, i: nat, r: M.Readings)
    requires Inv(u, s) && i < |s.clients|
    ensures forall f | f in Sent(u, i, s.clients[i], r) :: FrameOk(u, s.table, f) && f.port == PORT_BOOTP_SERVER
  {
    hide Encode, ClientHeader, DiscoverOptions, RequestOptions, Xid, Chaddr, Type, Yiaddr, M.Sends;
    var c := s.clients[i];
    forall f | f in Sent(u, i, c, r)
      ensures FrameOk(u, s.table, f) && f.port == PORT_BOOTP_SERVER
    {
      var xid, mac := u.xids(i, c.sent), u.stations[i].mac;
      forall p: Packet | Received(p, f.bytes)
        ensures Xid(u.host, p) == xid && Chaddr(p) == mac
      {
        match M.Sends(c, r)
        case Discover => DiscoverReads(u.host, xid, mac, p);
        case Request(d) => RequestReads(u.host, xid, mac, c.requestAddress, d, p);
        case Nothing =>
      }
    }
  }

  lemma DecidesKeepsInv(u: Setup, s: State, i: nat, r: M.Readings)
    requires Inv(u, s) && Enabled(u, s, Decides(i, r))
    ensures Inv(u, Next(u, s, Decides(i, r)))
  {
    hide Sent, FrameOk;
    SentIsOk(u, s, i, r);
  }

  lemma ReactKeepsOk(u: Setup, s: State, i: nat, p: Packet, e: M.Poll)
    requires i < |u.stations| && i < |s.clients| && ClientOk(u, s.table, i, s.clients[i])
    requires s.clients[i].waiting.Some? && e.Arrived?
    requires Type(p) == DHCPACK ==> Yiaddr(u.host, p) == Lookup(s.table, KeyOf(u, i))
    ensures ClientOk(u, s.table, i, M.React(u.host, s.clients[i], p, e))
  {
    hide Type, Yiaddr, ServerId, M.Configure, M.Remain;
    var c := s.clients[i];
    RemainKeeps(c, e.startedAt, e.currentTime);
    ConfigureSets(u.host, c, p, e.now1, e.now2, e.o);
    RemainKeeps(M.Configure(u.host, c, p, e.now1, e.now2, e.o).client.(waiting := c.waiting),
                e.startedAt, e.currentTime);
  }

  lemma RemainKeeps(c: M.Client, startedAt: M.Millis, currentTime: M.Millis)
    requires c.waiting.Some?
    ensures M.Remain(c, startedAt, currentTime).(waiting := c.waiting) == c
  {
  }

  /** Whether or not it succeeds, configuring either leaves the address alone or sets
      it to the one in the message. */
  lemma ConfigureSets(host: ByteOrder, c: M.Client, p: Packet, now1: M.Millis, now2: M.Millis, o: M.Outcomes)
    ensures var c' := M.Configure(host, c, p, now1, now2, o).client;
            && (c'.network.address == c.network.address || c'.network.address == Yiaddr(host, p))
            && c'.sent == c.sent && c'.lastXid == c.lastXid && c'.state == c.state
  {
    hide Yiaddr, M.DefaultT1, M.DefaultT2;
  }

  lemma HearsKeepsInv(u: Setup, s: State, i: nat, f: Frame, p: Packet, e: M.Poll)
    requires IdsApart(u) && Inv(u, s) && Enabled(u, s, Hears(i, f, p, e))
    ensures Inv(u, Next(u, s, Hears(i, f, p, e)))
  {
    hide M.React, Type, Yiaddr, Xid, IsValidDhcpMessage, M.Remain;
    var c := s.clients[i];
    RemainKeeps(c, e.startedAt, e.currentTime);
    assert FrameOk(u, s.table, f) && ClientOk(u, s.table, i, c);
    if M.Accepts(u.host, c, e.message) {
      assert u.xids(f.client, f.serial) == u.xids(i, c.sent - 1);
      assert u.stations[f.client] == u.stations[i];
      ReactKeepsOk(u, s, i, p, e);
    }
  }

  lemma WaitsKeepsInv(u: Setup, s: State, i: nat, e: M.Poll)
    requires Inv(u, s) && Enabled(u, s, Waits(i, e))
    ensures Inv(u, Next(u, s, Waits(i, e)))
  {
    hide M.React, M.Remain, FrameOk;
    var c := s.clients[i];
    if !e.TimedOut? {
      RemainKeeps(c, e.startedAt, e.currentTime);
    }
  }

  lemma FrameStaysOk(u: Setup, t: Table, t': Table, f: Frame)
    requires FrameOk(u, t, f) && S.Keeps(t, t')
    ensures FrameOk(u, t', f)
  {
    hide Type, Yiaddr, Xid, Chaddr;
  }

  lemma AnswerIsOk(u: Setup, s: State, f: Frame, p: Packet, env: S.Env)
    requires Inv(u, s) && Enabled(u, s, Serves(f, p, env))
    ensures var (t, reply) := S.Handle(u.host, u.server, s.table, p, f.link, env);
            forall g | g in Answer(u, f, p, reply) :: FrameOk(u, t, g)
  {
    hide Encode, ReplyHeader, GrantOptions, NackOptions, Xid, Chaddr, Type, Yiaddr;
    hide S.Handle, S.TermsOf, IsValidDhcpMessage;
    var (t, reply) := S.Handle(u.host, u.server, s.table, p, f.link, env);
    S.HandleKeeps(u.host, u.server, s.table, p, f.link, env);
    assert FrameOk(u, s.table, f);
    TermsDns(u.server, env);
    forall g | g in Answer(u, f, p, reply)
      ensures FrameOk(u, t, g)
    {
      forall q: Packet | Received(q, g.bytes)
        ensures Xid(u.host, q) == u.xids(f.client, f.serial)
        ensures Type(q) == DHCPACK ==>
                  Yiaddr(u.host, q) != 0 && Yiaddr(u.host, q) == Lookup(t, KeyOf(u, f.client))
      {
        match reply
        case OfferOf(a, terms) => GrantRoundTrip(u.host, p, DHCPOFFER, a, terms, q);
        case AckOf(a, terms) => GrantRoundTrip(u.host, p, DHCPACK, a, terms, q);
        case NakFrom(server) => NackReads(u.host, p, server, q);
        case Silence =>
      }
    }
  }

  lemma TermsDns(cfg: S.Config, env: S.Env)
    ensures env.address.Some? ==> S.TermsOf(cfg, env).dns == env.dns
  {
  }

  lemma ServesKeepsInv(u: Setup, s: State, f: Frame, p: Packet, env: S.Env)
    requires Inv(u, s) && Enabled(u, s, Serves(f, p, env))
    ensures Inv(u, Next(u, s, Serves(f, p, env)))
  {
    hide S.Handle, FrameOk, Answer;
    var (t, reply) := S.Handle(u.host, u.server, s.table, p, f.link, env);
    S.HandleKeeps(u.host, u.server, s.table, p, f.link, env);
    AnswerIsOk(u, s, f, p, env);
    forall g | g in s.net
      ensures FrameOk(u, t, g)
    {
      FrameStaysOk(u, s.table, t, g);
    }
  }

  lemma {:induction false} ExecKeepsInv(u: Setup, s: State, evs: seq<Event>)
    requires Initial(u, s) && IdsApart(u)
    ensures Inv(u, Exec(u, s, evs))
  {
    hide Next, Enabled;
    if evs == [] {
      hide FrameOk;
    } else {
      var before := Exec(u, s, evs[..|evs| - 1]);
      ExecKeepsInv(u, s, evs[..|evs| - 1]);
      var ev := evs[|evs| - 1];
      if Enabled(u, before, ev) {
        match ev
        case Decides(i, r) => DecidesKeepsInv(u, before, i, r);
        case Waits(i, e) => WaitsKeepsInv(u, before, i, e);
        case Hears(i, f, p, e) => HearsKeepsInv(u, before, i, f, p, e);
        case Serves(f, p, env) => ServesKeepsInv(u, before, f, p, env);
      }
    }
  }

  // ----- Safety -----

  lemma HandleKeepsExact(host: ByteOrder, cfg: S.Config, t: Table, p: Packet, iface: u32, env: S.Env)
    requires NoWrap(cfg.range) && Exact(host, cfg.range, t) && OnTrack(cfg.range, t)
    ensures var t' := S.Handle(host, cfg, t, p, iface, env).0;
            Exact(host, cfg.range, t') && OnTrack(cfg.range, t')
  {
    hide Offer, Exact, OnTrack, Type, RequestedIp, S.Relevant;
    var key := S.KeyOf(p, iface);
    OfferKeepsExact(host, cfg.range, t, key);
    OfferKeepsExact(host, cfg.range, Offer(host, cfg.range, t, key).0, key);
  }

  lemma {:induction false} ExecKeepsExact(u: Setup, s: State, evs: seq<Event>)
    requires Initial(u, s) && NoWrap(u.server.range)
    ensures Exact(u.host, u.server.range, Exec(u, s, evs).table) && OnTrack(u.server.range, Exec(u, s, evs).table)
  {
    hide Enabled, Exact, OnTrack, S.Handle;
    if evs == [] {
      ServeIsExact(u.host, u.server.range, []);
    } else {
      var before := Exec(u, s, evs[..|evs| - 1]);
      ExecKeepsExact(u, s, evs[..|evs| - 1]);
      var ev := evs[|evs| - 1];
      if Enabled(u, before, ev) && ev.Serves? {
        HandleKeepsExact(u.host, u.server, before.table, ev.p, ev.f.link, ev.env);
      }
    }
  }

  /** Protocol safety over all runs. If clients with different MAC addresses on a served
      link never share a transaction id, then whatever the network does every address
      on an interface is the server's lease for that client; and if the range stays
      clear of the top of the address space, clients with different keys never hold the
      same address. */
  lemma SafeInAllRuns(u: Setup, s: State, evs: seq<Event>)
    requires Initial(u, s) && IdsApart(u)
    ensures Safe(u, Exec(u, s, evs))
    ensures NoWrap(u.server.range) ==> Exclusive(u, Exec(u, s, evs))
  {
    hide FrameOk;
    var s' := Exec(u, s, evs);
    ExecKeepsInv(u, s, evs);
    assert forall i | 0 <= i < |s'.clients| :: ClientOk(u, s'.table, i, s'.clients[i]);
    if NoWrap(u.server.range) {
      ExecKeepsExact(u, s, evs);
      ExactIsDistinct(u.host, u.server.range, s'.table);
      SafeIsExclusive(u, s');
    }
  }

  lemma SafeIsExclusive(u: Setup, s: State)
    requires |s.clients| == |u.stations| && Safe(u, s) && Distinct(u.host, u.server.range, s.table.leases)
    ensures Exclusive(u, s)
  {
    hide Ntohl;
    forall i, j | 0 <= i < |s.clients| && 0 <= j < |s.clients| && KeyOf(u, i) != KeyOf(u, j)
      ensures s.clients[i].network.address == 0 || s.clients[i].network.address != s.clients[j].network.address
    {
      var a, b := KeyOf(u, i), KeyOf(u, j);
      if s.clients[i].network.address != 0 && s.clients[j].network.address != 0 {
        assert Lookup(s.table, a) != 0 && Lookup(s.table, b) != 0;
        assert s.table.leases[a] != s.table.leases[b];
      }
    }
  }

  // ----- Clients as they are: every process counts its messages from one -----

  /** The numbering of the source. */
  ghost predicate CountsFromOne(u: Setup)
  {
    forall i: nat, n: nat :: u.xids(i, n) == M.CounterXid(u.host)(n)
  }

  /** Two clients with different MAC addresses on a link the server serves. */
  ghost predicate Contended(u: Setup, a: nat, b: nat)
  {
    && a < |u.stations| && b < |u.stations|
    && u.stations[a].link == u.stations[b].link && u.stations[a].mac != u.stations[b].mac
    && Served(u, u.stations[a].link)
  }

  ghost predicate SafeAlways(u: Setup)
  {
    forall s: State, evs: seq<Event> :: Initial(u, s) ==> Safe(u, Exec(u, s, evs))
  }

  const BLANK: M.Client :=
    M.Client(M.Init, M.INITIAL_TIMEOUT, true, None, 0, 0, 0, 0, 0, 0, NO_INFO, M.Network(false, 0, 0, 0, 0))
  const FINE: M.Outcomes := M.Outcomes(true, true, true, true, true, true)

  function Hearing(p: Packet): M.Poll { M.Arrived(0, 0, Some(p), 0, 0, FINE) }

  /** The life of a client up to its address: two decisions, an offer, a decision, an
      acknowledgement. */
  lemma ClientStory(host: ByteOrder, c: M.Client, x0: u32, x1: u32, offer: Packet, ack: Packet)
    requires M.Starts(c)
    requires IsValidReply(host, offer, x0) && Type(offer) == DHCPOFFER
    requires IsValidReply(host, ack, x1) && Type(ack) == DHCPACK
    requires M.Configure(host, c, ack, 0, 0, FINE).ok
    ensures var c1 := M.Decide(c, M.CALM, x0);
            var c2 := M.Decide(c1, M.CALM, x0);
            && c1.waiting.None? && c1.sent == 0 && M.Sends(c, M.CALM) == M.Nothing
            && M.Sends(c1, M.CALM) == M.Discover
            && c2.waiting.Some? && c2.sent == 1 && c2.lastXid == x0
            && var c3 := M.PollStep(host, c2, Hearing(offer));
            && c3.waiting.None? && c3.sent == 1 && c3.requestAddress == Yiaddr(host, offer)
            && M.Sends(c3, M.CALM) == M.Request(ServerId(host, offer))
            && var c4 := M.Decide(c3, M.CALM, x1);
            && c4.waiting.Some? && c4.sent == 2 && c4.lastXid == x1
            && var c5 := M.PollStep(host, c4, Hearing(ack));
            c5.state == M.Bound && c5.network.address == Yiaddr(host, ack)
  {
    hide Type, Yiaddr, ServerId, Xid, IsValidDhcpMessage;
    var c1 := M.Decide(c, M.CALM, x0);
    var c2 := M.Decide(c1, M.CALM, x0);
    assert c2.state == M.Selecting && c2.nextTimeout == 4000 && c2.waiting == Some(4000);
    var c3 := M.PollStep(host, c2, Hearing(offer));
    assert c3.state == M.Requesting && c3.nextTimeout == 0;
    var c4 := M.Decide(c3, M.CALM, x1);
    assert c4.state == M.Requesting && c4.waiting == Some(4000);
    assert M.Configure(host, c4, ack, 0, 0, FINE).ok;
  }

  // ----- A run in which two of them collide -----

  ghost predicate Reaches(u: Setup, s: State, s': State)
    requires |s.clients| == |u.stations|
  {
    exists evs: seq<Event> :: Exec(u, s, evs) == s'
  }

  lemma ReachesNext(u: Setup, s: State, s': State, ev: Event)
    requires |s.clients| == |u.stations| == |s'.clients| && Reaches(u, s, s') && Enabled(u, s', ev)
    ensures Reaches(u, s, Next(u, s', ev))
  {
    hide Next, Enabled;
    var evs: seq<Event> :| Exec(u, s, evs) == s';
    assert (evs + [ev])[..|evs|] == evs;
    assert Exec(u, s, evs + [ev]) == Next(u, s', ev);
  }

  /** A reachable state with these leases and clients, in which these frames are on the
      network. */
  ghost predicate At(u: Setup, s0: State, s: State, t: Table, cs: seq<M.Client>, fs: set<Frame>)
  {
    && |s0.clients| == |u.stations| == |s.clients| && Reaches(u, s0, s)
    && s.table == t && s.clients == cs && fs <= s.net
  }

  lemma ClientDecides(u: Setup, s0: State, s: State, t: Table, cs: seq<M.Client>, fs: set<Frame>, i: nat)
    returns (s': State)
    requires At(u, s0, s, t, cs, fs) && i < |cs| && cs[i].waiting.None?
    ensures At(u, s0, s', t, cs[i := M.Decide(cs[i], M.CALM, u.xids(i, cs[i].sent))], fs + Sent(u, i, cs[i], M.CALM))
  {
    hide M.Decide, Sent, Reaches;
    ReachesNext(u, s0, s, Decides(i, M.CALM));
    s' := Next(u, s, Decides(i, M.CALM));
  }

  lemma ClientHears(u: Setup, s0: State, s: State, t: Table, cs: seq<M.Client>, fs: set<Frame>, i: nat,
                    f: Frame, p: Packet)
    returns (s': State)
    requires At(u, s0, s, t, cs, fs) && i < |cs| && cs[i].waiting.Some?
    requires f in fs && f.link == u.stations[i].link && f.port == PORT_BOOTP_CLIENT && Received(p, f.bytes)
    ensures At(u, s0, s', t, cs[i := M.PollStep(u.host, cs[i], Hearing(p))], fs)
  {
    hide M.PollStep, Received, Reaches;
    ReachesNext(u, s0, s, Hears(i, f, p, Hearing(p)));
    s' := Next(u, s, Hears(i, f, p, Hearing(p)));
  }

  lemma ServerServes(u: Setup, s0: State, s: State, t: Table, cs: seq<M.Client>, fs: set<Frame>, f: Frame, p: Packet)
    returns (s': State)
    requires At(u, s0, s, t, cs, fs)
    requires f in fs && f.port == PORT_BOOTP_SERVER && Received(p, f.bytes)
    ensures var (t', reply) := S.Handle(u.host, u.server, t, p, f.link, QUIET);
            At(u, s0, s', t', cs, fs + Answer(u, f, p, reply))
  {
    hide S.Handle, Received, Answer, Reaches;
    ReachesNext(u, s0, s, Serves(f, p, QUIET));
    s' := Next(u, s, Serves(f, p, QUIET));
  }

  /** An interface with the address 10.0.0.10, and no DNS servers. */
  const QUIET: S.Env := S.Env(Some(0x0A00_000A), [])

  /** The four messages of the exchange between the server and client a, each held by
      some message object. */
  datatype Exchange = Exchange(discover: Packet, offer: Packet, request: Packet, ack: Packet)

  ghost predicate Exchanged(u: Setup, mac: Mac, address: u32, x0: u32, x1: u32, e: Exchange)
  {
    var terms := S.TermsOf(u.server, QUIET);
    && Received(e.discover, Encode(u.host, ClientHeader(u.host, x0, mac), DiscoverOptions()))
    && Received(e.offer, Encode(u.host, ReplyHeader(u.host, e.discover, address),
                                     GrantOptions(u.host, DHCPOFFER, terms)))
    && Received(e.request, Encode(u.host, ClientHeader(u.host, x1, mac), RequestOptions(u.host, address, terms.server)))
    && Received(e.ack, Encode(u.host, ReplyHeader(u.host, e.request, address), GrantOptions(u.host, DHCPACK, terms)))
  }

  lemma MakeExchange(u: Setup, mac: Mac, address: u32, x0: u32, x1: u32) returns (e: Exchange)
    ensures Exchanged(u, mac, address, x0, x1, e)
  {
    hide ClientHeader, ReplyHeader, Store32, HeaderBytes, Holding, Received;
    var h, terms := u.host, S.TermsOf(u.server, QUIET);
    WireBound(DiscoverOptions());
    WireBound(RequestOptions(h, address, terms.server));
    WireBound(GrantOptions(h, DHCPOFFER, terms));
    WireBound(GrantOptions(h, DHCPACK, terms));
    var discover := Holding(Encode(h, ClientHeader(h, x0, mac), DiscoverOptions()));
    var request := Holding(Encode(h, ClientHeader(h, x1, mac), RequestOptions(h, address, terms.server)));
    e := Exchange(discover,
                  Holding(Encode(h, ReplyHeader(h, discover, address), GrantOptions(h, DHCPOFFER, terms))),
                  request,
                  Holding(Encode(h, ReplyHeader(h, request, address), GrantOptions(h, DHCPACK, terms))));
  }

  /** What everybody makes of the four messages. */
  lemma ExchangeReads(u: Setup, mac: Mac, address: u32, x0: u32, x1: u32, e: Exchange, c: M.Client)
    requires Exchanged(u, mac, address, x0, x1, e)
    ensures IsValidDhcpMessage(e.discover, OP_BOOTREQUEST) && Type(e.discover) == DHCPDISCOVER
                && Chaddr(e.discover) == mac
    ensures IsValidDhcpMessage(e.request, OP_BOOTREQUEST) && Type(e.request) == DHCPREQUEST && Chaddr(e.request) == mac
    ensures RequestedIp(u.host, e.request) == address
    ensures IsValidReply(u.host, e.offer, x0) && Type(e.offer) == DHCPOFFER && Yiaddr(u.host, e.offer) == address
    ensures ServerId(u.host, e.offer) == S.TermsOf(u.server, QUIET).server
    ensures IsValidReply(u.host, e.ack, x1) && Type(e.ack) == DHCPACK && Yiaddr(u.host, e.ack) == address
    ensures M.Configure(u.host, c, e.ack, 0, 0, FINE).ok
  {
    hide Encode, ClientHeader, ReplyHeader, RequestOptions, GrantOptions;
    hide Type, Xid, Chaddr, Yiaddr, IsValidDhcpMessage, RequestedIp, ServerId, Received;
    var terms := S.TermsOf(u.server, QUIET);
    DiscoverReads(u.host, x0, mac, e.discover);
    RequestReads(u.host, x1, mac, address, terms.server, e.request);
    GrantIsReply(u.host, e.discover, DHCPOFFER, address, terms, e.offer, c);
    GrantIsReply(u.host, e.request, DHCPACK, address, terms, e.ack, c);
  }

  lemma GrantIsReply(host: ByteOrder, source: Packet, kind: byte, address: u32, terms: Terms, p: Packet, c: M.Client)
    requires |terms.dns| <= 4
    requires Received(p, Encode(host, ReplyHeader(host, source, address), GrantOptions(host, kind, terms)))
    ensures IsValidReply(host, p, Xid(host, source)) && Type(p) == kind && Yiaddr(host, p) == address
    ensures ServerId(host, p) == terms.server && M.Configure(host, c, p, 0, 0, FINE).ok
  {
    hide Encode, ReplyHeader, GrantOptions, Type, Xid, Chaddr, Yiaddr, ServerId;
    GrantRoundTrip(host, source, kind, address, terms, p);
    assert OptionsSize(p) >= 4;
    GrantConfigures(host, p, terms, c);
  }

  lemma GrantConfigures(host: ByteOrder, p: Packet, terms: Terms, c: M.Client)
    requires ParseFrom(host, p, 4, NO_INFO) == Parsed(true, GrantInfo(host, terms)) && OptionsSize(p) >= 4
    ensures M.Configure(host, c, p, 0, 0, FINE).ok
  {
    hide M.DefaultT1, M.DefaultT2, Ntohl, GrantInfo;
    LeaseTimeArrives(host);
    GrantInfoFields(host, terms);
  }

  /** The server's part: it offers client a the first address and acknowledges it. */
  lemma ServerStory(u: Setup, key: Key, address: u32, x0: u32, x1: u32, e: Exchange, c: M.Client)
    requires Exchanged(u, key.mac, address, x0, x1, e) && Served(u, key.iface)
    requires Offer(u.host, u.server.range, EMPTY, key).1 == Granted(address)
    ensures var terms := S.TermsOf(u.server, QUIET);
            var (t1, r1) := S.Handle(u.host, u.server, EMPTY, e.discover, key.iface, QUIET);
            var (t2, r2) := S.Handle(u.host, u.server, t1, e.request, key.iface, QUIET);
            && r1 == S.OfferOf(address, terms) && r2 == S.AckOf(address, terms)
            && address != 0 && Lookup(t2, key) == address && forall other :: other != key ==> Lookup(t2, other) == 0
  {
    hide Offer, Type, Chaddr, RequestedIp, IsValidDhcpMessage, Exchanged, S.TermsOf;
    hide IsValidReply, M.Configure, Yiaddr, ServerId;
    ExchangeReads(u, key.mac, address, x0, x1, e, c);
    S.OfferKeeps(u.host, u.server.range, EMPTY, key);
    var t1 := Offer(u.host, u.server.range, EMPTY, key).0;
    OfferKnown(u.host, u.server.range, t1, key);
  }

  lemma SentDiscover(u: Setup, i: nat, c: M.Client)
    requires i < |u.stations| && M.Sends(c, M.CALM) == M.Discover
    ensures Sent(u, i, c, M.CALM)
            == {Frame(u.stations[i].link, PORT_BOOTP_SERVER,
                      Encode(u.host, ClientHeader(u.host, u.xids(i, c.sent), u.stations[i].mac), DiscoverOptions()),
                      i, c.sent)}
  {
    hide Encode, ClientHeader, DiscoverOptions, M.Sends;
  }

  lemma SentRequest(u: Setup, i: nat, c: M.Client, server: u32)
    requires i < |u.stations| && M.Sends(c, M.CALM) == M.Request(server)
    ensures Sent(u, i, c, M.CALM)
            == {Frame(u.stations[i].link, PORT_BOOTP_SERVER,
                      Encode(u.host, ClientHeader(u.host, u.xids(i, c.sent), u.stations[i].mac),
                             RequestOptions(u.host, c.requestAddress, server)), i, c.sent)}
  {
    hide Encode, ClientHeader, RequestOptions, M.Sends;
  }

  lemma AnswerGrant(u: Setup, f: Frame, p: Packet, kind: byte, address: u32, terms: Terms, reply: S.Reply)
    requires (kind == DHCPOFFER && reply == S.OfferOf(address, terms))
             || (kind == DHCPACK && reply == S.AckOf(address, terms))
    ensures Answer(u, f, p, reply)
            == {Frame(f.link, PORT_BOOTP_CLIENT,
                      Encode(u.host, ReplyHeader(u.host, p, address), GrantOptions(u.host, kind, terms)),
                      f.client, f.serial)}
  {
    hide Encode, ReplyHeader, GrantOptions;
  }

  /** The client's part, as the states it goes through. */
  function Searching(c: M.Client, x0: u32): M.Client { M.Decide(M.Decide(c, M.CALM, x0), M.CALM, x0) }
  function Asking(host: ByteOrder, c: M.Client, x0: u32, x1: u32, offer: Packet): M.Client
    requires Searching(c, x0).waiting.Some?
  {
    M.Decide(M.PollStep(host, Searching(c, x0), Hearing(offer)), M.CALM, x1)
  }

  /** Client a looks for servers. */
  lemma Searches(u: Setup, s0: State, s: State, t: Table, cs: seq<M.Client>, fs: set<Frame>, a: nat) returns (s': State)
    requires At(u, s0, s, t, cs, fs) && a < |cs| && M.Starts(cs[a])
    ensures At(u, s0, s', t, cs[a := Searching(cs[a], u.xids(a, 0))], fs + {DiscoverFrame(u, a)})
  {
    hide M.Decide, M.Sends, Sent, Reaches, Encode;
    var x0 := u.xids(a, 0);
    var c1 := M.Decide(cs[a], M.CALM, x0);
    FirstDecision(cs[a], x0);
    SentNothing(u, a, cs[a]);
    SentDiscover(u, a, c1);
    s' := ClientDecides(u, s0, s, t, cs, fs, a);
    s' := ClientDecides(u, s0, s', t, cs[a := c1], fs + {}, a);
    assert cs[a := c1][a := M.Decide(c1, M.CALM, x0)] == cs[a := Searching(cs[a], x0)];
  }

  lemma FirstDecision(c: M.Client, x0: u32)
    requires M.Starts(c)
    ensures c.waiting.None? && c.sent == 0 && M.Sends(c, M.CALM) == M.Nothing
    ensures var c1 := M.Decide(c, M.CALM, x0); c1.waiting.None? && c1.sent == 0 && M.Sends(c1, M.CALM) == M.Discover
  {
  }

  ghost function DiscoverFrame(u: Setup, a: nat): Frame
    requires a < |u.stations|
  {
    Frame(u.stations[a].link, PORT_BOOTP_SERVER,
          Encode(u.host, ClientHeader(u.host, u.xids(a, 0), u.stations[a].mac), DiscoverOptions()), a, 0)
  }

  lemma SentNothing(u: Setup, i: nat, c: M.Client)
    requires i < |u.stations| && M.Sends(c, M.CALM) == M.Nothing
    ensures Sent(u, i, c, M.CALM) == {}
  {
    hide M.Sends;
  }

  /** Client a, which was c when it started, takes an offer and asks for the address in
      it; `ack` is a reply that would bind it. */
  lemma Asks(u: Setup, s0: State, s: State, t: Table, cs: seq<M.Client>, fs: set<Frame>, a: nat, c: M.Client,
             f: Frame, offer: Packet, ack: Packet)
    returns (s': State)
    requires a < |u.stations| && M.Starts(c) && Searching(c, u.xids(a, 0)).waiting.Some?
    requires At(u, s0, s, t, cs, fs) && cs[a] == Searching(c, u.xids(a, 0))
    requires f in fs && f.link == u.stations[a].link && f.port == PORT_BOOTP_CLIENT && Received(offer, f.bytes)
    requires IsValidReply(u.host, offer, u.xids(a, 0)) && Type(offer) == DHCPOFFER
    requires IsValidReply(u.host, ack, u.xids(a, 1)) && Type(ack) == DHCPACK
    requires M.Configure(u.host, c, ack, 0, 0, FINE).ok
    ensures At(u, s0, s', t, cs[a := Asking(u.host, c, u.xids(a, 0), u.xids(a, 1), offer)],
               fs + {RequestFrame(u, a, Yiaddr(u.host, offer), ServerId(u.host, offer))})
    ensures var c4 := Asking(u.host, c, u.xids(a, 0), u.xids(a, 1), offer);
            && c4.waiting.Some?
            && var c5 := M.PollStep(u.host, c4, Hearing(ack));
            c5.state == M.Bound && c5.network.address == Yiaddr(u.host, ack)
  {
    hide M.Decide, M.PollStep, M.Sends, Sent, Reaches, RequestFrame, IsValidReply, Type, Received;
    hide M.Starts, M.Configure, Yiaddr, ServerId;
    ClientStory(u.host, c, u.xids(a, 0), u.xids(a, 1), offer, ack);
    var c3 := M.PollStep(u.host, cs[a], Hearing(offer));
    SentRequest(u, a, c3, ServerId(u.host, offer));
    s' := ClientHears(u, s0, s, t, cs, fs, a, f, offer);
    s' := ClientDecides(u, s0, s', t, cs[a := c3], fs, a);
    RequestFrameIs(u, a, c3.requestAddress, ServerId(u.host, offer));
    assert cs[a := c3][a := M.Decide(c3, M.CALM, u.xids(a, 1))]
      == cs[a := Asking(u.host, c, u.xids(a, 0), u.xids(a, 1), offer)];
  }

  ghost function RequestFrame(u: Setup, a: nat, address: u32, server: u32): Frame
    requires a < |u.stations|
  {
    Frame(u.stations[a].link, PORT_BOOTP_SERVER,
          Encode(u.host, ClientHeader(u.host, u.xids(a, 1), u.stations[a].mac),
                 RequestOptions(u.host, address, server)),
          a, 1)
  }

  lemma RequestFrameIs(u: Setup, a: nat, address: u32, server: u32)
    requires a < |u.stations|
    ensures RequestFrame(u, a, address, server)
            == Frame(u.stations[a].link, PORT_BOOTP_SERVER,
                     Encode(u.host, ClientHeader(u.host, u.xids(a, 1), u.stations[a].mac),
                            RequestOptions(u.host, address, server)), a, 1)
  {
  }

  /** The server offers client a, which is looking for servers, the first address. */
  lemma Offers(u: Setup, s0: State, s: State, cs: seq<M.Client>, fs: set<Frame>, a: nat, address: u32, e: Exchange)
    returns (s': State, f: Frame)
    requires a < |u.stations| && At(u, s0, s, EMPTY, cs, fs) && DiscoverFrame(u, a) in fs
    requires Served(u, u.stations[a].link) && Offer(u.host, u.server.range, EMPTY, KeyOf(u, a)).1 == Granted(address)
    requires Exchanged(u, u.stations[a].mac, address, u.xids(a, 0), u.xids(a, 1), e)
    ensures At(u, s0, s', OfferedTable(u, a, e), cs, fs + {f})
    ensures f.link == u.stations[a].link && f.port == PORT_BOOTP_CLIENT && Received(e.offer, f.bytes)
  {
    hide Encode, ClientHeader, ReplyHeader, GrantOptions, Offer, Reaches, Answer, S.Handle, S.TermsOf, Received;
    hide M.Starts;
    var fd := DiscoverFrame(u, a);
    ServerStory(u, KeyOf(u, a), address, u.xids(a, 0), u.xids(a, 1), e, BLANK);
    var terms := S.TermsOf(u.server, QUIET);
    AnswerGrant(u, fd, e.discover, DHCPOFFER, address, terms, S.OfferOf(address, terms));
    s' := ServerServes(u, s0, s, EMPTY, cs, fs, fd, e.discover);
    f := Frame(fd.link, PORT_BOOTP_CLIENT,
               Encode(u.host, ReplyHeader(u.host, e.discover, address), GrantOptions(u.host, DHCPOFFER, terms)), a, 0);
  }

  /** The server acknowledges the address that client a asks for. */
  lemma Acknowledges(u: Setup, s0: State, s: State, cs: seq<M.Client>, fs: set<Frame>, a: nat, address: u32,
                     e: Exchange)
    returns (s': State, f: Frame)
    requires a < |u.stations| && At(u, s0, s, OfferedTable(u, a, e), cs, fs)
    requires RequestFrame(u, a, address, S.TermsOf(u.server, QUIET).server) in fs
    requires Served(u, u.stations[a].link) && Offer(u.host, u.server.range, EMPTY, KeyOf(u, a)).1 == Granted(address)
    requires Exchanged(u, u.stations[a].mac, address, u.xids(a, 0), u.xids(a, 1), e)
    ensures At(u, s0, s', LeasedTable(u, a, e), cs, fs + {f})
    ensures f.link == u.stations[a].link && f.port == PORT_BOOTP_CLIENT && Received(e.ack, f.bytes)
  {
    hide Encode, ClientHeader, ReplyHeader, GrantOptions, RequestOptions, Offer, Reaches, Answer, S.Handle, S.TermsOf;
    hide M.Starts, Received;
    var terms := S.TermsOf(u.server, QUIET);
    var fr := RequestFrame(u, a, address, terms.server);
    ServerStory(u, KeyOf(u, a), address, u.xids(a, 0), u.xids(a, 1), e, BLANK);
    AnswerGrant(u, fr, e.request, DHCPACK, address, terms, S.AckOf(address, terms));
    s' := ServerServes(u, s0, s, OfferedTable(u, a, e), cs, fs, fr, e.request);
    f := Frame(fr.link, PORT_BOOTP_CLIENT,
               Encode(u.host, ReplyHeader(u.host, e.request, address), GrantOptions(u.host, DHCPACK, terms)), a, 1);
  }

  /** The table after the offer, and after the acknowledgement. */
  ghost function OfferedTable(u: Setup, a: nat, e: Exchange): Table
    requires a < |u.stations|
  {
    S.Handle(u.host, u.server, EMPTY, e.discover, u.stations[a].link, QUIET).0
  }

  ghost function LeasedTable(u: Setup, a: nat, e: Exchange): Table
    requires a < |u.stations|
  {
    S.Handle(u.host, u.server, OfferedTable(u, a, e), e.request, u.stations[a].link, QUIET).0
  }

  /** Any client that the server serves can get an address: from every initial state a
      run leads to one in which it is Bound with its own lease. */
  lemma GetsAddress(u: Setup, s0: State, a: nat) returns (s: State)
    requires Initial(u, s0) && a < |u.stations| && Served(u, u.stations[a].link) && CanServe(u.server.range)
    ensures |s.clients| == |u.stations| && Reaches(u, s0, s)
    ensures s.clients[a].state == M.Bound
    ensures s.clients[a].network.address == Lookup(s.table, KeyOf(u, a)) != 0
  {
    hide M.Decide, M.PollStep, M.Starts, Offer, Reaches, S.Handle, S.TermsOf, IsValidReply, Received, Exchanged;
    hide Type, Yiaddr, ServerId, M.Configure, Searching, Asking, DiscoverFrame, RequestFrame, OfferedTable, LeasedTable;
    hide CanServe, IsValidDhcpMessage, Chaddr, RequestedIp;
    FirstIsServed(u.host, u.server.range, KeyOf(u, a));
    var address := Offer(u.host, u.server.range, EMPTY, KeyOf(u, a)).1.address;
    var x0, x1, cs := u.xids(a, 0), u.xids(a, 1), s0.clients;
    var e := MakeExchange(u, u.stations[a].mac, address, x0, x1);
    ExchangeReads(u, u.stations[a].mac, address, x0, x1, e, cs[a]);
    LeaseGoesTo(u, a, address, e);
    StartsAt(u, s0);
    SearchingWaits(cs[a], x0);
    s := Searches(u, s0, s0, EMPTY, cs, {}, a);
    var fs, cs2 := {} + {DiscoverFrame(u, a)}, cs[a := Searching(cs[a], x0)];
    var f: Frame;
    s, f := Offers(u, s0, s, cs2, fs, a, address, e);
    s := Asks(u, s0, s, OfferedTable(u, a, e), cs2, fs + {f}, a, cs[a], f, e.offer, e.ack);
    var c4 := Asking(u.host, cs[a], x0, x1, e.offer);
    fs := fs + {f} + {RequestFrame(u, a, address, S.TermsOf(u.server, QUIET).server)};
    s, f := Acknowledges(u, s0, s, cs2[a := c4], fs, a, address, e);
    s := ClientHears(u, s0, s, LeasedTable(u, a, e), cs2[a := c4], fs + {f}, a, f, e.ack);
  }

  /** Who holds what after the exchange. */
  lemma LeaseGoesTo(u: Setup, a: nat, address: u32, e: Exchange)
    requires a < |u.stations| && Served(u, u.stations[a].link)
    requires Offer(u.host, u.server.range, EMPTY, KeyOf(u, a)).1 == Granted(address)
    requires Exchanged(u, u.stations[a].mac, address, u.xids(a, 0), u.xids(a, 1), e)
    ensures var t := LeasedTable(u, a, e);
            && address != 0 && Lookup(t, KeyOf(u, a)) == address
            && forall other :: other != KeyOf(u, a) ==> Lookup(t, other) == 0
  {
    hide Offer, S.Handle, S.TermsOf, Exchanged;
    ServerStory(u, KeyOf(u, a), address, u.xids(a, 0), u.xids(a, 1), e, BLANK);
  }

  /** The counterexample. Both clients broadcast their first message as number one, so
      both take the offer meant for a; both ask for it as number two, and both take the
      acknowledgement. Client b ends up with an address that is a's lease. */
  lemma Collision(u: Setup, s0: State, a: nat, b: nat, address: u32) returns (s: State)
    requires Initial(u, s0) && CountsFromOne(u) && Contended(u, a, b)
    requires Offer(u.host, u.server.range, EMPTY, KeyOf(u, a)).1 == Granted(address)
    ensures |s.clients| == |u.stations| && Reaches(u, s0, s) && !Safe(u, s) && !Exclusive(u, s)
  {
    hide M.Decide, M.PollStep, M.Starts, Offer, Reaches, S.Handle, S.TermsOf, IsValidReply, Received, Exchanged;
    hide Type, Yiaddr, ServerId, M.Configure, Searching, Asking, DiscoverFrame, RequestFrame, OfferedTable, LeasedTable;
    hide IsValidDhcpMessage, Chaddr, RequestedIp, M.CounterXid;
    var x0, x1, cs := u.xids(a, 0), u.xids(a, 1), s0.clients;
    assert x0 == u.xids(b, 0) && x1 == u.xids(b, 1);
    var e := MakeExchange(u, u.stations[a].mac, address, x0, x1);
    ExchangeReads(u, u.stations[a].mac, address, x0, x1, e, cs[a]);
    ExchangeReads(u, u.stations[a].mac, address, x0, x1, e, cs[b]);
    LeaseGoesTo(u, a, address, e);
    StartsAt(u, s0);
    SearchingWaits(cs[a], x0);
    SearchingWaits(cs[b], x0);

    s := Searches(u, s0, s0, EMPTY, cs, {}, a);
    var fs := {} + {DiscoverFrame(u, a)};
    var cs2 := cs[a := Searching(cs[a], x0)];
    s := Searches(u, s0, s, EMPTY, cs2, fs, b);
    fs := fs + {DiscoverFrame(u, b)};
    cs2 := cs2[b := Searching(cs[b], x0)];
    var f: Frame;
    s, f := Offers(u, s0, s, cs2, fs, a, address, e);
    fs := fs + {f};
    s := Asks(u, s0, s, OfferedTable(u, a, e), cs2, fs, b, cs[b], f, e.offer, e.ack);
    fs := fs + {RequestFrame(u, b, address, S.TermsOf(u.server, QUIET).server)};
    var cb4 := Asking(u.host, cs[b], x0, x1, e.offer);
    cs2 := cs2[b := cb4];
    s := Asks(u, s0, s, OfferedTable(u, a, e), cs2, fs, a, cs[a], f, e.offer, e.ack);
    fs := fs + {RequestFrame(u, a, address, S.TermsOf(u.server, QUIET).server)};
    var ca4 := Asking(u.host, cs[a], x0, x1, e.offer);
    cs2 := cs2[a := ca4];
    s, f := Acknowledges(u, s0, s, cs2, fs, a, address, e);
    fs := fs + {f};
    s := ClientHears(u, s0, s, LeasedTable(u, a, e), cs2, fs, a, f, e.ack);
    cs2 := cs2[a := M.PollStep(u.host, ca4, Hearing(e.ack))];
    s := ClientHears(u, s0, s, LeasedTable(u, a, e), cs2, fs, b, f, e.ack);
    assert KeyOf(u, a) != KeyOf(u, b);
    assert s.clients[a].network.address == address && s.clients[b].network.address == address;
  }

  lemma SearchingWaits(c: M.Client, x0: u32)
    requires M.Starts(c)
    ensures Searching(c, x0).waiting.Some?
  {
  }

  lemma StartsAt(u: Setup, s0: State)
    requires Initial(u, s0)
    ensures At(u, s0, s0, EMPTY, s0.clients, {})
    ensures forall i | 0 <= i < |s0.clients| :: M.Starts(s0.clients[i])
  {
    assert Exec(u, s0, []) == s0;
  }

  /** Safety of the program as it is: every run is safe exactly when the server cannot
      serve anybody, or no two clients with different MAC addresses share a link that it
      serves. */
  lemma SafeIffUncontended(u: Setup)
    requires CountsFromOne(u)
    ensures SafeAlways(u) <==> !CanServe(u.server.range) || forall a: nat, b: nat :: !Contended(u, a, b)
  {
    hide Safe, Offer, M.Starts, M.CounterXid, CanServe;
    if !CanServe(u.server.range) {
      forall s: State, evs: seq<Event> | Initial(u, s)
        ensures Safe(u, Exec(u, s, evs))
      {
        ExecStaysIdle(u, s, evs);
        IdleIsSafe(u, Exec(u, s, evs));
      }
    } else if a: nat, b: nat :| Contended(u, a, b) {
      var s0 := InitialState(u);
      var key := KeyOf(u, a);
      FirstIsServed(u.host, u.server.range, key);
      var s := Collision(u, s0, a, b, Offer(u.host, u.server.range, EMPTY, key).1.address);
      var evs: seq<Event> :| Exec(u, s0, evs) == s;
      assert !Safe(u, Exec(u, s0, evs));
    } else {
      UncontendedIsApart(u);
      forall s: State, evs: seq<Event> | Initial(u, s)
        ensures Safe(u, Exec(u, s, evs))
      {
        SafeInAllRuns(u, s, evs);
      }
    }
  }

  ghost predicate ExclusiveAlways(u: Setup)
  {
    forall s: State, evs: seq<Event> :: Initial(u, s) ==> Exclusive(u, Exec(u, s, evs))
  }

  /** Under the same condition, and under no other, clients with different keys never hold
      the same address, if the range stays clear of the top of the address space. */
  lemma ExclusiveIffUncontended(u: Setup)
    requires CountsFromOne(u) && NoWrap(u.server.range)
    ensures ExclusiveAlways(u) <==> !CanServe(u.server.range) || forall a: nat, b: nat :: !Contended(u, a, b)
  {
    hide Exclusive, Safe, Offer, M.Starts, M.CounterXid, CanServe, NoWrap;
    if !CanServe(u.server.range) {
      forall s: State, evs: seq<Event> | Initial(u, s)
        ensures Exclusive(u, Exec(u, s, evs))
      {
        ExecStaysIdle(u, s, evs);
        IdleIsSafe(u, Exec(u, s, evs));
      }
    } else if a: nat, b: nat :| Contended(u, a, b) {
      var s0 := InitialState(u);
      FirstIsServed(u.host, u.server.range, KeyOf(u, a));
      var s := Collision(u, s0, a, b, Offer(u.host, u.server.range, EMPTY, KeyOf(u, a)).1.address);
      var evs: seq<Event> :| Exec(u, s0, evs) == s;
      assert !Exclusive(u, Exec(u, s0, evs));
    } else {
      UncontendedIsApart(u);
      forall s: State, evs: seq<Event> | Initial(u, s)
        ensures Exclusive(u, Exec(u, s, evs))
      {
        SafeInAllRuns(u, s, evs);
      }
    }
  }

  /** A network in which nobody has an address or is sent an acknowledgement. */
  ghost predicate Idle(u: Setup, s: State)
  {
    && |s.clients| == |u.stations| && Barren(u.server.range, s.table)
    && (forall i | 0 <= i < |s.clients| :: s.clients[i].network.address == 0)
    && (forall f, p: Packet {:trigger f in s.net, Received(p, f.bytes)} ::
          f in s.net && f.port == PORT_BOOTP_CLIENT && Received(p, f.bytes) ==> Type(p) != DHCPACK)
  }

  lemma IdleIsSafe(u: Setup, s: State)
    requires Idle(u, s)
    ensures Safe(u, s) && Exclusive(u, s)
  {
    hide Barren, Type, Received;
  }

  lemma UnacknowledgedKeepsAddress(host: ByteOrder, c: M.Client, e: M.Poll)
    requires c.waiting.Some? && c.network.address == 0
    requires e.Arrived? && e.message.Some? ==> Type(e.message.value) != DHCPACK
    ensures M.PollStep(host, c, e).network.address == 0
  {
    hide Type, Yiaddr, ServerId, M.Configure, IsValidReply;
  }

  lemma {:induction false} ExecStaysIdle(u: Setup, s: State, evs: seq<Event>)
    requires Initial(u, s) && !CanServe(u.server.range)
    ensures Idle(u, Exec(u, s, evs))
  {
    hide Type, Received, Enabled, Next, CanServe, Barren;
    if evs == [] {
      StartsBarren(u.server.range);
    } else {
      var before := Exec(u, s, evs[..|evs| - 1]);
      ExecStaysIdle(u, s, evs[..|evs| - 1]);
      var ev := evs[|evs| - 1];
      if Enabled(u, before, ev) {
        StepStaysIdle(u, before, ev);
      }
    }
  }

  lemma StartsBarren(r: Range)
    requires !CanServe(r)
    ensures Barren(r, EMPTY)
  {
  }

  lemma StepStaysIdle(u: Setup, s: State, ev: Event)
    requires Idle(u, s) && Enabled(u, s, ev)
    ensures Idle(u, Next(u, s, ev))
  {
    hide Type, Received, Barren, S.Handle, M.PollStep, M.Act, M.Sends, Encode;
    match ev
    case Decides(i, r) =>
      DecideKeepsAddress(s.clients[i], r, u.xids(i, s.clients[i].sent));
    case Waits(i, e) =>
      UnacknowledgedKeepsAddress(u.host, s.clients[i], e);
    case Hears(i, f, p, e) =>
      UnacknowledgedKeepsAddress(u.host, s.clients[i], e);
    case Serves(f, p, env) =>
      S.HandleStaysBarren(u.host, u.server, s.table, p, f.link, env);
      var reply := S.Handle(u.host, u.server, s.table, p, f.link, env).1;
      forall g, q: Packet | g in Answer(u, f, p, reply) && Received(q, g.bytes)
        ensures Type(q) != DHCPACK
      {
        NackReads(u.host, p, reply.server, q);
      }
  }

  lemma DecideKeepsAddress(c: M.Client, r: M.Readings, xid: u32)
    ensures M.Decide(c, r, xid).network == c.network
  {
  }

  lemma UncontendedIsApart(u: Setup)
    requires forall a: nat, b: nat :: !Contended(u, a, b)
    ensures IdsApart(u)
  {
    forall i: nat, j: nat, m: nat, n: nat |
      i < |u.stations| && j < |u.stations| && u.stations[i].link == u.stations[j].link && Served(u, u.stations[i].link)
      && u.xids(i, m) == u.xids(j, n)
      ensures u.stations[i].mac == u.stations[j].mac
    {
      assert !Contended(u, i, j);
    }
  }

  lemma InitialState(u: Setup) returns (s: State)
    ensures Initial(u, s)
  {
    s := State(EMPTY, seq(|u.stations|, _ => BLANK), {});
  }
}
