/** The message handling of `server/dhcpserver.cpp`. */
module Server {
  import opened Bytes
  import opened Messages
  import opened Builder
  import opened Allocator

  /** What the server was started with. */
  datatype Config = Config(range: Range, netmask: u32, gateway: u32, excluded: u32)

  /** What the system answers while a message is handled: the address of the interface,
      if it can be found, and the DNS servers. */
  datatype Env = Env(address: Option<u32>, dns: seq<u32>)

  datatype Reply =
    | Silence
    | OfferOf(address: u32, terms: Terms)
    | AckOf(address: u32, terms: Terms)
    | NakFrom(server: u32)

  function TermsOf(cfg: Config, env: Env): Terms
    requires env.address.Some?
  {
    Terms(env.address.value, cfg.netmask, cfg.gateway, env.dns)
  }

  function SendDhcpOffer(host: ByteOrder, cfg: Config, t: Table, key: Key, env: Env): (Table, Reply)
  {
    var (t, o) := Offer(host, cfg.range, t, key);
    (t, if o.Granted? && env.address.Some? then OfferOf(o.address, TermsOf(cfg, env)) else Silence)
  }

  function SendAck(host: ByteOrder, cfg: Config, t: Table, key: Key, env: Env): (Table, Reply)
  {
    var (t, o) := Offer(host, cfg.range, t, key);
    (t, if o.Granted? && env.address.Some? then AckOf(o.address, TermsOf(cfg, env)) else Silence)
  }

  function SendNack(env: Env): Reply
  {
    if env.address.Some? then NakFrom(env.address.value) else Silence
  }

  function KeyOf(p: Packet, iface: u32): Key { Key(iface, Chaddr(p)) }

  /** Whether run looks at the type of a message. */
  predicate Relevant(cfg: Config, p: Packet, iface: u32)
  {
    iface != 0 && iface != cfg.excluded && IsValidDhcpMessage(p, OP_BOOTREQUEST)
  }

  /** One message in run. isValidDhcpRequest asks the allocator, and sendAck asks it
      again. A server that hangs handles nothing any more. */
  function Handle(host: ByteOrder, cfg: Config, t: Table, p: Packet, iface: u32, env: Env): (Table, Reply)
  {
    if t.hung || !Relevant(cfg, p, iface) then (t, Silence)
    else
      var key := KeyOf(p, iface);
      if Type(p) == DHCPDISCOVER then SendDhcpOffer(host, cfg, t, key, env)
      else if Type(p) == DHCPREQUEST then
        var (t, o) := Offer(host, cfg.range, t, key);
        if o.Hangs? then (t, Silence)
        else if o.Granted? && RequestedIp(host, p) == o.address then SendAck(host, cfg, t, key, env)
        else (t, SendNack(env))
      else (t, Silence)
  }

  /** The bytes of a reply, if there is one. */
  function ReplyBytes(host: ByteOrder, p: Packet, r: Reply): Option<seq<byte>>
  {
    match r
    case Silence => None
    case OfferOf(a, t) => Some(Encode(host, ReplyHeader(host, p, a), GrantOptions(host, DHCPOFFER, t)))
    case AckOf(a, t) => Some(Encode(host, ReplyHeader(host, p, a), GrantOptions(host, DHCPACK, t)))
    case NakFrom(s) => Some(Encode(host, ReplyHeader(host, p, 0), NackOptions(host, s)))
  }

  datatype Incoming = Incoming(p: Packet, iface: u32, env: Env)

  function HandleAll(host: ByteOrder, cfg: Config, t: Table, ms: seq<Incoming>): Table
  {
    if ms == [] then t
    else
      var m := ms[|ms| - 1];
      Handle(host, cfg, HandleAll(host, cfg, t, ms[..|ms| - 1]), m.p, m.iface, m.env).0
  }

  // ----- Leases are kept -----

  /** Every lease of t is a lease of t'. */
  ghost predicate Keeps(t: Table, t': Table)
  {
    forall key | Lookup(t, key) != 0 :: Lookup(t', key) == Lookup(t, key)
  }

  /** Asking for an address never changes another key's lease, and never a key's own
      once it has one; a granted address is nonzero and is the key's lease. */
  lemma OfferKeeps(host: ByteOrder, r: Range, t: Table, key: Key)
    ensures Keeps(t, Offer(host, r, t, key).0)
    ensures var (t', o) := Offer(host, r, t, key);
            && (o.Granted? ==> o.address != 0 && o.address == Lookup(t', key))
            && (!o.Granted? ==> Lookup(t', key) == 0)
            && (t'.hung <==> t.hung || o.Hangs?)
    ensures forall other :: other != key ==> Lookup(Offer(host, r, t, key).0, other) == Lookup(t, other)
  {
    hide Htonl, Usable;
    if Lookup(t, key) == 0 {
      SkipUsable(Wrap32(r.first + t.offset), t.offset);
      HtonlZero(host, Skip(Wrap32(r.first + t.offset), t.offset).next);
    }
  }

  lemma {:induction false} SkipUsable(next: u32, offset: u32)
    ensures Usable(Skip(next, offset).next) && Skip(next, offset).next != 0
    decreases if next % 0x100 == 0xFF then 2 else if next % 0x100 == 0 then 1 else 0
  {
    if !Usable(next) {
      SkipUsable(Wrap32(next + 1), Wrap32(offset + 1));
    }
  }

  lemma HandleKeeps(host: ByteOrder, cfg: Config, t: Table, p: Packet, iface: u32, env: Env)
    ensures Keeps(t, Handle(host, cfg, t, p, iface, env).0)
    ensures var (t', reply) := Handle(host, cfg, t, p, iface, env);
            && (reply.OfferOf? || reply.AckOf? ==>
                  reply.address != 0 && reply.address == Lookup(t', KeyOf(p, iface)) && env.address.Some?
                  && reply.terms == TermsOf(cfg, env))
            && (!reply.Silence? ==> Relevant(cfg, p, iface))
  {
    hide Offer, Relevant, Type, RequestedIp;
    var key := KeyOf(p, iface);
    OfferKeeps(host, cfg.range, t, key);
    OfferKeeps(host, cfg.range, Offer(host, cfg.range, t, key).0, key);
  }

  lemma {:induction false} HandleAllKeeps(host: ByteOrder, cfg: Config, t: Table, ms: seq<Incoming>)
    ensures Keeps(t, HandleAll(host, cfg, t, ms))
  {
    hide Handle;
    if ms != [] {
      var before := ms[..|ms| - 1];
      var m := ms[|ms| - 1];
      HandleAllKeeps(host, cfg, t, before);
      HandleKeeps(host, cfg, HandleAll(host, cfg, t, before), m.p, m.iface, m.env);
    }
  }

  /** Offer stability. Once the server has offered an address to a key, then after any
      further messages from anyone a request from that key is acknowledged with the
      offered address if it asks for it, and is denied if it asks for another or none. */
  lemma OfferIsStable(host: ByteOrder, cfg: Config, t: Table, p0: Packet, iface: u32, env0: Env,
                      ms: seq<Incoming>, p: Packet, env: Env)
    requires Handle(host, cfg, t, p0, iface, env0).1.OfferOf?
    requires Relevant(cfg, p, iface) && Type(p) == DHCPREQUEST && Chaddr(p) == Chaddr(p0) && env.address.Some?
    requires !HandleAll(host, cfg, Handle(host, cfg, t, p0, iface, env0).0, ms).hung
    ensures var (t0, offer) := Handle(host, cfg, t, p0, iface, env0);
            Handle(host, cfg, HandleAll(host, cfg, t0, ms), p, iface, env).1
            == if RequestedIp(host, p) == offer.address then AckOf(offer.address, TermsOf(cfg, env))
               else NakFrom(env.address.value)
  {
    hide Offer, Relevant, Type, RequestedIp, Chaddr;
    var t0 := Handle(host, cfg, t, p0, iface, env0).0;
    HandleKeeps(host, cfg, t, p0, iface, env0);
    HandleAllKeeps(host, cfg, t0, ms);
    OfferKnown(host, cfg.range, HandleAll(host, cfg, t0, ms), KeyOf(p, iface));
  }

  /** A server that moves past unusable addresses never hangs. */
  lemma {:induction false} RecomputingNeverHangs(host: ByteOrder, cfg: Config, t: Table, ms: seq<Incoming>)
    requires cfg.range.loop.Recomputing? && !t.hung
    ensures !HandleAll(host, cfg, t, ms).hung
  {
    hide Skip, Relevant, Type, RequestedIp;
    if ms != [] {
      RecomputingNeverHangs(host, cfg, t, ms[..|ms| - 1]);
    }
  }

  /** Every table a server reaches by handling messages is reached by a sequence of
      allocator calls, so what Allocator proves of those holds of servers. */
  lemma {:induction false} HandlesAreCalls(host: ByteOrder, cfg: Config, ms: seq<Incoming>)
    ensures exists keys: seq<Key> :: HandleAll(host, cfg, EMPTY, ms) == Serve(host, cfg.range, keys)
  {
    hide Offer, Relevant, Type, RequestedIp;
    if ms == [] {
      assert HandleAll(host, cfg, EMPTY, ms) == Serve(host, cfg.range, []);
    } else {
      var before := ms[..|ms| - 1];
      var m := ms[|ms| - 1];
      HandlesAreCalls(host, cfg, before);
      var t := HandleAll(host, cfg, EMPTY, before);
      var keys: seq<Key> :| t == Serve(host, cfg.range, keys);
      var key := KeyOf(m.p, m.iface);
      var t1 := Offer(host, cfg.range, t, key).0;
      ServeSnoc(host, cfg.range, keys, key);
      ServeSnoc(host, cfg.range, keys + [key], key);
      var t' := Handle(host, cfg, t, m.p, m.iface, m.env).0;
      OfferKeeps(host, cfg.range, t, key);
      assert t' == t || t' == t1 || (!t1.hung && t' == Offer(host, cfg.range, t1, key).0);
      assert t' == Serve(host, cfg.range, keys) || t' == Serve(host, cfg.range, keys + [key])
        || t' == Serve(host, cfg.range, keys + [key] + [key]);
    }
  }

  /** So in every reachable state of a server the k-th client to be served holds the
      k-th usable address, and no two clients hold the same one. */
  lemma ServersAreExact(host: ByteOrder, cfg: Config, ms: seq<Incoming>)
    requires NoWrap(cfg.range)
    ensures Exact(host, cfg.range, HandleAll(host, cfg, EMPTY, ms))
    ensures Distinct(host, cfg.range, HandleAll(host, cfg, EMPTY, ms).leases)
  {
    hide Exact, Distinct;
    HandlesAreCalls(host, cfg, ms);
    var keys: seq<Key> :| HandleAll(host, cfg, EMPTY, ms) == Serve(host, cfg.range, keys);
    ServeIsExact(host, cfg.range, keys);
    ExactIsDistinct(host, cfg.range, Serve(host, cfg.range, keys));
  }

  /** And the other way round: what calls on a served interface lead to, clients on it can
      bring about by looking for servers. */
  lemma {:induction false} CallsAreHandles(host: ByteOrder, cfg: Config, keys: seq<Key>, iface: u32)
    requires OnInterface(keys, iface) && iface != 0 && iface != cfg.excluded
    ensures exists ms: seq<Incoming> :: HandleAll(host, cfg, EMPTY, ms) == Serve(host, cfg.range, keys)
  {
    hide Offer, Handle;
    if keys == [] {
      assert HandleAll(host, cfg, EMPTY, []) == Serve(host, cfg.range, keys);
    } else {
      var before, key := keys[..|keys| - 1], keys[|keys| - 1];
      CallsAreHandles(host, cfg, before, iface);
      var ms: seq<Incoming> :| HandleAll(host, cfg, EMPTY, ms) == Serve(host, cfg.range, before);
      var m := Looking(host, cfg, HandleAll(host, cfg, EMPTY, ms), key);
      assert (ms + [m])[..|ms|] == ms;
      assert HandleAll(host, cfg, EMPTY, ms + [m]) == Serve(host, cfg.range, keys);
    }
  }

  /** The first message of a client, as the server receives it. */
  lemma Looking(host: ByteOrder, cfg: Config, t: Table, key: Key) returns (m: Incoming)
    requires key.iface != 0 && key.iface != cfg.excluded
    ensures Handle(host, cfg, t, m.p, m.iface, m.env).0 == if t.hung then t else Offer(host, cfg.range, t, key).0
  {
    hide Encode, HeaderBytes, Holding, Received, Offer, Xid, Chaddr, IsValidDhcpMessage, Type;
    var h, opts := ClientHeader(host, 0, key.mac), DiscoverOptions();
    WireBound(opts);
    EncodeSize(host, h, opts);
    var p := Holding(Encode(host, h, opts));
    DecodesEncoded(host, h, opts, p);
    FirstAt(opts, OPT_MESSAGE_TYPE, 0);
    TypeFrom(p, opts, DHCPDISCOVER);
    m := Incoming(p, key.iface, Env(None, []));
  }

  /** When a server with the loop as described is safe from its clients, and when one with
      the loop as written cannot be brought to hang: in terms of messages, on any
      interface that is served. */
  lemma ServersDistinctIffNoWrap(host: ByteOrder, cfg: Config, iface: u32)
    requires cfg.range.loop.Recomputing? && cfg.range.last > 0 && iface != 0 && iface != cfg.excluded
    ensures (forall ms: seq<Incoming> :: Distinct(host, cfg.range, HandleAll(host, cfg, EMPTY, ms).leases))
            <==> NoWrap(cfg.range)
  {
    hide Distinct, Exact, OnInterface;
    if NoWrap(cfg.range) {
      forall ms: seq<Incoming>
        ensures Distinct(host, cfg.range, HandleAll(host, cfg, EMPTY, ms).leases)
      {
        ServersAreExact(host, cfg, ms);
      }
    } else {
      DistinctIffNoWrap(host, cfg.range, iface);
      var keys: seq<Key> :| OnInterface(keys, iface) && !Distinct(host, cfg.range, Serve(host, cfg.range, keys).leases);
      CallsAreHandles(host, cfg, keys, iface);
    }
  }

  lemma ServersHangIffSkips(host: ByteOrder, cfg: Config, iface: u32)
    requires cfg.range.loop.AsWritten? && iface != 0 && iface != cfg.excluded
    ensures (forall ms: seq<Incoming> :: !HandleAll(host, cfg, EMPTY, ms).hung) <==> NothingToSkip(cfg.range)
  {
    hide OnInterface, NothingToSkip;
    if NothingToSkip(cfg.range) {
      forall ms: seq<Incoming>
        ensures !HandleAll(host, cfg, EMPTY, ms).hung
      {
        HandlesAreCalls(host, cfg, ms);
        var keys: seq<Key> :| HandleAll(host, cfg, EMPTY, ms) == Serve(host, cfg.range, keys);
        ServesWithoutHanging(host, cfg.range, keys);
      }
    } else {
      HangsIffSkips(host, cfg.range, iface);
      var keys: seq<Key> :| OnInterface(keys, iface) && Serve(host, cfg.range, keys).hung;
      CallsAreHandles(host, cfg, keys, iface);
    }
  }

  lemma HandleStaysBarren(host: ByteOrder, cfg: Config, t: Table, p: Packet, iface: u32, env: Env)
    requires Barren(cfg.range, t)
    ensures Barren(cfg.range, Handle(host, cfg, t, p, iface, env).0)
    ensures var reply := Handle(host, cfg, t, p, iface, env).1; reply.Silence? || reply.NakFrom?
  {
    hide Offer, Relevant, Type, RequestedIp, NothingLeft, Wrap32;
    if !t.hung {
      var key := KeyOf(p, iface);
      BarrenOffers(host, cfg.range, t, key);
      OfferKeeps(host, cfg.range, t, key);
    }
  }
}
