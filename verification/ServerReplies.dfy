/** What a server answers, as whoever receives the bytes reads it. */
module ServerReplies {
  import opened Bytes
  import opened Messages
  import opened Builder
  import opened Configuration
  import opened Factories
  import opened Allocator
  import opened Server

  /** The bytes that go out for a message, if any. */
  function AnswerTo(host: ByteOrder, cfg: Config, t: Table, p: Packet, iface: u32, env: Env): Option<seq<byte>>
  {
    ReplyBytes(host, p, Handle(host, cfg, t, p, iface, env).1)
  }

  /** A message that the allocator is asked about: a DISCOVER or REQUEST from a known
      interface that is not excluded. */
  predicate Counts(cfg: Config, t: Table, p: Packet, iface: u32)
  {
    !t.hung && iface != 0 && iface != cfg.excluded && IsValidDhcpMessage(p, 1) && Type(p) in {1, 3}
  }

  /** What the allocator says to its sender. */
  function Verdict(host: ByteOrder, cfg: Config, t: Table, p: Packet, iface: u32): (Table, Outcome)
  {
    Offer(host, cfg.range, t, Key(iface, p.mem[28..34]))
  }

  /** When there is an answer, and what becomes of the table. A DISCOVER is answered if
      its sender has or gets an address, a REQUEST unless the allocator hangs over it,
      and nothing if the interface has no address. */
  lemma AnsweredIff(host: ByteOrder, cfg: Config, t: Table, p: Packet, iface: u32, env: Env)
    ensures AnswerTo(host, cfg, t, p, iface, env).Some?
            <==> && Counts(cfg, t, p, iface) && env.address.Some?
                 && var o := Verdict(host, cfg, t, p, iface).1;
                 if Type(p) == 1 then o.Granted? else !o.Hangs?
    ensures Handle(host, cfg, t, p, iface, env).0
            == if Counts(cfg, t, p, iface) then Verdict(host, cfg, t, p, iface).0 else t
  {
    hide Offer, Type, RequestedIp, IsValidDhcpMessage, Encode, ReplyHeader, GrantOptions, NackOptions;
    if Counts(cfg, t, p, iface) {
      var key := Key(iface, p.mem[28..34]);
      OfferKeeps(host, cfg.range, t, key);
      var (t', o) := Verdict(host, cfg, t, p, iface);
      if o.Granted? {
        OfferKnown(host, cfg.range, t', key);
      }
    }
  }

  /** What the answer says: an offer to a DISCOVER; to a REQUEST for the granted address an
      acknowledgement; to any other a denial. Offers and acknowledgements carry the
      sender's lease, the address of the interface as the server's, and the mask, gateway
      and DNS servers of the server; all answers carry the id, flags, relay and MAC of the
      message they answer. */
  lemma AnswersSay(host: ByteOrder, cfg: Config, t: Table, p: Packet, iface: u32, env: Env, q: Packet)
    requires AnswerTo(host, cfg, t, p, iface, env).Some? && |env.dns| <= 4
    requires Received(q, AnswerTo(host, cfg, t, p, iface, env).value)
    ensures env.address.Some? && ServerId(host, q) == env.address.value
    ensures var (t', o) := Verdict(host, cfg, t, p, iface);
            if Type(p) == 3 && o != Granted(RequestedIp(host, p)) then
              Type(q) == 6 && Answers(host, p, q, 0)
            else
              && Type(q) == (if Type(p) == 1 then 2 else 5)
              && o.Granted? && o.address != 0 && Lookup(t', Key(iface, p.mem[28..34])) == o.address
              && Answers(host, p, q, o.address)
              && Settings(host, q, env.address.value, cfg.netmask, cfg.gateway, env.dns)
  {
    hide Offer, Type, RequestedIp, IsValidDhcpMessage, Encode, ReplyHeader, GrantOptions, NackOptions;
    hide Answers, Settings, Received, ServerId;
    AnsweredIff(host, cfg, t, p, iface, env);
    var key := Key(iface, p.mem[28..34]);
    var (t', o) := Verdict(host, cfg, t, p, iface);
    OfferKeeps(host, cfg.range, t, key);
    if o.Granted? {
      OfferKnown(host, cfg.range, t', key);
    }
    match Handle(host, cfg, t, p, iface, env).1
    case OfferOf(a, terms) =>
      GrantReads(host, p, DHCPOFFER, a, terms, q);
      SettingsId(host, q, terms.server, terms.netmask, terms.gateway, terms.dns);
    case AckOf(a, terms) =>
      GrantReads(host, p, DHCPACK, a, terms, q);
      SettingsId(host, q, terms.server, terms.netmask, terms.gateway, terms.dns);
    case NakFrom(server) =>
      NackReads(host, p, server, q);
    case Silence =>
  }

  lemma SettingsId(host: ByteOrder, q: Packet, server: u32, netmask: u32, gateway: u32, dns: seq<u32>)
    requires Settings(host, q, server, netmask, gateway, dns)
    ensures ServerId(host, q) == server
  {
  }
}
