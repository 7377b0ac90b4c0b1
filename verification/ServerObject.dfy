/** The class `DhcpServer`, each method tied to the function of Server.dfy or
    Allocator.dfy that says what it does. */
module ServerObject {
  import opened Bytes
  import opened Messages
  import opened Builder
  import opened Allocator
  import opened Server

  class DhcpServer {
    const host: ByteOrder
    const dhcpRangeStart: u32
    const dhcpRangeEnd: u32
    const netmask: u32
    const gateway: u32
    const excludeInterface: u32
    const skipLoop: SkipLoop
    const ids: TransactionIds
    var leases: map<Key, u32>
    var nextAddressOffset: u32
    var hung: bool
    var transmitted: seq<(u32, seq<byte>)>
    ghost var grants: seq<Key>

    ghost function Cfg(): Config
    {
      Config(Range(Ntohl(host, dhcpRangeStart), Ntohl(host, dhcpRangeEnd), skipLoop),
             netmask, gateway, excludeInterface)
    }

    ghost function View(): Table
      reads this
    {
      Table(leases, nextAddressOffset, grants, hung)
    }

    constructor (host: ByteOrder, start: u32, end: u32, netmask: u32, gateway: u32, exclude: u32, loop: SkipLoop)
      ensures View() == EMPTY && transmitted == [] && fresh(ids)
      ensures this.host == host
      ensures Cfg() == Config(Range(Ntohl(host, start), Ntohl(host, end), loop), netmask, gateway, exclude)
    {
      this.host, dhcpRangeStart, dhcpRangeEnd := host, start, end;
      this.netmask, this.gateway, excludeInterface, skipLoop := netmask, gateway, exclude, loop;
      ids := new TransactionIds();
      leases, nextAddressOffset, grants, hung := map[], 0, [], false;
      transmitted := [];
    }

    /** The skip loop, testing the last byte of the new address. */
    method SkipUnusable(start: u32) returns (nextAddress: u32)
      modifies this`nextAddressOffset
      ensures EnterLoop(nextAddress, nextAddressOffset) == Skip(start, old(nextAddressOffset))
    {
      nextAddress := start;
      var lastAddressByte := nextAddress % 0x100;
      while lastAddressByte == 0xFF || lastAddressByte == 0
        invariant lastAddressByte == nextAddress % 0x100
        invariant Skip(nextAddress, nextAddressOffset) == Skip(start, old(nextAddressOffset))
        decreases if lastAddressByte == 0xFF then 2 else if lastAddressByte == 0 then 1 else 0
      {
        NextLowByte(nextAddress);
        nextAddress := Wrap32(nextAddress + 1);
        nextAddressOffset := Wrap32(nextAddressOffset + 1);
        lastAddressByte := nextAddress % 0x100;
      }
    }

    method GetOfferAddress(iface: u32, mac: Mac) returns (o: Outcome)
      modifies this`leases, this`nextAddressOffset, this`hung, this`grants
      ensures (View(), o) == Offer(host, Cfg().range, old(View()), Key(iface, mac))
    {
      hide Htonl, Ntohl, Usable, Wrap32;
      var key := Key(iface, mac);
      var value := if key in leases then leases[key] else 0;
      if value == 0 {
        leases := leases[key := 0];
        var nextAddress := Wrap32(Ntohl(host, dhcpRangeStart) + nextAddressOffset);
        if skipLoop.AsWritten? && !Usable(nextAddress) {
          hung := true;  // the byte the loop tests never changes
          return Hangs;
        }
        nextAddress := SkipUnusable(nextAddress);
        if nextAddress <= Ntohl(host, dhcpRangeEnd) {
          value := Htonl(host, nextAddress);
          leases := leases[key := value];
          assert leases == old(leases)[key := value];
          nextAddressOffset := Wrap32(nextAddressOffset + 1);
          grants := grants + [key];
        } else {
          return Exhausted;
        }
      }
      return Granted(value);
    }

    method Transmit(iface: u32, m: Message)
      requires m.memory.Length == MEMORY && m.size <= CAPACITY
      modifies this`transmitted
      ensures transmitted == old(transmitted) + [(iface, m.memory[..m.size])]
    {
      transmitted := transmitted + [(iface, m.memory[..m.size])];
    }

    method SendOffer(p: Packet, iface: u32, env: Env)
      modifies this`leases, this`nextAddressOffset, this`hung, this`grants, this`transmitted, ids
      ensures var (t, reply) := SendDhcpOffer(host, Cfg(), old(View()), KeyOf(p, iface), env);
              View() == t && transmitted == old(transmitted) + On(iface, ReplyBytes(host, p, reply))
    {
      hide Offer, Encode, ReplyHeader, GrantOptions, Htonl, Ntohl;
      var o := GetOfferAddress(iface, Chaddr(p));
      if o.Granted? && env.address.Some? {
        var terms := Terms(env.address.value, netmask, gateway, env.dns);
        var m := Message.Grant(host, DHCPOFFER, p, o.address, terms, ids);
        Transmit(iface, m);
      }
    }

    method SendAcknowledgement(p: Packet, iface: u32, env: Env)
      modifies this`leases, this`nextAddressOffset, this`hung, this`grants, this`transmitted, ids
      ensures var (t, reply) := SendAck(host, Cfg(), old(View()), KeyOf(p, iface), env);
              View() == t && transmitted == old(transmitted) + On(iface, ReplyBytes(host, p, reply))
    {
      hide Offer, Encode, ReplyHeader, GrantOptions, Htonl, Ntohl;
      var o := GetOfferAddress(iface, Chaddr(p));
      if o.Granted? && env.address.Some? {
        var terms := Terms(env.address.value, netmask, gateway, env.dns);
        var m := Message.Grant(host, DHCPACK, p, o.address, terms, ids);
        Transmit(iface, m);
      }
    }

    method SendDenial(p: Packet, iface: u32, env: Env)
      modifies this`transmitted, ids
      ensures transmitted == old(transmitted) + On(iface, ReplyBytes(host, p, SendNack(env)))
    {
      hide Encode, ReplyHeader, NackOptions, Htonl, Ntohl;
      if env.address.Some? {
        var m := Message.Nack(host, p, env.address.value, ids);
        Transmit(iface, m);
      }
    }

    /** isValidDhcpRequest; None if the allocator does not come back. */
    method IsValidRequest(p: Packet, iface: u32) returns (valid: Option<bool>)
      modifies this`leases, this`nextAddressOffset, this`hung, this`grants
      ensures var (t, o) := Offer(host, Cfg().range, old(View()), KeyOf(p, iface));
              && View() == t
              && valid == if o.Hangs? then None else Some(o.Granted? && RequestedIp(host, p) == o.address)
    {
      hide Offer, RequestedIp, Htonl, Ntohl;
      var o := GetOfferAddress(iface, Chaddr(p));
      match o
      case Hangs => return None;
      case Exhausted => return Some(false);
      case Granted(offered) => return Some(RequestedIp(host, p) == offered);
    }

    /** The body of the loop in run. */
    method HandleMessage(p: Packet, iface: u32, env: Env)
      requires !hung
      modifies this, ids
      ensures var (t, reply) := Handle(host, Cfg(), old(View()), p, iface, env);
              View() == t && transmitted == old(transmitted) + On(iface, ReplyBytes(host, p, reply))
    {
      hide Offer, ReplyBytes, SendDhcpOffer, SendAck, SendNack, Type, RequestedIp, IsValidDhcpMessage, Htonl, Ntohl;
      ghost var r := ReplyBytes(host, p, Silence);
      SilenceIsEmpty(host, p, iface);
      if iface == 0 || excludeInterface == iface {
        return;
      }
      if !IsValidDhcpMessage(p, OP_BOOTREQUEST) {
        return;
      }
      var kind := Type(p);
      if kind == DHCPDISCOVER {
        SendOffer(p, iface, env);
      } else if kind == DHCPREQUEST {
        var valid := IsValidRequest(p, iface);
        if valid == Some(true) {
          SendAcknowledgement(p, iface, env);
        } else if valid == Some(false) {
          SendDenial(p, iface, env);
        }
      }
    }
  }

  lemma SilenceIsEmpty(host: ByteOrder, p: Packet, iface: u32)
    ensures On(iface, ReplyBytes(host, p, Silence)) == []
  {
  }

  lemma NextLowByte(a: u32)
    ensures Wrap32(a + 1) % 0x100 == (a % 0x100 + 1) % 0x100
  {
  }

  function On(iface: u32, packet: Option<seq<byte>>): seq<(u32, seq<byte>)>
  {
    if packet.Some? then [(iface, packet.value)] else []
  }
}
