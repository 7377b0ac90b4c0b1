/** The IP and UDP headers that `Socket::sendRawUdp` puts in front of a message. */
module RawUdp {
  import opened Bytes
  import opened Checksum

  const IP_HEADER: nat := 20
  const UDP_HEADER: nat := 8
  const IPPROTO_UDP: byte := 17
  const IPDEFTTL: byte := 64

  /** The part of the IP header that the UDP checksum covers, with the UDP length
      (RFC 768). */
  function PseudoHeader(ip: seq<byte>, udp: seq<byte>): seq<byte>
    requires |ip| == IP_HEADER && |udp| == UDP_HEADER
  {
    ip[12..20] + [0, ip[9]] + udp[4..6]
  }

  /** The bytes that the UDP checksum covers, with the check field still zero. */
  function Covered(host: ByteOrder, source: u32, sourcePort: u16, destination: u32, destinationPort: u16,
                   message: seq<byte>): seq<byte>
    requires |message| <= 1260
  {
    var len := Store16(Big, 8 + |message|);
    Store32(host, source) + Store32(host, destination) + [0, IPPROTO_UDP] + len
    + (Store16(Big, sourcePort) + Store16(Big, destinationPort) + len + [0, 0]) + message
  }

  /** Filling the complement of the sum into a zeroed check field at an even offset
      makes the sum a receiver computes all ones, exactly where the odd byte is safe. */
  lemma FilledIn(host: ByteOrder, a: seq<byte>, b: seq<byte>, zeroed: seq<byte>, filled: seq<byte>)
    requires |a| % 2 == 0 && |a| + 2 + |b| <= 0x2_0000
    requires zeroed == a + [0, 0] + b
    requires filled == a + Store16(host, Finish(Sum(host, zeroed, 0))) + b
    ensures Rfc1071(filled) == 0xFFFF <==> OddByteSafe(host, filled)
  {
    hide Store16, Finish, OddByteSafe, Norm, Sum;
    var check := Finish(Sum(host, zeroed, 0));
    StoreZero(host);
    FieldSum(host, a, 0, b, zeroed);
    FieldSum(host, a, check, b, filled);
    NoOverflow(host, zeroed, 0);
    ComplementAdds(WordSum(host, zeroed), check);
    AllOnes(host, filled);
  }

  lemma StoreZero(host: ByteOrder)
    ensures Store16(host, 0) == [0, 0]
  {
  }

  lemma ComplementAdds(x: nat, check: u16)
    requires check == Finish(Norm(x))
    ensures Norm(x + check) == 0xFFFF
  {
    var q := NormQuotient(x);
    assert x + check == 0xFFFF + q * 0xFFFF;
    NormUnique(x + check, 0xFFFF, q);
  }

  /** A host that sees all ones agrees with RFC 1071 where the odd byte is safe. */
  lemma AllOnes(host: ByteOrder, s: seq<byte>)
    requires Norm(WordSum(host, s)) == 0xFFFF
    ensures Rfc1071(s) == 0xFFFF <==> OddByteSafe(host, s)
  {
    if host.Little? {
      LittleIsSwapped(s);
      SwapAllOnes(Rfc1071(s));
    } else {
      BigIsNorm(s);
    }
  }

  lemma SwapAllOnes(x: u16)
    ensures Swap(x) == 0xFFFF ==> x == 0xFFFF
  {
  }

  lemma PairSum(host: ByteOrder, b: seq<byte>)
    requires |b| == 2
    ensures WordSum(host, b) == Load16(host, b)
  {
    assert b[..2] == b && b[2..] == [];
  }

  lemma ThreeParts(host: ByteOrder, a: seq<byte>, b: seq<byte>, c: seq<byte>)
    requires |a| % 2 == 0 && |b| % 2 == 0
    ensures WordSum(host, a + b + c) == WordSum(host, a) + WordSum(host, b) + WordSum(host, c)
  {
    hide Load16;
    WordSumConcat(host, a, b);
    WordSumConcat(host, a + b, c);
  }

  lemma FieldSum(host: ByteOrder, a: seq<byte>, x: u16, b: seq<byte>, s: seq<byte>)
    requires |a| % 2 == 0 && s == a + Store16(host, x) + b
    ensures WordSum(host, s) == WordSum(host, a) + x + WordSum(host, b)
  {
    hide Store16, Load16, Join16;
    var field := Store16(host, x);
    LoadStore16(host, x);
    PairSum(host, field);
    ThreeParts(host, a, field, b);
  }

  /** Five chained calls sum the concatenation of the five chunks. */
  lemma ChainedFive(host: ByteOrder, a: seq<byte>, b: seq<byte>, c: seq<byte>, d: seq<byte>, e: seq<byte>)
    requires |a| % 2 == |b| % 2 == |c| % 2 == |d| % 2 == 0
    requires |a| + |b| + |c| + |d| + |e| <= 0x2_0000
    ensures Sum(host, e, Sum(host, d, Sum(host, c, Sum(host, b, Sum(host, a, 0))))) == Sum(host, a + b + c + d + e, 0)
  {
    Chaining(host, a, b, 0);
    Chaining(host, a + b, c, 0);
    Chaining(host, a + b + c, d, 0);
    Chaining(host, a + b + c + d, e, 0);
  }

  /** The two header structs, filled in field by field as the source does; addresses
      are words in network order, ports are numbers, `message` is the payload. */
  method SendRawUdp(host: ByteOrder, source: u32, sourcePort: u16, destination: u32, destinationPort: u16,
                    message: seq<byte>)
    returns (ip: seq<byte>, udp: seq<byte>)
    requires |message| <= 1260
    ensures |ip| == IP_HEADER && |udp| == UDP_HEADER
    ensures ip[..10] == [0x45, 0] + Store16(Big, 28 + |message|) + [0, 0, 0, 0, IPDEFTTL, IPPROTO_UDP]
    ensures ip[12..] == Store32(host, source) + Store32(host, destination)
    ensures udp[..6] == Store16(Big, sourcePort) + Store16(Big, destinationPort) + Store16(Big, 8 + |message|)
    // what a receiver sums over the IP header, and over pseudo header, UDP header and payload
    ensures Rfc1071(ip) == 0xFFFF
    ensures Rfc1071(PseudoHeader(ip, udp) + udp + message) == 0xFFFF <==> OddByteSafe(host, message)
    // the check field itself, which RFC 768 reserves for "no checksum" when it is zero
    ensures udp[6..] == Store16(host, Finish(Sum(host, PseudoHeader(ip, udp) + udp[..6] + [0, 0] + message, 0)))
    ensures var covered := Covered(host, source, sourcePort, destination, destinationPort, message);
            udp[6..] == Store16(host, Finish(Sum(host, covered, 0)))
  {
    hide Store16, Store32, Finish, Sum, Htons, OddByteSafe;
    HostNetwork16(host, 28 + |message|);
    var fixed := [0x45, 0] + Store16(host, Htons(host, 28 + |message|)) + [0, 0, 0, 0, IPDEFTTL, IPPROTO_UDP];
    var addresses := Store32(host, source) + Store32(host, destination);
    ip := fixed + [0, 0] + addresses;
    ghost var ip0 := ip;
    var checksum := AddChecksum(host, ip, 0);
    ip := fixed + Store16(host, Finish(checksum)) + addresses;
    FilledIn(host, fixed, addresses, ip0, ip);
    SameSafety(host, ip, []);

    HostNetwork16(host, sourcePort);
    HostNetwork16(host, destinationPort);
    HostNetwork16(host, 8 + |message|);
    HostNetwork16(host, IPPROTO_UDP);
    var len := Store16(host, Htons(host, 8 + |message|));
    var ports := Store16(host, Htons(host, sourcePort)) + Store16(host, Htons(host, destinationPort));
    udp := ports + len + [0, 0];
    ghost var udp0 := udp;

    var protocol := Store16(host, Htons(host, IPPROTO_UDP));
    var udpChecksum := AddChecksum(host, Store32(host, source), 0);
    udpChecksum := AddChecksum(host, Store32(host, destination), udpChecksum);
    udpChecksum := AddChecksum(host, protocol, udpChecksum);
    udpChecksum := AddChecksum(host, len, udpChecksum);
    udpChecksum := AddChecksum(host, udp, udpChecksum);
    udpChecksum := AddChecksum(host, message, udpChecksum);
    udp := ports + len + Store16(host, Finish(udpChecksum));

    SixChunks(host, source, destination, protocol, len, udp0, message);
    UdpFilled(host, addresses, protocol, ports, len, message, Finish(udpChecksum), ip, udp);
  }

  lemma UdpFilled(host: ByteOrder, addresses: seq<byte>, protocol: seq<byte>, ports: seq<byte>, len: seq<byte>,
                  message: seq<byte>, check: u16, ip: seq<byte>, udp: seq<byte>)
    requires |ip| == IP_HEADER && ip[12..] == addresses && protocol == [0, ip[9]]
    requires |ports| == 4 && |len| == 2 && udp == ports + len + Store16(host, check) && |message| <= 1260
    requires check == Finish(Sum(host, addresses + protocol + len + (ports + len + [0, 0]) + message, 0))
    ensures Rfc1071(PseudoHeader(ip, udp) + udp + message) == 0xFFFF <==> OddByteSafe(host, message)
    ensures udp[6..] == Store16(host, Finish(Sum(host, PseudoHeader(ip, udp) + udp[..6] + [0, 0] + message, 0)))
  {
    hide Store16, Finish, Sum, OddByteSafe;
    var pseudo := PseudoHeader(ip, udp);
    assert pseudo == addresses + protocol + len;
    assert udp[..6] == ports + len;
    var before := pseudo + udp[..6];
    assert addresses + protocol + len + (ports + len + [0, 0]) + message == before + [0, 0] + message;
    assert pseudo + udp + message == before + Store16(host, check) + message;
    FilledIn(host, before, message, before + [0, 0] + message, pseudo + udp + message);
    SameSafety(host, pseudo + udp, message);
  }

  lemma SixChunks(host: ByteOrder, source: u32, destination: u32, protocol: seq<byte>, len: seq<byte>,
                  udp: seq<byte>, message: seq<byte>)
    requires |protocol| == |len| == 2 && |udp| == UDP_HEADER && |message| <= 1260
    ensures var start := Sum(host, Store32(host, destination), Sum(host, Store32(host, source), 0));
            Sum(host, message, Sum(host, udp, Sum(host, len, Sum(host, protocol, start))))
            == Sum(host, Store32(host, source) + Store32(host, destination) + protocol + len + udp + message, 0)
  {
    var addresses := Store32(host, source) + Store32(host, destination);
    Chaining(host, Store32(host, source), Store32(host, destination), 0);
    ChainedFive(host, addresses, protocol, len, udp, message);
  }

  lemma SameSafety(host: ByteOrder, a: seq<byte>, b: seq<byte>)
    requires |a| % 2 == 0
    ensures OddByteSafe(host, a + b) == OddByteSafe(host, b)
    ensures OddByteSafe(host, a)
  {
  }

  /** The check field is sent as zero exactly when the sum is a positive multiple of
      65535; RFC 768 asks for all ones there. */
  lemma ZeroCheckField(host: ByteOrder, s: seq<byte>)
    requires |s| <= 0x2_0000
    ensures Store16(host, Finish(Sum(host, s, 0))) == [0, 0]
            <==> WordSum(host, s) > 0 && WordSum(host, s) % 0xFFFF == 0
  {
    NoOverflow(host, s, 0);
    FinishZero(host, Norm(WordSum(host, s)));
    NormMultiple(WordSum(host, s));
  }

  /** With a word at an even offset at one's disposal, the check field can be made zero. */
  lemma CompletesToZero(host: ByteOrder, a: seq<byte>, b: seq<byte>, s: seq<byte>)
    requires |a| % 2 == 0 && |a| + 2 + |b| <= 0x2_0000
    requires s == a + Store16(host, Finish(Sum(host, a + [0, 0] + b, 0))) + b
    ensures Store16(host, Finish(Sum(host, s, 0))) == [0, 0]
  {
    hide Store16, Finish, Norm, Sum;
    var zeroed := a + [0, 0] + b;
    var x := Finish(Sum(host, zeroed, 0));
    StoreZero(host);
    FieldSum(host, a, 0, b, zeroed);
    FieldSum(host, a, x, b, s);
    NoOverflow(host, zeroed, 0);
    NoOverflow(host, s, 0);
    ComplementAdds(WordSum(host, zeroed), x);
    FinishZero(host, Norm(WordSum(host, s)));
  }

  lemma FinishZero(host: ByteOrder, x: u16)
    ensures Store16(host, Finish(x)) == [0, 0] <==> x == 0xFFFF
  {
    LoadStore16(host, Finish(x));
  }

  lemma NormMultiple(x: nat)
    ensures Norm(x) == 0xFFFF <==> x > 0 && x % 0xFFFF == 0
  {
    var q := NormQuotient(x);
    if Norm(x) == 0xFFFF {
      assert x == (q + 1) * 0xFFFF;
    }
  }
}
