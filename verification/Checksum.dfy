/** The Internet checksum of `common/socket.cpp`, and what it has to be according
    to RFC 1071 (checksum), RFC 791 (IP header) and RFC 768 (UDP).
 */
module Checksum {
  import opened Bytes

  /** The sum of the 16-bit words of a buffer as a host of the given byte order
      loads them. A last odd byte is added as it is, whatever the byte order. */
  function WordSum(host: ByteOrder, s: seq<byte>): nat
  {
    if |s| == 0 then 0
    else if |s| == 1 then s[0]
    else Load16(host, [s[0], s[1]]) + WordSum(host, s[2..])
  }

  /** The representative of `x` modulo 65535 in 1..65535, except that 0 stays 0. */
  function Norm(x: nat): u16
  {
    if x == 0 then 0 else (x - 1) % 0xFFFF + 1
  }

  /** What `addChecksum` computes: the additions wrap at 32 bits, then the upper
      half is folded into the lower half until nothing is left of it. */
  function Sum(host: ByteOrder, s: seq<byte>, start: u32): u16
  {
    Norm(Wrap32(start + WordSum(host, s)))
  }

  function Finish(checksum: u32): u16
  {
    0xFFFF - checksum % 0x1_0000
  }

  // ----- The loops of addChecksum -----

  method AddChecksum(host: ByteOrder, buffer: seq<byte>, start: u32) returns (checksum: u32)
    ensures checksum == Sum(host, buffer, start)
  {
    hide Norm, Load16;
    var sum: u32 := start;
    assert buffer[0..] == buffer;
    var data, size := 0, |buffer|;
    while size > 1
      invariant 0 <= data <= |buffer| && size == |buffer| - data
      invariant Wrap32(sum + WordSum(host, buffer[data..])) == Wrap32(start + WordSum(host, buffer))
    {
      WordSumStep(host, buffer, data, sum);
      sum := Wrap32(sum + Load16(host, [buffer[data], buffer[data + 1]]));
      data, size := data + 2, size - 2;
    }
    WordSumRest(host, buffer, data);
    if size > 0 {
      sum := Wrap32(sum + buffer[data]);
    }
    checksum := FoldHalves(sum);
  }

  /** The second loop of addChecksum; msw is the upper half of the accumulator. */
  method FoldHalves(sum: u32) returns (checksum: u32)
    ensures checksum == Norm(sum)
  {
    checksum := sum;
    var msw := checksum / 0x1_0000;
    while msw != 0
      invariant msw == checksum / 0x1_0000
      invariant Norm(checksum) == Norm(sum)
      decreases checksum
    {
      NormCongruent(checksum, checksum % 0x1_0000 + msw, msw);
      checksum := checksum % 0x1_0000 + msw;
      msw := checksum / 0x1_0000;
    }
    NormSmall(checksum);
  }

  lemma NormSmall(x: u16)
    ensures Norm(x) == x
  {
    if x > 0 {
      NormUnique(x, x, 0);
    }
  }

  lemma WordSumStep(host: ByteOrder, s: seq<byte>, i: nat, a: nat)
    requires i + 2 <= |s|
    ensures Wrap32(Wrap32(a + Load16(host, [s[i], s[i + 1]])) + WordSum(host, s[i + 2..]))
            == Wrap32(a + WordSum(host, s[i..]))
  {
    assert s[i..][0] == s[i] && s[i..][1] == s[i + 1] && s[i..][2..] == s[i + 2..];
    WrapStep(a + Load16(host, [s[i], s[i + 1]]), WordSum(host, s[i + 2..]));
  }

  lemma WordSumRest(host: ByteOrder, s: seq<byte>, i: nat)
    requires |s| - 1 <= i <= |s|
    ensures WordSum(host, s[i..]) == if i < |s| then s[i] else 0
  {
  }

  lemma WrapStep(a: nat, b: nat)
    ensures Wrap32(Wrap32(a) + b) == Wrap32(a + b)
  {
  }

  // ----- Norm -----

  lemma NormUnique(x: int, r: int, k: int)
    requires x > 0 && 1 <= r <= 0xFFFF && x == r + k * 0xFFFF
    ensures Norm(x) == r
  {
    assert x - 1 == (r - 1) + k * 0xFFFF;
    assert (x - 1) % 0xFFFF == r - 1;
  }

  lemma NormQuotient(x: nat) returns (k: nat)
    ensures x == Norm(x) + k * 0xFFFF
    ensures x > 0 ==> Norm(x) > 0
  {
    if x == 0 {
      k := 0;
    } else {
      k := (x - 1) / 0xFFFF;
    }
  }

  /** Two positive sums have the same normal form exactly when they differ by a
      multiple of 65535. */
  lemma NormCongruent(x: int, y: int, k: int)
    requires x > 0 && y > 0 && x == y + k * 0xFFFF
    ensures Norm(x) == Norm(y)
  {
    var q := NormQuotient(y);
    NormUnique(x, Norm(y), q + k);
  }

  lemma NormSameModulo(x: nat, y: nat)
    requires x <= y
    ensures Norm(x) == Norm(y) ==> (y - x) % 0xFFFF == 0
  {
    var p := NormQuotient(x);
    var q := NormQuotient(y);
    assert Norm(x) == Norm(y) ==> y - x == (q as int - p as int) * 0xFFFF;
  }

  lemma NormAbsorbs(a: nat, b: nat)
    ensures Norm(Norm(a) + b) == Norm(a + b)
  {
    var q := NormQuotient(a);
    if a > 0 {
      NormCongruent(a + b, Norm(a) + b, q);
    }
  }

  // ----- Sizes for which the 32-bit accumulator does not overflow -----

  lemma {:induction false} WordSumBound(host: ByteOrder, s: seq<byte>)
    ensures WordSum(host, s) <= (|s| + 1) / 2 * 0xFFFF
  {
    if |s| >= 2 {
      WordSumBound(host, s[2..]);
    }
  }

  /** An accumulator that starts below 2^16, as every chained call does, cannot
      overflow on a buffer of at most 2^17 bytes. */
  lemma NoOverflow(host: ByteOrder, s: seq<byte>, start: u32)
    requires start <= 0xFFFF && |s| <= 0x2_0000
    ensures start + WordSum(host, s) < 0x1_0000_0000
    ensures Sum(host, s, start) == Norm(start + WordSum(host, s))
  {
    WordSumBound(host, s);
    assert (|s| + 1) / 2 <= 0x1_0000;
  }

  lemma {:induction false} AllOnesSum(host: ByteOrder, n: nat)
    ensures WordSum(host, seq(2 * n, _ => 0xFF)) == n * 0xFFFF
  {
    var s: seq<byte> := seq(2 * n, _ => 0xFF);
    if n > 0 {
      assert s[2..] == seq(2 * (n - 1), _ => 0xFF);
      AllOnesSum(host, n - 1);
    }
  }

  /** The bound of NoOverflow is tight: two bytes more and a carry is lost. */
  lemma OverflowBeyondBound(host: ByteOrder)
    ensures exists s: seq<byte> :: |s| == 0x2_0002 && Sum(host, s, 0xFFFF) != Norm(0xFFFF + WordSum(host, s))
  {
    var s: seq<byte> := seq(2 * 0x1_0001, _ => 0xFF);
    AllOnesSum(host, 0x1_0001);
    assert 0xFFFF + WordSum(host, s) == 0x1_0002 * 0xFFFF;
    NormUnique(0xFFFF + WordSum(host, s), 0xFFFF, 0x1_0001);
    assert |s| == 0x2_0002 && Sum(host, s, 0xFFFF) == 0xFFFE;
  }

  // ----- Chaining over chunks -----

  lemma {:induction false} WordSumConcat(host: ByteOrder, a: seq<byte>, b: seq<byte>)
    requires |a| % 2 == 0
    ensures WordSum(host, a + b) == WordSum(host, a) + WordSum(host, b)
  {
    if a == [] {
      assert a + b == b;
    } else {
      assert (a + b)[0] == a[0] && (a + b)[1] == a[1] && (a + b)[2..] == a[2..] + b;
      WordSumConcat(host, a[2..], b);
    }
  }

  /** Passing the result of one call to the next sums the concatenation, as long
      as only the last chunk has odd length. */
  lemma Chaining(host: ByteOrder, a: seq<byte>, b: seq<byte>, start: u32)
    requires |a| % 2 == 0 && start <= 0xFFFF && |a| + |b| <= 0x2_0000
    ensures Sum(host, b, Sum(host, a, start)) == Sum(host, a + b, start)
  {
    NoOverflow(host, a, start);
    NoOverflow(host, a + b, start);
    NoOverflow(host, b, Sum(host, a, start));
    WordSumConcat(host, a, b);
    NormAbsorbs(start + WordSum(host, a), WordSum(host, b));
  }

  // ----- The checksum of RFC 1071 -----

  /** One's-complement addition: a carry out of the top comes back at the bottom. */
  function OnesAdd(a: u16, b: u16): u16
  {
    if a + b > 0xFFFF then a + b - 0xFFFF else a + b
  }

  function FirstWord(s: seq<byte>): u16
    requires s != []
  {
    Join16(s[0], if |s| == 1 then 0 else s[1])
  }

  function Tail(s: seq<byte>): (t: seq<byte>)
    requires s != []
    ensures |t| < |s|
  {
    if |s| == 1 then [] else s[2..]
  }

  /** The one's-complement sum of the big-endian words of a buffer, a last odd byte
      being padded with zero on the right (section 1 of RFC 1071). */
  function Rfc1071(s: seq<byte>): u16
    decreases |s|
  {
    if s == [] then 0 else OnesAdd(FirstWord(s), Rfc1071(Tail(s)))
  }

  ghost function PaddedSum(s: seq<byte>): nat
    decreases |s|
  {
    if s == [] then 0 else FirstWord(s) + PaddedSum(Tail(s))
  }

  lemma OnesAddIsNorm(a: u16, b: u16)
    ensures OnesAdd(a, b) == Norm(b + a)
  {
    if a + b > 0 {
      NormUnique(a + b, OnesAdd(a, b), if a + b > 0xFFFF then 1 else 0);
    }
  }

  lemma {:induction false} Rfc1071IsNorm(s: seq<byte>)
    ensures Rfc1071(s) == Norm(PaddedSum(s))
    decreases |s|
  {
    if s != [] {
      Rfc1071IsNorm(Tail(s));
      var w, rest := FirstWord(s), PaddedSum(Tail(s));
      NormAbsorbs(rest, w);
      OnesAddIsNorm(w, Norm(rest));
    }
  }

  /** Loading the words with the bytes exchanged multiplies the sum by 256, up to
      multiples of 65535 (section 2(B) of RFC 1071). */
  lemma {:induction false} SwappedSum(s: seq<byte>) returns (k: nat)
    ensures 0x100 * PaddedSum(s) == WordSum(Little, s) + k * 0xFFFF
    ensures PaddedSum(s) == 0 <==> WordSum(Little, s) == 0
    decreases |s|
  {
    if s == [] {
      k := 0;
    } else {
      k := SwappedSum(Tail(s));
      k := k + s[0];
    }
  }

  function Swap(x: u16): u16 { x % 0x100 * 0x100 + x / 0x100 }

  lemma NormSwapped(x: nat)
    ensures Norm(0x100 * x) == Swap(Norm(x))
  {
    if x > 0 {
      var q := NormQuotient(x);
      var r := Norm(x);
      assert 0x100 * (r as int) == Swap(r) + (r / 0x100) as int * 0xFFFF;
      NormUnique(0x100 * x, Swap(r), 0x100 * q + r / 0x100);
    }
  }

  lemma LittleIsSwapped(s: seq<byte>)
    ensures Norm(WordSum(Little, s)) == Swap(Rfc1071(s))
  {
    var k := SwappedSum(s);
    Rfc1071IsNorm(s);
    NormSwapped(PaddedSum(s));
    if PaddedSum(s) > 0 {
      NormCongruent(0x100 * PaddedSum(s), WordSum(Little, s), k);
    }
  }

  lemma {:induction false} BigSum(s: seq<byte>)
    ensures WordSum(Big, s) + (if |s| % 2 == 1 then 0xFF * (s[|s| - 1] as int) else 0) == PaddedSum(s)
  {
    if |s| == 1 {
      assert PaddedSum(s) == FirstWord(s);
    } else if |s| >= 2 {
      var rest := s[2..];
      BigSum(rest);
      assert Tail(s) == rest && FirstWord(s) == Load16(Big, [s[0], s[1]]);
      assert |rest| % 2 == 1 ==> rest[|rest| - 1] == s[|s| - 1];
    }
  }

  /** The hosts and buffers on which the treatment of a last odd byte is right. */
  predicate OddByteSafe(host: ByteOrder, s: seq<byte>)
  {
    host.Little? || |s| % 2 == 0 || s[|s| - 1] == 0
  }

  /** The word that `finishChecksum(addChecksum(...))` leaves in memory, read in
      network order, is the one RFC 1071 prescribes, exactly when the host is
      little-endian, or the length is even, or the last byte is zero. */
  lemma MatchesRfc1071(host: ByteOrder, s: seq<byte>)
    requires |s| <= 0x2_0000
    ensures Ntohs(host, Finish(Sum(host, s, 0))) == 0xFFFF - Rfc1071(s) <==> OddByteSafe(host, s)
  {
    hide Norm, Ntohs, Swap, Sum, Join16;
    NoOverflow(host, s, 0);
    if host.Little? {
      LittleIsSwapped(s);
      FinishSwapped(Rfc1071(s));
    } else {
      BigIsNorm(s);
      NtohsBig(Finish(Sum(Big, s, 0)));
    }
  }

  lemma FinishSwapped(x: u16)
    ensures Ntohs(Little, Finish(Swap(x))) == 0xFFFF - x
  {
    var h, l := x / 0x100, x % 0x100;
    var y := Finish(Swap(x));
    assert y == (0xFF - l) * 0x100 + (0xFF - h);
    assert y / 0x100 == 0xFF - l && y % 0x100 == 0xFF - h;
  }

  lemma NtohsBig(x: u16)
    ensures Ntohs(Big, x) == x
  {
    LoadStore16(Big, x);
  }

  lemma BigIsNorm(s: seq<byte>)
    ensures Norm(WordSum(Big, s)) == Rfc1071(s) <==> OddByteSafe(Big, s)
  {
    BigSum(s);
    Rfc1071IsNorm(s);
    if !OddByteSafe(Big, s) {
      NormDistinguishes(WordSum(Big, s), s[|s| - 1]);
    }
  }

  /** Adding 255 * b for a nonzero byte b always changes the normal form. */
  lemma NormDistinguishes(x: nat, b: byte)
    requires b != 0
    ensures Norm(x + 0xFF * (b as int)) != Norm(x)
  {
    NormSameModulo(x, x + 0xFF * (b as int));
  }
}
