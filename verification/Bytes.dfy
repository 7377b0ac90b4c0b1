/** Machine words and their layout in memory.

    Words are integers with explicit bounds. Every function that looks at memory
    takes the byte order of the machine, so that a statement about `htonl` or
    about a cast from `uint8_t*` to `uint32_t*` is proved for both kinds of host.
 */
module Bytes {

  type byte = x: int | 0 <= x < 0x100
  type u16 = x: int | 0 <= x < 0x1_0000
  type u32 = x: int | 0 <= x < 0x1_0000_0000
  type u64 = x: int | 0 <= x < 0x1_0000_0000_0000_0000

  datatype Option<+T> = None | Some(value: T)

  datatype ByteOrder = Little | Big

  function Join16(hi: byte, lo: byte): u16 { (hi as int) * 0x100 + lo }

  function Join32(hi: u16, lo: u16): u32 { (hi as int) * 0x1_0000 + lo }

  /** The value that remains of a number in a 32-bit register. */
  function Wrap32(x: int): u32 { x % 0x1_0000_0000 }

  /** A slice of a slice is a slice. */
  lemma SubSlice<T>(s: seq<T>, a: nat, b: nat, i: nat, j: nat)
    requires a <= b <= |s| && i <= j <= b - a
    ensures s[a..b][i..j] == s[a + i..a + j]
  {
    var part := s[a..b];
    assert forall k | i <= k < j :: part[k] == s[a + k];
  }

  /** The two bytes that a 16-bit word occupies in memory, lowest address first. */
  function Store16(order: ByteOrder, x: u16): (b: seq<byte>)
    ensures |b| == 2
  {
    if order.Big? then [x / 0x100, x % 0x100] else [x % 0x100, x / 0x100]
  }

  function Load16(order: ByteOrder, b: seq<byte>): u16
    requires |b| == 2
  {
    if order.Big? then Join16(b[0], b[1]) else Join16(b[1], b[0])
  }

  function Store32(order: ByteOrder, x: u32): (b: seq<byte>)
    ensures |b| == 4
  {
    if order.Big?
    then Store16(Big, x / 0x1_0000) + Store16(Big, x % 0x1_0000)
    else Store16(Little, x % 0x1_0000) + Store16(Little, x / 0x1_0000)
  }

  function Load32(order: ByteOrder, b: seq<byte>): u32
    requires |b| == 4
  {
    if order.Big?
    then (b[0] as int) * 0x100_0000 + (b[1] as int) * 0x1_0000 + (b[2] as int) * 0x100 + b[3]
    else (b[3] as int) * 0x100_0000 + (b[2] as int) * 0x1_0000 + (b[1] as int) * 0x100 + b[0]
  }

  /** Conversions between host order and network order. */
  function Htons(host: ByteOrder, x: u16): u16 { Load16(host, Store16(Big, x)) }
  function Ntohs(host: ByteOrder, x: u16): u16 { Load16(Big, Store16(host, x)) }
  function Htonl(host: ByteOrder, x: u32): u32 { Load32(host, Store32(Big, x)) }
  function Ntohl(host: ByteOrder, x: u32): u32 { Load32(Big, Store32(host, x)) }

  lemma LoadStore16(order: ByteOrder, x: u16)
    ensures Load16(order, Store16(order, x)) == x
  {
  }

  lemma StoreLoad16(order: ByteOrder, b: seq<byte>)
    requires |b| == 2
    ensures Store16(order, Load16(order, b)) == b
  {
    assert Join16(b[0], b[1]) / 0x100 == b[0] && Join16(b[1], b[0]) / 0x100 == b[1];
  }

  lemma LoadStore32(order: ByteOrder, x: u32)
    ensures Load32(order, Store32(order, x)) == x
  {
    LoadStore16(order, x / 0x1_0000);
    LoadStore16(order, x % 0x1_0000);
  }

  lemma StoreLoad32(order: ByteOrder, b: seq<byte>)
    requires |b| == 4
    ensures Store32(order, Load32(order, b)) == b
  {
    StoreLoad16(order, [b[0], b[1]]);
    StoreLoad16(order, [b[2], b[3]]);
    var hi := if order.Big? then Join16(b[0], b[1]) else Join16(b[3], b[2]);
    var lo := if order.Big? then Join16(b[2], b[3]) else Join16(b[1], b[0]);
    assert Load32(order, b) == Join32(hi, lo);
    JoinSplits(hi, lo);
  }

  lemma JoinSplits(hi: u16, lo: u16)
    ensures Join32(hi, lo) / 0x1_0000 == hi && Join32(hi, lo) % 0x1_0000 == lo
  {
  }

  /** `htonl` and `ntohl` undo each other on either kind of host. */
  lemma HostNetwork32(host: ByteOrder, x: u32)
    ensures Ntohl(host, Htonl(host, x)) == x
    ensures Htonl(host, Ntohl(host, x)) == x
    ensures Store32(host, Htonl(host, x)) == Store32(Big, x)
  {
    StoreLoad32(host, Store32(Big, x));
    LoadStore32(Big, x);
    StoreLoad32(Big, Store32(host, x));
    LoadStore32(host, x);
  }

  lemma HostNetwork16(host: ByteOrder, x: u16)
    ensures Ntohs(host, Htons(host, x)) == x
    ensures Store16(host, Htons(host, x)) == Store16(Big, x)
  {
    StoreLoad16(host, Store16(Big, x));
    LoadStore16(Big, x);
  }
}
