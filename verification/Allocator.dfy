/** The address allocator of `server/dhcpserver.cpp`: `getOfferAddress` over the table
    of leases, and exactly which addresses it hands out over any sequence of calls. */
module Allocator {
  import opened Bytes
  import opened Messages

  /** struct Lease of server/lease.h: two leases are the same when interface and MAC
      address are. */
  datatype Key = Key(iface: u32, mac: Mac)

  /** The loop that skips addresses ending in .0 and .255. As it is written it never
      looks at the new address again; its comment says that it moves past them. */
  datatype SkipLoop = AsWritten | Recomputing

  /** The range in host order, as `ntohl` gives it. */
  datatype Range = Range(first: u32, last: u32, loop: SkipLoop)

  /** The table of leases (addresses in network order, zero for an entry without one)
      and the offset of the next address. `grants` is a record of the keys in the order
      in which they got their address; `hung` says that the skip loop has been entered
      and will not be left. */
  datatype Table = Table(leases: map<Key, u32>, offset: u32, grants: seq<Key>, hung: bool)

  const EMPTY: Table := Table(map[], 0, [], false)

  datatype Outcome = Granted(address: u32) | Exhausted | Hangs

  predicate Usable(a: int)
  {
    a % 0x100 != 0 && a % 0x100 != 0xFF
  }

  function Lookup(t: Table, key: Key): u32
  {
    if key in t.leases then t.leases[key] else 0
  }

  // ----- The skip loop -----

  /** Its variables: the address, the offset and the byte that it tests. */
  datatype Loop = Loop(next: u32, offset: u32, low: byte)

  predicate Guard(l: Loop) { l.low == 0xFF || l.low == 0 }

  function Body(loop: SkipLoop, l: Loop): Loop
  {
    var next := Wrap32(l.next + 1);
    Loop(next, Wrap32(l.offset + 1), if loop.AsWritten? then l.low else next % 0x100)
  }

  function Iterate(loop: SkipLoop, l: Loop, n: nat): Loop
  {
    if n == 0 then l else Body(loop, Iterate(loop, l, n - 1))
  }

  function EnterLoop(next: u32, offset: u32): Loop { Loop(next, offset, next % 0x100) }

  /** As written, the loop either is not entered or is never left. */
  lemma {:induction false} AsWrittenNeverEnds(next: u32, offset: u32, n: nat)
    ensures Guard(Iterate(AsWritten, EnterLoop(next, offset), n)) <==> !Usable(next)
  {
    if n > 0 {
      AsWrittenNeverEnds(next, offset, n - 1);
      assert forall l :: Guard(Body(AsWritten, l)) == Guard(l);
    }
  }

  /** Where the loop ends up when it does test the new address. */
  function Skip(next: u32, offset: u32): Loop
    decreases if next % 0x100 == 0xFF then 2 else if next % 0x100 == 0 then 1 else 0
  {
    if Usable(next) then EnterLoop(next, offset) else Skip(Wrap32(next + 1), Wrap32(offset + 1))
  }

  // ----- getOfferAddress -----

  function Offer(host: ByteOrder, r: Range, t: Table, key: Key): (Table, Outcome)
  {
    if Lookup(t, key) != 0 then (t, Granted(t.leases[key]))
    else
      var created := t.(leases := t.leases[key := 0]);
      var next := Wrap32(r.first + t.offset);
      if r.loop.AsWritten? && !Usable(next) then (created.(hung := true), Hangs)
      else
        var l := Skip(next, t.offset);
        if l.next <= r.last then
          (Table(t.leases[key := Htonl(host, l.next)], Wrap32(l.offset + 1), t.grants + [key], t.hung),
           Granted(Htonl(host, l.next)))
        else
          (created.(offset := l.offset), Exhausted)
  }

  /** Any sequence of calls; a call made after the program hangs does not happen. */
  function Serve(host: ByteOrder, r: Range, keys: seq<Key>): Table
  {
    if keys == [] then EMPTY
    else
      var t := Serve(host, r, keys[..|keys| - 1]);
      if t.hung then t else Offer(host, r, t, keys[|keys| - 1]).0
  }

  // ----- The addresses in order -----

  function NextUsable(a: nat): (b: nat)
    ensures a <= b <= a + 2 && Usable(b)
  {
    if a % 0x100 == 0 then a + 1 else if a % 0x100 == 0xFF then a + 2 else a
  }

  /** Nothing usable is passed over. */
  lemma NextIsLeast(a: nat, c: nat)
    requires a <= c && Usable(c)
    ensures NextUsable(a) <= c
  {
  }

  /** The k-th address from `first` on that does not end in .0 or .255. */
  function NthUsable(first: nat, k: nat): nat
  {
    if k == 0 then NextUsable(first) else NextUsable(NthUsable(first, k - 1) + 1)
  }

  lemma {:induction false} NthIncreases(first: nat, i: nat, j: nat)
    requires i < j
    ensures first <= NthUsable(first, i) < NthUsable(first, j)
  {
    if i + 1 < j {
      NthIncreases(first, i, j - 1);
    } else {
      NthAbove(first, i);
    }
  }

  lemma {:induction false} NthAbove(first: nat, k: nat)
    ensures first + k <= NthUsable(first, k) && Usable(NthUsable(first, k))
  {
    if k > 0 {
      NthAbove(first, k - 1);
    }
  }

  /** No usable address is left out of the numbering. */
  lemma {:induction false} EveryUsableIsNth(first: nat, k: nat, a: nat)
    requires Usable(a) && first <= a < NthUsable(first, k)
    ensures exists i | 0 <= i < k :: NthUsable(first, i) == a
  {
    if k > 0 {
      var previous := NthUsable(first, k - 1);
      if a < previous {
        EveryUsableIsNth(first, k - 1, a);
        var i :| 0 <= i < k - 1 && NthUsable(first, i) == a;
        assert 0 <= i < k;
      } else if a > previous {
        NextIsLeast(previous + 1, a);
      }
    } else {
      NextIsLeast(first, a);
    }
  }

  // ----- Exactness -----

  /** The ranges on which no address computation wraps at 32 bits. With the loop as
      written that is all of them, because it hangs first. */
  predicate NoWrap(r: Range)
  {
    r.loop.AsWritten? || (r.first < 0xFFFF_FFFF && r.last < 0xFFFF_FFFE)
  }

  function Ceiling(r: Range): u32
  {
    if r.loop.AsWritten? then 0xFFFF_FFFF else 0xFFFF_FFFE
  }

  /** The k-th key to get an address holds the k-th usable address of the range, and
      nobody else holds one. */
  ghost predicate Exact(host: ByteOrder, r: Range, t: Table)
  {
    && (forall i, j | 0 <= i < j < |t.grants| :: t.grants[i] != t.grants[j])
    && (forall k | 0 <= k < |t.grants| ::
          && NthUsable(r.first, k) <= r.last
          && t.grants[k] in t.leases && t.leases[t.grants[k]] == Htonl(host, NthUsable(r.first, k)))
    && (forall key | key in t.leases && t.leases[key] != 0 :: key in t.grants)
  }

  /** The offset leads to the next address. */
  ghost predicate OnTrack(r: Range, t: Table)
  {
    && r.first + t.offset <= Ceiling(r)
    && NextUsable(r.first + t.offset) == NthUsable(r.first, |t.grants|)
  }

  lemma SkipIsNext(next: u32, offset: u32)
    requires offset <= next < 0xFFFF_FFFF
    ensures NextUsable(next) <= 0xFFFF_FFFE
    ensures Skip(next, offset).next == NextUsable(next)
    ensures Skip(next, offset).offset == offset + NextUsable(next) - next
  {
    if next % 0x100 == 0xFF {
      SkipStep(next, offset);
      SkipStep(next + 1, offset + 1);
    } else if next % 0x100 == 0 {
      SkipStep(next, offset);
    }
  }

  lemma SkipStep(next: u32, offset: u32)
    requires offset <= next < 0xFFFF_FFFF && !Usable(next)
    ensures next + 1 <= 0xFFFF_FFFE && Skip(next, offset) == Skip(next + 1, offset + 1)
    ensures (next + 1) % 0x100 == if next % 0x100 == 0 then 1 else 0
  {
    var q := next / 0x100;
    assert next % 0x100 == 0 ==> next + 1 == q * 0x100 + 1;
    assert next % 0x100 == 0xFF ==> next + 1 == (q + 1) * 0x100;
    assert Wrap32(next + 1) == next + 1 && Wrap32(offset + 1) == offset + 1;
  }

  lemma HtonlInjective(host: ByteOrder, x: u32, y: u32)
    ensures Htonl(host, x) == Htonl(host, y) ==> x == y
  {
    hide Htonl, Ntohl;
    HostNetwork32(host, x);
    HostNetwork32(host, y);
  }

  lemma HtonlOfZero(host: ByteOrder)
    ensures Htonl(host, 0) == 0
  {
    assert Store32(Big, 0) == [0, 0, 0, 0];
  }

  lemma HtonlZero(host: ByteOrder, x: u32)
    ensures Htonl(host, x) == 0 <==> x == 0
  {
    hide Htonl;
    HtonlOfZero(host);
    HtonlInjective(host, x, 0);
  }

  /** What a key without an address gets when the offset leads to `next`. */
  lemma OfferFresh(host: ByteOrder, r: Range, t: Table, key: Key, next: nat)
    requires r.first + t.offset <= Ceiling(r) && NextUsable(r.first + t.offset) == next
    requires Lookup(t, key) == 0
    ensures r.loop.Recomputing? ==> next <= 0xFFFF_FFFE
    ensures var (t', o) := Offer(host, r, t, key);
            if r.loop.AsWritten? && next != r.first + t.offset then
              o == Hangs && t' == t.(leases := t.leases[key := 0], hung := true)
            else if next <= r.last then
              o == Granted(Htonl(host, next)) &&
              t' == Table(t.leases[key := Htonl(host, next)], next + 1 - r.first, t.grants + [key], t.hung)
            else
              o == Exhausted && t' == t.(leases := t.leases[key := 0], offset := next - r.first)
  {
    hide Htonl, Usable, NextUsable, Wrap32;
    var at := r.first + t.offset;
    FitsWord(at);
    NextIsSelf(at);
    if at < 0xFFFF_FFFF {
      SkipIsNext(at, t.offset);
      FitsWord(next + 1 - r.first);
    } else {
      TopIsUnusable();
    }
  }

  lemma FitsWord(x: int)
    ensures 0 <= x <= 0xFFFF_FFFF ==> Wrap32(x) == x
  {
  }

  lemma TopIsUnusable()
    ensures !Usable(0xFFFF_FFFF)
  {
  }

  /** A grant puts the next usable address at the end of the record. */
  lemma GrantKeepsExact(host: ByteOrder, r: Range, t: Table, key: Key, t': Table)
    requires Exact(host, r, t) && Lookup(t, key) == 0 && NthUsable(r.first, |t.grants|) <= r.last
    requires t'.leases == t.leases[key := Htonl(host, NthUsable(r.first, |t.grants|))]
    requires t'.grants == t.grants + [key]
    ensures Exact(host, r, t')
  {
    hide Htonl;
    forall k | 0 <= k < |t.grants|
      ensures t.grants[k] != key
    {
      NthAbove(r.first, k);
      HtonlZero(host, NthUsable(r.first, k));
    }
  }

  lemma OfferKeepsExact(host: ByteOrder, r: Range, t: Table, key: Key)
    requires NoWrap(r) && Exact(host, r, t) && OnTrack(r, t)
    ensures Exact(host, r, Offer(host, r, t, key).0)
    ensures OnTrack(r, Offer(host, r, t, key).0)
  {
    hide Htonl, Offer, Usable, NextUsable, Exact;
    var t' := Offer(host, r, t, key).0;
    var next := NthUsable(r.first, |t.grants|);
    if Lookup(t, key) != 0 {
      OfferKnown(host, r, t, key);
    } else {
      OfferFresh(host, r, t, key, next);
      NthAbove(r.first, |t.grants|);
      NextIsSelf(next);
      if t'.grants != t.grants {
        GrantKeepsExact(host, r, t, key, t');
      } else {
        EntryKeepsExact(host, r, t, key, t');
      }
    }
  }

  /** Creating an entry without an address changes nothing. */
  lemma EntryKeepsExact(host: ByteOrder, r: Range, t: Table, key: Key, t': Table)
    requires Exact(host, r, t) && Lookup(t, key) == 0
    requires t'.leases == t.leases[key := 0] && t'.grants == t.grants
    ensures Exact(host, r, t')
  {
    hide Htonl, Usable, NextUsable;
    forall k | 0 <= k < |t.grants|
      ensures t.grants[k] != key
    {
      NthAbove(r.first, k);
      HtonlZero(host, NthUsable(r.first, k));
    }
  }

  lemma OfferKnown(host: ByteOrder, r: Range, t: Table, key: Key)
    requires Lookup(t, key) != 0
    ensures Offer(host, r, t, key) == (t, Granted(Lookup(t, key)))
  {
  }

  /** The exact allocator: after any sequence of calls the k-th key to succeed holds the
      k-th usable address of the range. */
  lemma {:induction false} ServeIsExact(host: ByteOrder, r: Range, keys: seq<Key>)
    requires NoWrap(r)
    ensures Exact(host, r, Serve(host, r, keys))
    ensures OnTrack(r, Serve(host, r, keys))
  {
    hide Offer;
    if keys != [] {
      var t := Serve(host, r, keys[..|keys| - 1]);
      ServeIsExact(host, r, keys[..|keys| - 1]);
      if !t.hung {
        OfferKeepsExact(host, r, t, keys[|keys| - 1]);
      }
    }
  }

  /** The nonzero leases are pairwise distinct, and they are the network form of
      addresses in the range. */
  ghost predicate Distinct(host: ByteOrder, r: Range, leases: map<Key, u32>)
  {
    && (forall a, b | a in leases && b in leases && a != b && leases[a] != 0 :: leases[a] != leases[b])
    && (forall a | a in leases && leases[a] != 0 :: r.first <= Ntohl(host, leases[a]) <= r.last)
  }

  lemma ExactIsDistinct(host: ByteOrder, r: Range, t: Table)
    requires Exact(host, r, t)
    ensures Distinct(host, r, t.leases)
  {
    hide Htonl, Ntohl;
    forall a, b | a in t.leases && b in t.leases && a != b && t.leases[a] != 0
      ensures t.leases[a] != t.leases[b]
    {
      if t.leases[b] != 0 {
        var i :| 0 <= i < |t.grants| && t.grants[i] == a;
        var j :| 0 <= j < |t.grants| && t.grants[j] == b;
        NthIncreases(r.first, if i < j then i else j, if i < j then j else i);
        HtonlInjective(host, NthUsable(r.first, i), NthUsable(r.first, j));
      }
    }
    forall a | a in t.leases && t.leases[a] != 0
      ensures r.first <= Ntohl(host, t.leases[a]) <= r.last
    {
      var i :| 0 <= i < |t.grants| && t.grants[i] == a;
      NthAbove(r.first, i);
      HostNetwork32(host, NthUsable(r.first, i));
    }
  }

  /** A server that moves past unusable addresses says "out of addresses" to a key
      without one exactly when every usable address of the range is held. */
  lemma ExhaustedIffAllHeld(host: ByteOrder, r: Range, keys: seq<Key>, key: Key)
    requires NoWrap(r) && r.loop.Recomputing?
    requires Lookup(Serve(host, r, keys), key) == 0
    ensures var t := Serve(host, r, keys);
            Offer(host, r, t, key).1 == Exhausted
            <==> forall a: u32 | r.first <= a <= r.last && Usable(a) ::
                   exists k | 0 <= k < |t.grants| :: Lookup(t, t.grants[k]) == Htonl(host, a)
  {
    hide Htonl, Offer;
    var t := Serve(host, r, keys);
    ServeIsExact(host, r, keys);
    OfferFresh(host, r, t, key, NthUsable(r.first, |t.grants|));
    var n := |t.grants|;
    NthAbove(r.first, n);
    if NthUsable(r.first, n) <= r.last {
      var a: u32 := NthUsable(r.first, n);
      forall k | 0 <= k < n
        ensures Lookup(t, t.grants[k]) != Htonl(host, a)
      {
        NthIncreases(r.first, k, n);
        HtonlInjective(host, NthUsable(r.first, k), a);
      }
      assert r.first <= a <= r.last && Usable(a);
    } else {
      forall a: u32 | r.first <= a <= r.last && Usable(a)
        ensures exists k | 0 <= k < n :: Lookup(t, t.grants[k]) == Htonl(host, a)
      {
        EveryUsableIsNth(r.first, n, a);
        var k :| 0 <= k < n && NthUsable(r.first, k) == a;
        assert Lookup(t, t.grants[k]) == Htonl(host, a);
      }
    }
  }

  // ----- Clients without end -----

  /** The keys of n different MAC addresses on one interface. */
  function FreshKeys(iface: u32, n: nat): (keys: seq<Key>)
    requires n <= 0x1_0000_0000
    ensures |keys| == n
  {
    seq(n, i requires 0 <= i < n => Key(iface, [2, 0] + Store32(Big, i)))
  }

  lemma FreshKeysSnoc(iface: u32, n: nat)
    requires 0 < n <= 0x1_0000_0000
    ensures FreshKeys(iface, n) == FreshKeys(iface, n - 1) + [FreshKeys(iface, n)[n - 1]]
    ensures FreshKeys(iface, n)[n - 1] !in FreshKeys(iface, n - 1)
    ensures FreshKeys(iface, n)[n - 1].iface == iface
  {
    hide Store32;
    var before, key := FreshKeys(iface, n - 1), FreshKeys(iface, n)[n - 1];
    forall i | 0 <= i < |before|
      ensures before[i] != key
    {
      MacsDiffer(i, n - 1);
    }
  }

  lemma MacsDiffer(i: u32, j: u32)
    requires i != j
    ensures [2, 0] + Store32(Big, i) != [2, 0] + Store32(Big, j)
  {
    hide Store32, Load32;
    LoadStore32(Big, i);
    LoadStore32(Big, j);
    assert ([2, 0] + Store32(Big, i))[2..] == Store32(Big, i);
    assert ([2, 0] + Store32(Big, j))[2..] == Store32(Big, j);
  }

  ghost predicate OnInterface(keys: seq<Key>, iface: u32)
  {
    forall key | key in keys :: key.iface == iface
  }

  lemma {:induction false} FreshOnInterface(iface: u32, n: nat)
    requires n <= 0x1_0000_0000
    ensures OnInterface(FreshKeys(iface, n), iface)
  {
  }

  // ----- The loop as written -----

  /** A server whose skip loop is the one in the source hands out consecutive addresses
      only, at most 254 of them, and hangs as soon as a client without an address asks
      when the next address ends in .0 or .255. */
  lemma AsWrittenServes(host: ByteOrder, r: Range, keys: seq<Key>, key: Key)
    requires r.loop.AsWritten?
    ensures var t := Serve(host, r, keys);
            && |t.grants| <= 254 && r.first + |t.grants| <= 0x1_0000_0000
            && (forall k | 0 <= k < |t.grants| :: Lookup(t, t.grants[k]) == Htonl(host, r.first + k))
            && (!t.hung && Lookup(t, key) == 0 ==>
                  && (Offer(host, r, t, key).1 == Hangs <==> !Usable(r.first + |t.grants|))
                  && (Offer(host, r, t, key).1 == Exhausted <==>
                        Usable(r.first + |t.grants|) && r.first + |t.grants| > r.last))
  {
    hide Htonl, Offer, Usable, NextUsable;
    var t := Serve(host, r, keys);
    var n := |t.grants|;
    ServeIsExact(host, r, keys);
    AsWrittenConsecutive(host, r, keys);
    ConsecutiveUsable(r.first, n);
    AtMost254(r.first, n);
    if !t.hung && Lookup(t, key) == 0 {
      OfferFresh(host, r, t, key, NthUsable(r.first, n));
      NextIsSelf(r.first + n);
    }
  }

  lemma NextIsSelf(a: nat)
    ensures NextUsable(a) == a <==> Usable(a)
  {
  }

  lemma AtMost254(first: nat, n: nat)
    requires forall a | first <= a < first + n :: Usable(a)
    ensures n <= 254
  {
    var broadcast := first + (0xFF - first % 0x100);
    assert !Usable(broadcast) by {
      assert broadcast == first / 0x100 * 0x100 + 0xFF;
    }
    assert first % 0x100 == 0 ==> !Usable(first);
  }

  /** The first n usable addresses are consecutive. */
  ghost predicate Consecutive(first: nat, n: nat)
  {
    forall k | 0 <= k < n :: NthUsable(first, k) == first + k
  }

  lemma ConsecutiveUsable(first: nat, n: nat)
    requires Consecutive(first, n)
    ensures forall a | first <= a < first + n :: Usable(a)
  {
    hide Usable, NextUsable;
    forall a | first <= a < first + n
      ensures Usable(a)
    {
      NthAbove(first, a - first);
    }
  }

  /** As long as it has not hung, the offset counts the grants. */
  lemma {:induction false} AsWrittenConsecutive(host: ByteOrder, r: Range, keys: seq<Key>)
    requires r.loop.AsWritten?
    ensures var t := Serve(host, r, keys);
            t.offset == |t.grants| && Consecutive(r.first, |t.grants|)
  {
    hide Htonl, Offer, Usable, NextUsable;
    if keys != [] {
      var t := Serve(host, r, keys[..|keys| - 1]);
      var key := keys[|keys| - 1];
      AsWrittenConsecutive(host, r, keys[..|keys| - 1]);
      ServeIsExact(host, r, keys[..|keys| - 1]);
      if !t.hung {
        if Lookup(t, key) == 0 {
          OfferFresh(host, r, t, key, NthUsable(r.first, |t.grants|));
        } else {
          OfferKnown(host, r, t, key);
        }
      }
    }
  }

  /** The ranges on which the loop as written never gets to an address it would have to
      move past: the first address, and all up to the one after the last. */
  ghost predicate NothingToSkip(r: Range)
  {
    Usable(r.first) && forall a: nat | r.first <= a <= r.last + 1 :: Usable(a)
  }

  lemma {:induction false} ServesWithoutHanging(host: ByteOrder, r: Range, keys: seq<Key>)
    requires r.loop.AsWritten? && NothingToSkip(r)
    ensures !Serve(host, r, keys).hung
  {
    hide Offer, Usable, Exact, OnTrack;
    if keys != [] {
      var before, key := keys[..|keys| - 1], keys[|keys| - 1];
      var t := Serve(host, r, before);
      ServesWithoutHanging(host, r, before);
      if Lookup(t, key) != 0 {
        OfferKnown(host, r, t, key);
      } else {
        GrantsInRange(host, r, before);
        OfferHangs(host, r, before, key);
      }
    }
  }

  /** What a new key is told while the loop has not been entered. */
  lemma OfferHangs(host: ByteOrder, r: Range, keys: seq<Key>, key: Key)
    requires r.loop.AsWritten? && Lookup(Serve(host, r, keys), key) == 0 && !Serve(host, r, keys).hung
    ensures var t := Serve(host, r, keys);
            Offer(host, r, t, key).0.hung <==> !Usable(r.first + |t.grants|)
  {
    hide Htonl, Offer, Usable, NextUsable, Exact;
    var t := Serve(host, r, keys);
    ServeIsExact(host, r, keys);
    AsWrittenConsecutive(host, r, keys);
    OfferFresh(host, r, t, key, NthUsable(r.first, |t.grants|));
    NextIsSelf(r.first + |t.grants|);
  }

  lemma GrantsInRange(host: ByteOrder, r: Range, keys: seq<Key>)
    requires r.loop.AsWritten?
    ensures var n := |Serve(host, r, keys).grants|; n == 0 || r.first + n <= r.last + 1
  {
    hide Exact, OnTrack, Consecutive;
    ServeIsExact(host, r, keys);
    AsWrittenConsecutive(host, r, keys);
    ConsecutiveInRange(host, r, Serve(host, r, keys));
  }

  lemma ConsecutiveInRange(host: ByteOrder, r: Range, t: Table)
    requires Exact(host, r, t) && Consecutive(r.first, |t.grants|)
    ensures var n := |t.grants|; n == 0 || r.first + n <= r.last + 1
  {
    hide Htonl, Usable, NextUsable;
    var n := |t.grants|;
    assert n > 0 ==> NthUsable(r.first, n - 1) <= r.last;
  }

  /** As many new keys as there are usable addresses in a row are all served. */
  lemma {:induction false} ServeFreshWritten(host: ByteOrder, r: Range, iface: u32, n: nat)
    requires r.loop.AsWritten? && n <= 256 && (n > 0 ==> r.first + n - 1 <= r.last)
    requires forall a: nat | r.first <= a < r.first + n :: Usable(a)
    ensures var t := Serve(host, r, FreshKeys(iface, n));
            !t.hung && |t.grants| == n && forall key | key in t.leases :: key in FreshKeys(iface, n)
  {
    hide Htonl, Offer, Usable, NextUsable, Exact, OnTrack, FreshKeys;
    if n > 0 {
      var before, key := FreshKeys(iface, n - 1), FreshKeys(iface, n)[n - 1];
      FreshKeysSnoc(iface, n);
      ServeFreshWritten(host, r, iface, n - 1);
      var t := Serve(host, r, before);
      ServeSnoc(host, r, before, key);
      ServeIsExact(host, r, before);
      AsWrittenConsecutive(host, r, before);
      assert OnTrack(r, t) ==> NextUsable(r.first + (n - 1)) == NthUsable(r.first, n - 1);
      NextIsSelf(r.first + (n - 1));
      OfferFresh(host, r, t, key, r.first + (n - 1));
    }
  }

  /** A server as it is written can be brought to hang by clients on any one interface,
      unless the range has nothing to skip; then nobody ever can. */
  lemma HangsIffSkips(host: ByteOrder, r: Range, iface: u32)
    requires r.loop.AsWritten?
    ensures (forall keys: seq<Key> | OnInterface(keys, iface) :: !Serve(host, r, keys).hung) <==> NothingToSkip(r)
  {
    hide Usable, OnInterface, Offer;
    if NothingToSkip(r) {
      forall keys: seq<Key> | OnInterface(keys, iface)
        ensures !Serve(host, r, keys).hung
      {
        ServesWithoutHanging(host, r, keys);
      }
    } else {
      var n := FirstSkipped(r);
      var keys, key := FreshKeys(iface, n), FreshKeys(iface, n + 1)[n];
      ServeFreshWritten(host, r, iface, n);
      FreshKeysSnoc(iface, n + 1);
      FreshOnInterface(iface, n + 1);
      OfferHangs(host, r, keys, key);
      ServeSnoc(host, r, keys, key);
      assert OnInterface(keys + [key], iface);
    }
  }

  /** The first address to be skipped, counted from the start of the range. */
  lemma FirstSkipped(r: Range) returns (n: nat)
    requires !NothingToSkip(r)
    ensures !Usable(r.first + n) && n < 256 && (n > 0 ==> r.first + n <= r.last + 1)
    ensures forall a: nat | r.first <= a < r.first + n :: Usable(a)
  {
    hide Usable;
    n := 0;
    if Usable(r.first) {
      var a: nat :| r.first <= a <= r.last + 1 && !Usable(a);
      n := LeastSkipped(r.first, a - r.first);
      AtMost254(r.first, n);
    }
  }

  lemma {:induction false} LeastSkipped(first: nat, k: nat) returns (n: nat)
    requires !Usable(first + k)
    ensures n <= k && !Usable(first + n) && forall a: nat | first <= a < first + n :: Usable(a)
  {
    hide Usable;
    if a: nat :| first <= a < first + k && !Usable(a) {
      n := LeastSkipped(first, a - first);
    } else {
      n := k;
    }
  }

  // ----- Ranges that reach the top of the address space -----

  /** As many different keys as there are usable addresses all get one. */
  lemma {:induction false} ServeFresh(host: ByteOrder, r: Range, iface: u32, n: nat)
    requires r.loop.Recomputing? && r.first <= 0xFFFF_FFFE && n <= 0x1_0000_0000
    requires n > 0 ==> NthUsable(r.first, n - 1) <= r.last && NthUsable(r.first, n - 1) <= 0xFFFF_FFFE
    ensures var t := Serve(host, r, FreshKeys(iface, n));
            && Exact(host, r, t) && !t.hung && t.grants == FreshKeys(iface, n)
            && (forall key | key in t.leases :: key in FreshKeys(iface, n))
            && r.first + t.offset == if n == 0 then r.first else NthUsable(r.first, n - 1) + 1
  {
    hide Htonl, Offer, Usable, NextUsable, Exact, FreshKeys;
    if n == 0 {
      EmptyIsExact(host, r);
    } else {
      var before, key := FreshKeys(iface, n - 1), FreshKeys(iface, n)[n - 1];
      FreshKeysSnoc(iface, n);
      if n > 1 {
        NthIncreases(r.first, n - 2, n - 1);
      }
      ServeFresh(host, r, iface, n - 1);
      var t := Serve(host, r, before);
      NextFromOffset(r.first, n - 1);
      OfferFresh(host, r, t, key, NthUsable(r.first, n - 1));
      GrantKeepsExact(host, r, t, key, Offer(host, r, t, key).0);
      ServeSnoc(host, r, before, key);
    }
  }

  lemma ServeSnoc(host: ByteOrder, r: Range, keys: seq<Key>, key: Key)
    ensures var t := Serve(host, r, keys);
            Serve(host, r, keys + [key]) == if t.hung then t else Offer(host, r, t, key).0
  {
    hide Offer;
    assert (keys + [key])[..|keys|] == keys;
  }

  lemma EmptyIsExact(host: ByteOrder, r: Range)
    ensures Exact(host, r, EMPTY)
  {
  }

  lemma NextFromOffset(first: nat, k: nat)
    ensures NextUsable(if k == 0 then first else NthUsable(first, k - 1) + 1) == NthUsable(first, k)
  {
  }

  lemma SkipAtTop(offset: u32)
    ensures Skip(0xFFFF_FFFF, offset).next == 1
  {
    assert Wrap32(0xFFFF_FFFF + 1) == 0 && Wrap32(0 + 1) == 1;
    assert Skip(1, Wrap32(Wrap32(offset + 1) + 1)).next == 1;
    assert Skip(0, Wrap32(offset + 1)).next == 1;
  }

  /** A request that finds the offset at the top of the address space is given the
      address 0.0.0.1. */
  lemma WrapsToOne(host: ByteOrder, r: Range, t: Table, key: Key)
    requires r.loop.Recomputing? && r.last > 0 && r.first + t.offset == 0xFFFF_FFFF && Lookup(t, key) == 0
    ensures Offer(host, r, t, key).0.leases == t.leases[key := Htonl(host, 1)]
  {
    hide Htonl;
    FitsWord(0xFFFF_FFFF);
    SkipAtTop(t.offset);
  }

  /** A server that moves past unusable addresses keeps its leases distinct and in the
      range exactly when the range stays clear of the top of the address space; else
      clients on any one interface can bring it to break that. (Its main program refuses
      a range that ends at zero.) */
  lemma DistinctIffNoWrap(host: ByteOrder, r: Range, iface: u32)
    requires r.loop.Recomputing? && r.last > 0
    ensures (forall keys: seq<Key> | OnInterface(keys, iface) :: Distinct(host, r, Serve(host, r, keys).leases))
            <==> NoWrap(r)
  {
    hide OnInterface, Distinct;
    if NoWrap(r) {
      forall keys: seq<Key> | OnInterface(keys, iface)
        ensures Distinct(host, r, Serve(host, r, keys).leases)
      {
        ServeIsExact(host, r, keys);
        ExactIsDistinct(host, r, Serve(host, r, keys));
      }
    } else {
      var keys := Overflowing(host, r, iface);
    }
  }

  lemma Overflowing(host: ByteOrder, r: Range, iface: u32) returns (keys: seq<Key>)
    requires r.loop.Recomputing? && r.last > 0 && !NoWrap(r)
    ensures OnInterface(keys, iface) && !Distinct(host, r, Serve(host, r, keys).leases)
  {
    hide Htonl, Ntohl, Offer, Usable, NextUsable, Exact, FreshKeys, Distinct;
    var table, key := EMPTY, Key(iface, [2, 0, 0, 0, 0, 0]);
    keys := [];
    if r.first < 0xFFFF_FFFF {
      var m := LastNth(r.first);
      ServeFresh(host, r, iface, m + 1);
      keys := FreshKeys(iface, m + 1);
      key := FreshKeys(iface, m + 2)[m + 1];
      FreshKeysSnoc(iface, m + 2);
      FreshOnInterface(iface, m + 1);
      table := Serve(host, r, keys);
      if r.first <= 1 {
        FirstHoldsOne(host, r, table);
      }
    }
    WrapsToOne(host, r, table, key);
    ServeSnoc(host, r, keys, key);
    NotDistinct(host, r, table, key);
    keys := keys + [key];
  }

  lemma NotDistinct(host: ByteOrder, r: Range, t: Table, key: Key)
    requires key !in t.leases && (r.first > 1 || exists k :: k in t.leases && t.leases[k] == Htonl(host, 1))
    ensures !Distinct(host, r, t.leases[key := Htonl(host, 1)])
  {
    hide Htonl, Ntohl;
    HostNetwork32(host, 1);
    HtonlZero(host, 1);
    var leases := t.leases[key := Htonl(host, 1)];
    assert leases[key] == Htonl(host, 1);
    if r.first <= 1 {
      var k :| k in t.leases && t.leases[k] == Htonl(host, 1);
      assert leases[k] == leases[key];
    }
  }

  lemma FirstHoldsOne(host: ByteOrder, r: Range, t: Table)
    requires r.first <= 1 && Exact(host, r, t) && t.grants != []
    ensures t.grants[0] in t.leases && t.leases[t.grants[0]] == Htonl(host, 1)
  {
    hide Htonl;
    assert NthUsable(r.first, 0) == 1;
  }

  /** 255.255.255.254 has a number. */
  lemma LastNth(first: u32) returns (m: nat)
    requires first <= 0xFFFF_FFFE
    ensures NthUsable(first, m) == 0xFFFF_FFFE && m < 0xFFFF_FFFF
  {
    NthAbove(first, 0x1_0000_0000);
    EveryUsableIsNth(first, 0x1_0000_0000, 0xFFFF_FFFE);
    m :| 0 <= m < 0x1_0000_0000 && NthUsable(first, m) == 0xFFFF_FFFE;
    NthAbove(first, m);
  }

  // ----- Ranges that serve nobody -----

  /** Whether the first client to ask gets an address. */
  predicate CanServe(r: Range)
  {
    (r.loop.AsWritten? ==> Usable(r.first)) && Skip(r.first, 0).next <= r.last
  }

  lemma FirstIsServed(host: ByteOrder, r: Range, key: Key)
    ensures Offer(host, r, EMPTY, key).1.Granted? <==> CanServe(r)
  {
    hide Htonl;
  }

  /** No leases, and none to come. */
  ghost predicate Barren(r: Range, t: Table)
  {
    && (forall key | key in t.leases :: t.leases[key] == 0)
    && (t.hung || NothingLeft(r, Wrap32(r.first + t.offset), t.offset))
  }

  predicate NothingLeft(r: Range, next: u32, offset: u32)
  {
    (r.loop.AsWritten? && !Usable(next)) || Skip(next, offset).next > r.last
  }

  /** The skip loop keeps address and offset in step. */
  lemma {:induction false} SkipInStep(first: u32, next: u32, offset: u32)
    requires Wrap32(first + offset) == next
    ensures var l := Skip(next, offset);
            Wrap32(first + l.offset) == l.next && Usable(l.next) && Skip(l.next, l.offset) == l
    decreases if next % 0x100 == 0xFF then 2 else if next % 0x100 == 0 then 1 else 0
  {
    if !Usable(next) {
      StepInStep(first, offset);
      SkipInStep(first, Wrap32(next + 1), Wrap32(offset + 1));
    }
  }

  lemma StepInStep(first: u32, offset: u32)
    ensures Wrap32(first + Wrap32(offset + 1)) == Wrap32(Wrap32(first + offset) + 1)
  {
  }

  lemma BarrenOffers(host: ByteOrder, r: Range, t: Table, key: Key)
    requires Barren(r, t) && !t.hung
    ensures Barren(r, Offer(host, r, t, key).0)
  {
    hide Htonl, Usable, Wrap32;
    SkipInStep(r.first, Wrap32(r.first + t.offset), t.offset);
  }
}
