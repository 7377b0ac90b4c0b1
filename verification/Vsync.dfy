/** The vsync thread of `hwcomposer/hwcomposer.cpp`: how long it sleeps, in the integer
    widths of the source. Times are whole nanoseconds. */
module Vsync {
  import opened Bytes

  const PERIOD_60HZ: u32 := 16666666

  function Wrap64(x: int): u64 { x % 0x1_0000_0000_0000_0000 }

  /** A 64-bit word read as a signed `long`. */
  function Signed64(x: u64): int
  {
    if x >= 0x8000_0000_0000_0000 then x - 0x1_0000_0000_0000_0000 else x
  }

  /** time_to_sleep_to_next_vsync. The number of frames is an `unsigned`, and so is its
      product with the period. */
  function TimeToSleep(now: u64, last: u64, period: u32): int
    requires period > 0
  {
    var frames := Wrap32(Wrap64(now - last) / period + 1);
    var next := Wrap64(last + Wrap32((frames as int) * period));
    Signed64(Wrap64(next - now))
  }

  /** The distance from the last vsync to the next one on its grid, a whole number of
      periods. */
  function Ahead(now: u64, last: u64, period: u32): nat
    requires period > 0 && last <= now
  {
    ((now - last) / period + 1) * period
  }

  lemma ProductWraps(a: nat, b: u32)
    ensures Wrap32((Wrap32(a) as int) * b) == Wrap32(a * b)
  {
    var q := a / 0x1_0000_0000;
    assert a == Wrap32(a) + q * 0x1_0000_0000;
    assert a * b == (Wrap32(a) as int) * b + (q * b) * 0x1_0000_0000;
    WrapDrops((Wrap32(a) as int) * b, q * b);
  }

  lemma WrapDrops(x: int, k: int)
    ensures Wrap32(x + k * 0x1_0000_0000) == Wrap32(x)
  {
  }

  lemma AheadBounds(now: u64, last: u64, period: u32)
    requires period > 0 && last <= now
    ensures 0 < Ahead(now, last, period) - (now - last) <= period
  {
    var d: nat := now - last;
    var q := d / period;
    assert d == q * period + d % period;
    assert (q + 1) * period == q * period + period;
  }

  /** The function is right exactly as long as the distance to the next vsync, measured
      from the last one, fits in 32 bits: then the sleep is positive, at most a period,
      and ends on the grid. Otherwise it is negative. */
  lemma SleepIsRight(now: u64, last: u64, period: u32)
    requires period > 0 && last <= now && now < 0x4000_0000_0000_0000
    ensures var t, sleep := Ahead(now, last, period), TimeToSleep(now, last, period);
            if t < 0x1_0000_0000 then 0 < sleep <= period && now + sleep == last + t
            else sleep < 0
  {
    var d: nat := now - last;
    var q := d / period;
    var t := (q + 1) * period;
    AheadBounds(now, last, period);
    assert Wrap64(d) == d;
    ProductWraps(q + 1, period);
    var product := Wrap32(t);
    assert Wrap32((Wrap32(q + 1) as int) * period) == product;
    NextIsExact(now, last, product);
    if t >= 0x1_0000_0000 {
      WrapLoses(t);
    }
  }

  lemma WrapLoses(t: nat)
    requires t >= 0x1_0000_0000
    ensures Wrap32(t) <= t - 0x1_0000_0000
  {
  }

  lemma NextIsExact(now: u64, last: u64, product: u32)
    requires last <= now < 0x4000_0000_0000_0000
    ensures Signed64(Wrap64(Wrap64(last + product) - now)) == last + product - now
  {
    var r: int := last + product - now;
    assert Wrap64(last + product) == last + product;
    if r < 0 {
      assert Wrap64(r) == r + 0x1_0000_0000_0000_0000;
    }
  }

  // ----- The thread -----

  /** What the thread reads in one turn: the clock, the time of the last vsync as the
      feedback callback left it, whether callbacks are wanted, and whether a signal cuts
      the next sleep short. */
  datatype Reading = Reading(now: u64, last: u64, enabled: bool, interrupted: bool)

  predicate Plausible(r: Reading)
  {
    r.last <= r.now < 0x4000_0000_0000_0000
  }

  /** The last vsync is recent enough. */
  predicate Fresh(r: Reading, period: u32)
    requires period > 0 && Plausible(r)
  {
    Ahead(r.now, r.last, period) < 0x1_0000_0000
  }

  /** The timestamps of the callbacks. */
  function Stamps(rs: seq<Reading>): seq<u64>
  {
    if rs == [] then []
    else Stamps(rs[..|rs| - 1]) + (if rs[|rs| - 1].enabled then [rs[|rs| - 1].now] else [])
  }

  /** The stamps are those of the readings at which callbacks are wanted, each once and in
      order: the k-th stamp belongs to the which[k]-th reading. */
  ghost predicate Chosen(rs: seq<Reading>, stamps: seq<u64>, which: seq<nat>)
  {
    && |which| == |stamps|
    && (forall k | 0 <= k < |which| :: which[k] < |rs| && rs[which[k]].enabled && stamps[k] == rs[which[k]].now)
    && (forall k | 0 < k < |which| :: which[k - 1] < which[k])
    && (forall j: nat | j < |rs| && rs[j].enabled :: j in which)
  }

  lemma ChosenStays(rs: seq<Reading>, r: Reading, stamps: seq<u64>, which: seq<nat>)
    requires Chosen(rs, stamps, which) && !r.enabled
    ensures Chosen(rs + [r], stamps, which)
  {
  }

  lemma ChosenGrows(rs: seq<Reading>, r: Reading, stamps: seq<u64>, which: seq<nat>)
    requires Chosen(rs, stamps, which) && r.enabled
    ensures Chosen(rs + [r], stamps + [r.now], which + [|rs|])
  {
    assert (which + [|rs|])[|which|] == |rs|;
  }

  lemma {:induction false} StampsAre(rs: seq<Reading>) returns (which: seq<nat>)
    ensures Chosen(rs, Stamps(rs), which)
  {
    which := [];
    if rs != [] {
      var n := |rs| - 1;
      hide Chosen;
      assert rs == rs[..n] + [rs[n]];
      which := StampsAre(rs[..n]);
      if rs[n].enabled {
        ChosenGrows(rs[..n], rs[n], Stamps(rs[..n]), which);
        which := which + [n];
      } else {
        ChosenStays(rs[..n], rs[n], Stamps(rs[..n]), which);
      }
    }
  }

  /** nanosleep accepts nanoseconds from zero to just below a second. */
  predicate Sleepable(ns: int) { 0 <= ns < 1_000_000_000 }

  /** The loop of hwc_vsync_thread for as long as there are readings, with the sleeps it
      has completed. Each ends on the grid of the vsync known when it was computed. The
      thread dies at the first reading that is not fresh, unless a signal ends it. */
  method VsyncThread(period: u32, rs: seq<Reading>) returns (sleeps: seq<int>, callbacks: seq<u64>)
    requires 0 < period < 1_000_000_000 && rs != []
    requires forall i | 0 <= i < |rs| :: Plausible(rs[i])
    ensures |sleeps| <= |rs|
    ensures forall i | 0 <= i < |sleeps| ::
              && Fresh(rs[i], period) && !rs[i].interrupted && 0 < sleeps[i] <= period
              && rs[i].now + sleeps[i] == rs[i].last + Ahead(rs[i].now, rs[i].last, period)
    ensures |sleeps| < |rs| ==> !Fresh(rs[|sleeps|], period) || rs[|sleeps|].interrupted
    ensures callbacks == Stamps(rs[1..if |sleeps| < |rs| then |sleeps| + 1 else |rs|])
  {
    hide TimeToSleep, Ahead;
    sleeps, callbacks := [], [];
    var i := 0;
    var wait := TimeToSleep(rs[0].now, rs[0].last, period);
    assert rs[1..1] == [];
    while true
      invariant 0 <= i < |rs| && |sleeps| == i
      invariant wait == TimeToSleep(rs[i].now, rs[i].last, period)
      invariant forall j | 0 <= j < i ::
          && Fresh(rs[j], period) && !rs[j].interrupted && 0 < sleeps[j] <= period
          && rs[j].now + sleeps[j] == rs[j].last + Ahead(rs[j].now, rs[j].last, period)
      invariant callbacks == Stamps(rs[1..i + 1])
      decreases |rs| - i
    {
      SleepIsRight(rs[i].now, rs[i].last, period);
      if !Sleepable(wait) || rs[i].interrupted {
        return;
      }
      sleeps := sleeps + [wait];
      i := i + 1;
      if i == |rs| {
        return;
      }
      wait := TimeToSleep(rs[i].now, rs[i].last, period);
      assert rs[1..i + 1][..i - 1] == rs[1..i];
      if rs[i].enabled {
        callbacks := callbacks + [rs[i].now];
      }
    }
  }

  /** At 60 Hz a last vsync that is 257 periods old, 4.28 seconds, ends the thread. */
  lemma StaleAfter(now: u64, last: u64)
    requires last <= now
    ensures Ahead(now, last, PERIOD_60HZ) < 0x1_0000_0000 <==> now - last < 257 * PERIOD_60HZ as int
  {
    var d: nat := now - last;
    var q := d / PERIOD_60HZ;
    assert 257 * 16666666 == 4283333162 && 258 * 16666666 == 4299999828;
  }
}
