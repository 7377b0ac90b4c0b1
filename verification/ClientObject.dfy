/** The classes `Timer` and `DhcpClient` with their fields and loops, each method tied
    to the function of ClientMachine.dfy that says what it does. */
module ClientObject {
  import opened Bytes
  import opened Messages
  import opened Builder
  import opened Configuration
  import opened ClientMachine
  import opened ClientRuns
  import opened Transmissions

  class Timer {
    var expires: u64

    constructor ()
      ensures expires == 0
    {
      expires := 0;
    }

    method SetSeconds(now: Millis, seconds: u32)
      modifies this
      ensures expires == ExpireSeconds(now, seconds)
      ensures forall later: Millis :: Expired(later, expires) <==> later - now >= 1000 * seconds as int
    {
      expires := now + (seconds as int) * 1000;
    }

    method HasExpired(now: Millis) returns (r: bool)
      ensures r == Expired(now, expires)
    {
      r := now >= expires;
    }

    method Remaining(now: Millis) returns (r: u64)
      ensures r == RemainingMillis(now, expires)
      ensures r == 0 <==> Expired(now, expires)
    {
      if now > expires {
        return 0;
      }
      return expires - now;
    }
  }

  /** All of a wait, or as much of it as there are events for. */
  function Wait(host: ByteOrder, c: Client, polls: seq<Poll>): Client
    decreases |polls|
  {
    if polls == [] || c.waiting.None? then c else Wait(host, PollStep(host, c, polls[0]), polls[1..])
  }

  class DhcpClient {
    const host: ByteOrder
    const mac: Mac
    const ids: TransactionIds
    const t1: Timer
    const t2: Timer
    var state: State
    var nextTimeout: u32
    var fuzzNextTimeout: bool
    var lastXid: u32
    var requestAddress: u32
    var serverAddress: u32
    var info: DhcpInfo
    var network: Network
    var transmitted: seq<seq<byte>>
    var headers: seq<(seq<byte>, seq<byte>)>

    /** This process sends nothing but this client's messages, each with headers
        that verify at its receivers. */
    ghost predicate Valid()
      reads this, ids, t1, t2
    {
      && t1 != t2 && ids.next == Wrap32(1 + |transmitted|)
      && |headers| == |transmitted|
      && forall k | 0 <= k < |headers| :: Verifies(headers[k].0, headers[k].1, transmitted[k])
    }

    ghost function View(waiting: Option<u32>): Client
      reads this, t1, t2
    {
      Client(state, nextTimeout, fuzzNextTimeout, waiting, lastXid, |transmitted|, t1.expires, t2.expires,
                    requestAddress, serverAddress, info, network)
    }

    constructor (host: ByteOrder, mac: Mac, network: Network)
      requires network.address == 0
      ensures Valid() && Starts(View(None)) && fresh(ids) && fresh(t1) && fresh(t2)
      ensures this.host == host && this.mac == mac && transmitted == []
    {
      this.host, this.mac, this.network := host, mac, network;
      ids := new TransactionIds();
      t1 := new Timer();
      t2 := new Timer();
      state, nextTimeout, fuzzNextTimeout := Init, INITIAL_TIMEOUT, true;
      lastXid, info := 0, NO_INFO;
      transmitted, headers := [], [];
    }

    method SetState(s: State)
      modifies this`state, this`nextTimeout, this`fuzzNextTimeout
      ensures forall w :: View(w) == SetNextState(old(View(w)), s)
    {
      state := s;
      nextTimeout := NO_TIMEOUT;
      fuzzNextTimeout := true;
    }

    method Increase()
      modifies this`nextTimeout
      ensures nextTimeout == IncreaseTimeout(old(nextTimeout))
      ensures forall k: nat :: old(nextTimeout) == Ladder(k) ==> nextTimeout == Ladder(k + 1)
    {
      if nextTimeout == NO_TIMEOUT {
        nextTimeout := INITIAL_TIMEOUT;
      } else {
        if nextTimeout < MAX_TIMEOUT {
          nextTimeout := Wrap32((nextTimeout as int) * 2);
        }
        if nextTimeout > MAX_TIMEOUT {
          nextTimeout := MAX_TIMEOUT;
        }
      }
    }

    method CalculateMillis(adjustment: int) returns (timeout: u32)
      ensures timeout == CalculateTimeout(View(None), adjustment)
      ensures TIMEOUT_SPAN <= nextTimeout <= MAX_TIMEOUT && -TIMEOUT_SPAN <= adjustment <= TIMEOUT_SPAN ==>
                nextTimeout - TIMEOUT_SPAN <= timeout <= nextTimeout + TIMEOUT_SPAN
      ensures !fuzzNextTimeout ==> timeout == nextTimeout
    {
      if !fuzzNextTimeout {
        return nextTimeout;
      }
      if adjustment < 0 && -adjustment > nextTimeout {
        return 0;
      }
      return Wrap32(nextTimeout + adjustment);
    }

    /** sendMessage */
    method Transmit(message: seq<byte>)
      requires |message| <= CAPACITY && |message| % 2 == 0
      modifies this`transmitted, this`headers
      ensures transmitted == old(transmitted) + [message]
      ensures |headers| == |old(headers)| + 1 && headers[..|headers| - 1] == old(headers)
      ensures Verifies(headers[|headers| - 1].0, headers[|headers| - 1].1, message)
    {
      hide Verifies;
      var ip, udp := SendMessage(host, message);
      transmitted := transmitted + [message];
      headers := headers + [(ip, udp)];
    }

    method SendDiscover()
      requires Valid()
      modifies this`lastXid, this`transmitted, this`headers, ids
      ensures Valid() && lastXid == Htonl(host, old(ids.next))
      ensures transmitted == old(transmitted) + [Encode(host, ClientHeader(host, lastXid, mac), DiscoverOptions())]
    {
      hide Verifies, Encode, ClientHeader, DiscoverOptions, Htonl;
      lastXid := Htonl(host, ids.next);
      var m := Message.Discover(host, mac, ids);
      DiscoverSize(host, ClientHeader(host, lastXid, mac));
      Transmit(m.memory[..m.size]);
    }

    method SendRequest(destination: u32)
      requires Valid()
      modifies this`lastXid, this`transmitted, this`headers, ids
      ensures Valid() && lastXid == Htonl(host, old(ids.next))
      ensures transmitted == old(transmitted) + [Encode(host, ClientHeader(host, lastXid, mac),
                                                        RequestOptions(host, requestAddress, destination))]
    {
      hide Verifies, Encode, ClientHeader, RequestOptions, Htonl;
      lastXid := Htonl(host, ids.next);
      var m := Message.Request(host, mac, requestAddress, destination, ids);
      RequestSize(host, ClientHeader(host, lastXid, mac), requestAddress, destination);
      Transmit(m.memory[..m.size]);
    }

    /** The switch in run. */
    method TakeAction(r: Readings)
      requires Valid()
      modifies this, ids
      ensures Valid() && info == old(info) && network == old(network)
      ensures View(None) == Act(old(View(None)), r, CounterXid(host)(old(|transmitted|)))
      ensures var c := old(View(None));
              transmitted == old(transmitted) + Transmission(host, mac, c, Sends(c, r), lastXid)
    {
      hide Verifies, Encode, ClientHeader, DiscoverOptions, RequestOptions, Htonl;
      match state {
        case Init =>
          SetState(Selecting);
        case Selecting =>
          SendDiscover();
          Increase();
        case Requesting =>
          if nextTimeout >= MAX_TIMEOUT {
            SetState(Init);
          } else {
            SendRequest(serverAddress);
            Increase();
          }
        case Bound =>
          var expired := t1.HasExpired(r.first);
          if expired {
            SetState(Renewing);
          } else {
            var remaining := t1.Remaining(r.second);
            nextTimeout := Wrap32(remaining);
            fuzzNextTimeout := false;
          }
        case Renewing =>
          var expired := t2.HasExpired(r.first);
          if expired {
            SetState(Rebinding);
          } else {
            SendRequest(serverAddress);
            Increase();
          }
        case Rebinding =>
          if nextTimeout >= MAX_TIMEOUT {
            SetState(Init);
          } else {
            SendRequest(INADDR_BROADCAST);
            Increase();
          }
      }
    }

    method ConfigureDhcp(p: Packet, now1: Millis, now2: Millis, o: Outcomes) returns (ok: bool)
      requires Valid()
      modifies this`info, this`network, t1, t2
      ensures Valid()
      ensures forall w :: Configured(ok, View(w)) == Configure(host, old(View(w)), p, now1, now2, o)
    {
      hide SetUp, AllSet, DefaultT1, DefaultT2, Yiaddr;
      if OptionsSize(p) < 4 {
        return false;
      }
      var parsed := ParseOptions(host, p);
      info := parsed.info;
      if !parsed.complete {
        return false;
      }
      info := info.(offeredAddress := Yiaddr(host, p));
      if info.leaseTime == 0 {
        return false;
      }
      t1.SetSeconds(now1, if info.t1 > 0 then info.t1 else DefaultT1(info.leaseTime));
      t2.SetSeconds(now2, if info.t2 > 0 then info.t2 else DefaultT2(info.leaseTime));
      ok := SetUpNetwork(o);
    }

    method SetUpNetwork(o: Outcomes) returns (ok: bool)
      modifies this`network
      ensures network == SetUp(old(network), info, o) && ok == AllSet(o)
    {
      if !o.up {
        return false;
      }
      network := network.(up := true);
      if info.mtu != 0 && o.mtu {
        network := network.(mtu := info.mtu);
      }
      if !o.address {
        return false;
      }
      network := network.(address := info.offeredAddress);
      if !o.subnetMask {
        return false;
      }
      network := network.(subnetMask := info.subnetMask);
      if !o.gateway {
        return false;
      }
      network := network.(gateway := info.gateway);
      return true;
    }

    method HaltNetwork(o: Outcomes)
      modifies this`network
      ensures network == Halt(old(network), o)
      ensures network.address == 0 <==> o.address || old(network).address == 0
    {
      if o.address {
        network := network.(address := 0);
      }
      if o.down {
        network := network.(up := false);
      }
    }

    /** The loop of waitAndReceive, for as many polls as are given. The timeout that is
        left is returned if they run out before the loop does. */
    method WaitAndReceive(adjustment: int, polls: seq<Poll>) returns (left: Option<u32>)
      requires Valid()
      modifies this, t1, t2
      ensures Valid() && transmitted == old(transmitted)
      ensures View(left) == Wait(host, BeginWait(old(View(None)), adjustment), polls)
    {
      hide React, IsValidReply, CalculateTimeout;
      if nextTimeout == NO_TIMEOUT {
        return None;
      }
      var timeout := CalculateMillis(adjustment);
      left := Some(timeout);
      var i := 0;
      while i < |polls| && left.Some?
        invariant 0 <= i <= |polls| && Valid() && transmitted == old(transmitted)
        invariant Wait(host, BeginWait(old(View(None)), adjustment), polls) == Wait(host, View(left), polls[i..])
      {
        left := HandlePoll(left.value, polls[i]);
        i := i + 1;
      }
    }

    /** One iteration of that loop. */
    method HandlePoll(timeout: u32, e: Poll) returns (left: Option<u32>)
      requires Valid()
      modifies this, t1, t2
      ensures Valid() && transmitted == old(transmitted)
      ensures View(left) == PollStep(host, old(View(Some(timeout))), e)
    {
      hide Configure, Type, ServerId, Yiaddr;
      var startedAt, currentTime := 0, 0;
      match e {
        case TimedOut =>
          return None;
        case Failed(s, t) =>
          startedAt, currentTime := s, t;
        case Arrived(s, t, m, now1, now2, o) =>
          startedAt, currentTime := s, t;
          if m.Some? && IsValidReply(host, m.value, lastXid) {
            var kind := Type(m.value);
            if state == Selecting {
              if kind == DHCPOFFER {
                serverAddress := ServerId(host, m.value);
                requestAddress := Yiaddr(host, m.value);
                SetState(Requesting);
                return None;
              }
            } else if state == Requesting || state == Renewing || state == Rebinding {
              if kind == DHCPACK {
                var ok := ConfigureDhcp(m.value, now1, now2, o);
                if ok {
                  SetState(Bound);
                  return None;
                }
              } else if kind == DHCPNAK {
                HaltNetwork(o);
                SetState(Init);
                return None;
              }
            }
          }
      }
      var end := startedAt + timeout;
      if currentTime >= end {
        return None;
      }
      return Some(Wrap32(end - currentTime));
    }

    /** The loop of run, for as many iterations as there are inputs for. What it does is
        a run in the sense of ClientRuns, over all decisions and all polls in their order:
        polls that come when the client no longer waits are passed over there. It stops
        early only if the polls of an iteration run out during its wait. */
    method RunFor(script: seq<Iteration>) returns (left: Option<u32>, used: nat)
      requires Valid()
      modifies this, ids, t1, t2
      ensures Valid() && used <= |script| && (left.None? ==> used == |script|)
      ensures View(left) == Run(host, CounterXid(host), old(View(None)), AllEvents(script[..used])).c
    {
      hide Act, BeginWait, CounterXid, Transmission;
      ghost var start := View(None);
      left, used := None, 0;
      while used < |script| && left.None?
        invariant 0 <= used <= |script|
        invariant Valid() && View(left) == Run(host, CounterXid(host), start, AllEvents(script[..used])).c
      {
        ghost var events := AllEvents(script[..used]);
        TakeAction(script[used].readings);
        left := WaitAndReceive(script[used].readings.adjustment, script[used].polls);
        RunAppend(host, CounterXid(host), start, events, Decision(script[used].readings));
        WaitIsRun(host, CounterXid(host), start, events + [Decision(script[used].readings)], script[used].polls);
        AllEventsSnoc(script, used);
        used := used + 1;
      }
    }
  }

  /** The inputs of one iteration of the main loop. */
  datatype Iteration = Iteration(readings: Readings, polls: seq<Poll>)

  predicate PlausibleIteration(it: Iteration)
  {
    Possible(it.readings) && forall k | 0 <= k < |it.polls| :: Plausible(Polled(it.polls[k]))
  }

  function PollEvents(polls: seq<Poll>): seq<Event>
  {
    seq(|polls|, k requires 0 <= k < |polls| => Polled(polls[k]))
  }

  /** Everything in a script, in order. */
  function AllEvents(script: seq<Iteration>): seq<Event>
  {
    if script == [] then []
    else
      var it := script[|script| - 1];
      AllEvents(script[..|script| - 1]) + [Decision(it.readings)] + PollEvents(it.polls)
  }

  lemma AllEventsSnoc(script: seq<Iteration>, i: nat)
    requires i < |script|
    ensures AllEvents(script[..i + 1])
            == AllEvents(script[..i]) + [Decision(script[i].readings)] + PollEvents(script[i].polls)
  {
    assert script[..i + 1][..i] == script[..i];
  }

  /** The theorems on plausible runs apply if the inputs are plausible. */
  lemma {:induction false} AllPlausible(script: seq<Iteration>)
    requires forall i | 0 <= i < |script| :: PlausibleIteration(script[i])
    ensures forall k | 0 <= k < |AllEvents(script)| :: Plausible(AllEvents(script)[k])
  {
    hide Plausible;
    if script != [] {
      var n := |script| - 1;
      AllPlausible(script[..n]);
      PlausibleDecision(script[n].readings);
      assert PlausibleIteration(script[n]);
    }
  }

  lemma PlausibleDecision(r: Readings)
    ensures Plausible(Decision(r)) == Possible(r)
  {
  }

  lemma {:induction false} WaitIsRun(host: ByteOrder, xids: nat -> u32, c: Client, es: seq<Event>, polls: seq<Poll>)
    ensures Run(host, xids, c, es + PollEvents(polls)).c == Wait(host, Run(host, xids, c, es).c, polls)
    decreases |polls|
  {
    hide PollStep, Observe;
    if polls == [] {
      assert es + PollEvents(polls) == es;
    } else {
      var e := Polled(polls[0]);
      RunAppend(host, xids, c, es, e);
      ObserveStep(host, xids, Run(host, xids, c, es), e);
      WaitIsRun(host, xids, c, es + [e], polls[1..]);
      assert es + [e] + PollEvents(polls[1..]) == es + PollEvents(polls);
      EndedStays(host, Run(host, xids, c, es).c, polls[1..]);
    }
  }

  lemma ObserveStep(host: ByteOrder, xids: nat -> u32, a: Audit, e: Event)
    ensures Observe(host, xids, a, e).c == Step(host, xids, a.c, e)
  {
  }

  lemma EndedStays(host: ByteOrder, c: Client, polls: seq<Poll>)
    ensures c.waiting.None? ==> Wait(host, c, polls) == c
  {
  }
}
