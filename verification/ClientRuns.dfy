/** What holds in every run of the DHCP client: its pace, its waits and which replies
    it listens to. A run is any sequence of events; nothing is assumed about it
    except, where said, that the random offset is in its range and the clock does not
    go back. */
module ClientRuns {
  import opened Bytes
  import opened Messages
  import opened Configuration
  import Builder
  import opened ClientMachine

  // ----- History variables -----

  /** A client with what an observer has written down about its run. */
  datatype Audit = Audit(
    c: Client,
    log: seq<u32>,    // the transaction ids of all messages sent
    stay: nat,        // messages sent since the current state was entered
    asked: nat,       // milliseconds of waiting asked for since then
    begun: nat,       // what the current wait began with
    measured: nat)    // time measured between the clock readings of the current wait

  function Begin(c: Client): Audit
  {
    Audit(c, [], 0, 0, 0, 0)
  }

  function Waiting(c: Client): nat
  {
    if c.waiting.Some? then c.waiting.value else 0
  }

  /** How much time a poll that goes on waiting has measured. */
  function Measures(e: Poll): nat
  {
    match e
    case TimedOut => 0
    case Failed(startedAt, currentTime) => if currentTime >= startedAt then currentTime - startedAt else 0
    case Arrived(startedAt, currentTime, _, _, _, _) => if currentTime >= startedAt then currentTime - startedAt else 0
  }

  function Observe(host: ByteOrder, xids: nat -> u32, a: Audit, e: Event): Audit
  {
    var c' := Step(host, xids, a.c, e);
    var sends, entered := c'.sent > a.c.sent, c'.state != a.c.state;
    Audit(c',
          if sends then a.log + [c'.lastXid] else a.log,
          if entered then 0 else if sends then a.stay + 1 else a.stay,
          if entered then 0 else if sends then a.asked + Waiting(c') else a.asked,
          if e.Decision? && a.c.waiting.None? then Waiting(c') else a.begun,
          if e.Decision? then (if a.c.waiting.None? then 0 else a.measured)
          else if a.c.waiting.Some? then a.measured + Measures(e.e) else a.measured)
  }

  function Run(host: ByteOrder, xids: nat -> u32, c: Client, es: seq<Event>): Audit
  {
    if es == [] then Begin(c)
    else Observe(host, xids, Run(host, xids, c, es[..|es| - 1]), es[|es| - 1])
  }

  /** The random offset is drawn from its range and the clock does not go back. */
  predicate Plausible(e: Event)
  {
    match e
    case Decision(r) => Possible(r)
    case Polled(TimedOut) => true
    case Polled(Failed(startedAt, currentTime)) => startedAt <= currentTime
    case Polled(Arrived(startedAt, currentTime, _, now1, now2, _)) => startedAt <= now1 <= now2 <= currentTime
  }

  // ----- The invariant of all runs -----

  /** The timeouts after 0, 1, 2, ... messages. */
  function Ladder(k: nat): u32
  {
    if k == 0 then 0 else if k == 1 then 4000 else if k == 2 then 8000
    else if k == 3 then 16000 else if k == 4 then 32000 else 64000
  }

  /** Their sum, with a second of random offset each. */
  function LadderSum(k: nat): nat
  {
    if k == 0 then 0 else LadderSum(k - 1) + Ladder(k) + 1000
  }

  predicate OnLadder(t: u32)
  {
    t in {0, 4000, 8000, 16000, 32000, 64000}
  }

  /** In a state that sends messages the timeout is decided by how many have been sent
      since the client came there. */
  ghost predicate Paced(a: Audit)
  {
    && (if a.c.fuzz then OnLadder(a.c.nextTimeout) else a.c.state == Bound)
    && (a.c.waiting.Some? ==> a.c.nextTimeout != NO_TIMEOUT && a.c.state != Init)
    && (a.c.state in {Selecting, Requesting, Renewing, Rebinding} ==> a.c.nextTimeout == Ladder(a.stay))
    && (a.c.state in {Requesting, Rebinding} ==> a.stay <= 5 && a.asked <= LadderSum(a.stay))
  }

  // ----- What a decision does -----

  /** The client moves to another state, sending nothing and without waiting. */
  ghost predicate Moves(c: Client, c': Client, s: State)
  {
    c' == c.(state := s, nextTimeout := 0, fuzz := true, waiting := None)
  }

  /** It sends its k-th message of this stay and waits for the answer. */
  ghost predicate Tries(c: Client, c': Client, xid: u32, k: nat, adjustment: int)
  {
    && 0 <= Ladder(k) + adjustment < 0x1_0000_0000
    && c' == c.(lastXid := xid, sent := c.sent + 1, nextTimeout := Ladder(k), waiting := Some(Ladder(k) + adjustment))
  }

  /** It waits for the first timer, as far as 32 bits can hold the time until then. */
  ghost predicate Rests(c: Client, c': Client, now: Millis)
  {
    var rest: u32 := if now > c.t1 then 0 else (c.t1 - now) % 0x1_0000_0000;
    c' == c.(nextTimeout := rest, fuzz := false, waiting := if rest == 0 then None else Some(rest))
  }

  /** The whole switch, state by state: what is sent, to which state the client moves, and
      how long it waits. After the k-th message of a stay that is the k-th timeout with the
      offset, whether it is looking for servers, requesting, renewing or rebinding. */
  ghost predicate Prescribed(a: Audit, r: Readings, xid: u32, c': Client)
  {
    var c, k := a.c, a.stay + 1;
    match c.state
    case Init => Sends(c, r) == Nothing && Moves(c, c', Selecting)
    case Selecting => Sends(c, r) == Discover && Tries(c, c', xid, k, r.adjustment)
    case Requesting =>
      if k <= 5 then Sends(c, r) == Request(c.serverAddress) && Tries(c, c', xid, k, r.adjustment)
      else Sends(c, r) == Nothing && Moves(c, c', Init)
    case Bound =>
      Sends(c, r) == Nothing && if r.first >= c.t1 then Moves(c, c', Renewing) else Rests(c, c', r.second)
    case Renewing =>
      if r.first >= c.t2 then Sends(c, r) == Nothing && Moves(c, c', Rebinding)
      else Sends(c, r) == Request(c.serverAddress) && Tries(c, c', xid, k, r.adjustment)
    case Rebinding =>
      if k <= 5 then Sends(c, r) == Request(0xFFFF_FFFF) && Tries(c, c', xid, k, r.adjustment)
      else Sends(c, r) == Nothing && Moves(c, c', Init)
  }

  lemma DecisionIs(a: Audit, r: Readings, xid: u32)
    requires Paced(a) && Possible(r) && a.c.waiting.None?
    ensures Prescribed(a, r, xid, Decide(a.c, r, xid))
  {
  }

  /** The log is what the numbering prescribes, and the client waits for replies only
      after it has sent something. */
  ghost predicate Logged(xids: nat -> u32, a: Audit)
  {
    && |a.log| == a.c.sent
    && (forall i | 0 <= i < |a.log| :: a.log[i] == xids(i))
    && (a.c.sent > 0 ==> a.c.lastXid == a.log[a.c.sent - 1])
    && (a.c.waiting.Some? || a.c.state !in {Init, Selecting} ==> a.c.sent > 0)
  }

  /** Time measured so far and time still to wait add up to the timeout. */
  ghost predicate Conserved(a: Audit)
  {
    a.c.waiting.Some? ==> a.measured + a.c.waiting.value == a.begun
  }

  ghost predicate Inv(xids: nat -> u32, a: Audit)
  {
    Paced(a) && Logged(xids, a) && Conserved(a)
  }

  /** A message that ends the wait moves to another state and clears the timeout; any
      other message leaves state and timeout alone. */
  lemma ReactKeepsPace(host: ByteOrder, c: Client, p: Packet, e: Poll)
    requires c.waiting.Some? && e.Arrived?
    ensures var c' := React(host, c, p, e);
            && c'.sent == c.sent && c'.lastXid == c.lastXid
            && (c'.state == c.state ==>
                  && c'.nextTimeout == c.nextTimeout && c'.fuzz == c.fuzz
                  && c'.waiting == Remain(c, e.startedAt, e.currentTime).waiting)
            && (c'.state != c.state ==>
                  c'.nextTimeout == NO_TIMEOUT && c'.fuzz && c'.waiting == None && c.state !in {Init, Bound})
  {
    hide Type, ServerId, Yiaddr, Halt, Configure;
    ConfigureKeepsPace(host, c, p, e.now1, e.now2, e.o);
  }

  lemma ConfigureKeepsPace(host: ByteOrder, c: Client, p: Packet, now1: Millis, now2: Millis, o: Outcomes)
    ensures var c' := Configure(host, c, p, now1, now2, o).client;
            && c'.sent == c.sent && c'.lastXid == c.lastXid && c'.state == c.state
            && c'.nextTimeout == c.nextTimeout && c'.fuzz == c.fuzz
  {
    hide SetUp;
  }

  lemma PollKeepsInv(host: ByteOrder, xids: nat -> u32, a: Audit, e: Poll)
    requires Inv(xids, a) && Plausible(Polled(e)) && a.c.waiting.Some?
    ensures Inv(xids, Observe(host, xids, a, Polled(e)))
  {
    hide React, IsValidReply;
    if e.Arrived? && Accepts(host, a.c, e.message) {
      ReactKeepsPace(host, a.c, e.message.value, e);
    }
  }

  lemma DecideKeepsInv(host: ByteOrder, xids: nat -> u32, a: Audit, r: Readings)
    requires Inv(xids, a) && Possible(r) && a.c.waiting.None?
    ensures Inv(xids, Observe(host, xids, a, Decision(r)))
  {
    var a' := Observe(host, xids, a, Decision(r));
    DecideKeepsPace(host, xids, a, r);
    assert Logged(xids, a') && Conserved(a') by {
      hide CalculateTimeout, IncreaseTimeout, Expired, RemainingMillis, Paced;
    }
  }

  lemma DecideKeepsPace(host: ByteOrder, xids: nat -> u32, a: Audit, r: Readings)
    requires Paced(a) && Possible(r) && a.c.waiting.None?
    ensures Paced(Observe(host, xids, a, Decision(r)))
  {
    hide Decide, Sends;
    DecisionIs(a, r, xids(a.c.sent));
    assert LadderSum(a.stay + 1) == LadderSum(a.stay) + Ladder(a.stay + 1) + 1000;
  }

  lemma DecideWaits(c: Client, r: Readings, xid: u32)
    requires Possible(r) && c.waiting.None? && (c.fuzz ==> OnLadder(c.nextTimeout)) && (!c.fuzz ==> c.state == Bound)
    ensures var c' := Decide(c, r, xid);
            c'.waiting.Some? && c'.fuzz ==>
              && c'.nextTimeout in {4000, 8000, 16000, 32000, 64000}
              && c'.waiting.value == c'.nextTimeout + r.adjustment
  {
  }

  lemma {:induction false} RunKeepsInv(host: ByteOrder, xids: nat -> u32, c: Client, es: seq<Event>)
    requires Starts(c) && forall i | 0 <= i < |es| :: Plausible(es[i])
    ensures Inv(xids, Run(host, xids, c, es))
  {
    if es != [] {
      var a := Run(host, xids, c, es[..|es| - 1]);
      RunKeepsInv(host, xids, c, es[..|es| - 1]);
      match es[|es| - 1]
      case Decision(r) => if a.c.waiting.None? { DecideKeepsInv(host, xids, a, r); }
      case Polled(e) => if a.c.waiting.Some? { PollKeepsInv(host, xids, a, e); }
    }
  }

  // ----- Backoff -----

  /** Whenever a wait is randomised, its base is one of the five timeouts and the
      offset is applied in full: the branch against underflow is never taken. */
  lemma Backoff(host: ByteOrder, xids: nat -> u32, c: Client, es: seq<Event>, r: Readings)
    requires Starts(c) && Possible(r) && forall i | 0 <= i < |es| :: Plausible(es[i])
    requires Run(host, xids, c, es).c.waiting.None?
    ensures var a := Run(host, xids, c, es);
            var c' := Decide(a.c, r, xids(a.c.sent));
            c'.waiting.Some? && c'.fuzz ==>
              && c'.nextTimeout in {4000, 8000, 16000, 32000, 64000}
              && c'.waiting.value == c'.nextTimeout + r.adjustment
  {
    hide Decide;
    RunKeepsInv(host, xids, c, es);
    DecideWaits(Run(host, xids, c, es).c, r, xids(Run(host, xids, c, es).c.sent));
  }

  /** A stay in Requesting or Rebinding sends at most five requests and asks for at
      most 129 seconds of waiting. While there have been fewer, the next decision sends
      one more; after five it gives up and goes to Init. */
  lemma StayIsBounded(host: ByteOrder, xids: nat -> u32, c: Client, es: seq<Event>, r: Readings)
    requires Starts(c) && forall i | 0 <= i < |es| :: Plausible(es[i])
    requires Run(host, xids, c, es).c.state in {Requesting, Rebinding}
    ensures var a := Run(host, xids, c, es);
            && a.stay <= 5 && a.asked <= 129000
            && (a.c.waiting.None? ==>
                  var c' := Decide(a.c, r, xids(a.c.sent));
                  if a.stay < 5 then
                       c'.sent == a.c.sent + 1 && c'.state == a.c.state && c'.nextTimeout == Ladder(a.stay + 1)
                  else c'.sent == a.c.sent && c'.state == Init && c'.waiting == None)
  {
    hide Decide;
    RunKeepsInv(host, xids, c, es);
    var a := Run(host, xids, c, es);
    LadderSumGrows(a.stay, 5);
    assert LadderSum(3) == 31000 && LadderSum(5) == 129000;
    if a.c.waiting.None? {
      GivesUpAfterFive(a.c, a.stay, r, xids(a.c.sent));
    }
  }

  lemma GivesUpAfterFive(c: Client, stay: nat, r: Readings, xid: u32)
    requires c.state in {Requesting, Rebinding} && c.waiting.None? && stay <= 5 && c.nextTimeout == Ladder(stay)
    ensures var c' := Decide(c, r, xid);
            if stay < 5 then c'.sent == c.sent + 1 && c'.state == c.state && c'.nextTimeout == Ladder(stay + 1)
            else c'.sent == c.sent && c'.state == Init && c'.waiting == None
  {
  }

  lemma {:induction false} LadderSumGrows(i: nat, j: nat)
    requires i <= j
    ensures LadderSum(i) <= LadderSum(j)
  {
    if i < j {
      LadderSumGrows(i, j - 1);
    }
  }

  // ----- Decisions -----

  /** In every run every decision does what is prescribed. */
  lemma DecisionsAre(host: ByteOrder, xids: nat -> u32, c: Client, es: seq<Event>, r: Readings)
    requires Starts(c) && Possible(r) && forall i | 0 <= i < |es| :: Plausible(es[i])
    requires Run(host, xids, c, es).c.waiting.None?
    ensures var a := Run(host, xids, c, es);
            Prescribed(a, r, xids(a.c.sent), Step(host, xids, a.c, Decision(r)))
  {
    hide Starts, Decide, Prescribed, Observe, Plausible;
    RunKeepsInv(host, xids, c, es);
    DecisionIs(Run(host, xids, c, es), r, xids(Run(host, xids, c, es).c.sent));
  }

  // ----- No spinning -----

  /** How many decisions in a row can skip waiting from here on. */
  function Rank(c: Client): nat
  {
    match c.state
    case Selecting => 0
    case Init | Renewing => 1
    case Requesting | Rebinding => if c.nextTimeout >= MAX_TIMEOUT then 2 else 0
    case Bound => 2
  }

  /** Every one of these decisions in a row skips waiting, none of them because the
      remaining time in Bound truncates to zero. */
  ghost predicate AllSkip(c: Client, rs: seq<Readings>, xids: nat -> u32)
    decreases |rs|
  {
    rs != [] ==>
      var c' := Decide(c, rs[0], xids(c.sent));
      c'.waiting.None? && c'.state != Bound && AllSkip(c', rs[1..], xids)
  }

  lemma {:induction false} NoSpinning(c: Client, rs: seq<Readings>, xids: nat -> u32)
    requires AllSkip(c, rs, xids)
    ensures |rs| <= Rank(c) <= 2
    decreases |rs|
  {
    if rs != [] {
      var c' := Decide(c, rs[0], xids(c.sent));
      SkippingRanksDown(c, rs[0], xids(c.sent));
      NoSpinning(c', rs[1..], xids);
    }
  }

  lemma SkippingRanksDown(c: Client, r: Readings, xid: u32)
    requires Decide(c, r, xid).waiting.None? && Decide(c, r, xid).state != Bound
    ensures Rank(Decide(c, r, xid)) < Rank(c)
  {
  }

  // ----- Freshness -----

  /** The n-th message of a process carries the number n + 1 in network order. */
  lemma CounterCounts(host: ByteOrder, n: nat)
    ensures Ntohl(host, CounterXid(host)(n)) == (n + 1) % 0x1_0000_0000
  {
    hide Htonl, Ntohl;
    HostNetwork32(host, Wrap32(1 + n));
  }

  lemma CounterDistinct(host: ByteOrder, i: nat, j: nat)
    requires i < j < 0x1_0000_0000
    ensures CounterXid(host)(i) != CounterXid(host)(j)
  {
    hide Htonl, Ntohl;
    HostNetwork32(host, Wrap32(1 + i));
    HostNetwork32(host, Wrap32(1 + j));
  }

  /** In a run with at most 2^32 messages, a message that changes anything but the time
      left to wait is a reply to the most recent transmission and to no earlier one. */
  lemma OnlyFreshReplies(host: ByteOrder, c: Client, es: seq<Event>, e: Poll)
    requires Starts(c) && forall i | 0 <= i < |es| :: Plausible(es[i])
    requires var a := Run(host, CounterXid(host), c, es);
             && a.c.waiting.Some? && a.c.sent <= 0x1_0000_0000
             && PollStep(host, a.c, e).(waiting := a.c.waiting) != a.c
    ensures var a := Run(host, CounterXid(host), c, es);
            && e.Arrived? && e.message.Some? && a.log != []
            && Xid(host, e.message.value) == a.log[|a.log| - 1]
            && forall j | 0 <= j < |a.log| - 1 :: a.log[j] != Xid(host, e.message.value)
  {
    hide PollStep, Xid, CounterXid, Starts, Plausible;
    var a := Run(host, CounterXid(host), c, es);
    RunKeepsInv(host, CounterXid(host), c, es);
    OnlyReplies(host, a.c, e);
    LogIsDistinct(host, a);
  }

  lemma OnlyReplies(host: ByteOrder, c: Client, e: Poll)
    requires c.waiting.Some? && PollStep(host, c, e).(waiting := c.waiting) != c
    ensures e.Arrived? && e.message.Some? && Xid(host, e.message.value) == c.lastXid
  {
    hide React, Xid, IsValidDhcpMessage;
  }

  lemma LogIsDistinct(host: ByteOrder, a: Audit)
    requires Logged(CounterXid(host), a) && 0 < |a.log| <= 0x1_0000_0000
    ensures forall j | 0 <= j < |a.log| - 1 :: a.log[j] != a.log[|a.log| - 1]
  {
    hide CounterXid;
    forall j | 0 <= j < |a.log| - 1
      ensures a.log[j] != a.log[|a.log| - 1]
    {
      CounterDistinct(host, j, |a.log| - 1);
    }
  }

  /** A client that hears nothing, n times over. */
  function Unheard(n: nat): seq<Event>
  {
    if n == 0 then [Decision(CALM)] else Unheard(n - 1) + [Decision(CALM), Polled(TimedOut)]
  }

  lemma {:induction false} UnheardRun(host: ByteOrder, xids: nat -> u32, c: Client, n: nat)
    requires Starts(c)
    ensures forall e | e in Unheard(n) :: Plausible(e)
    ensures var c' := Run(host, xids, c, Unheard(n)).c;
            c'.state == Selecting && c'.sent == n && c'.waiting.None? && c'.fuzz && c'.nextTimeout == Ladder(n)
  {
    hide Observe;
    if n == 0 {
      UnheardStarts(host, xids, c);
    } else {
      var before, poll := Unheard(n - 1), Polled(TimedOut);
      UnheardRun(host, xids, c, n - 1);
      assert Unheard(n) == before + [Decision(CALM)] + [poll];
      RunAppend(host, xids, c, before, Decision(CALM));
      RunAppend(host, xids, c, before + [Decision(CALM)], poll);
      UnheardTurn(host, xids, Run(host, xids, c, before), n - 1);
    }
  }

  lemma UnheardStarts(host: ByteOrder, xids: nat -> u32, c: Client)
    requires Starts(c)
    ensures var c' := Run(host, xids, c, Unheard(0)).c;
            c'.state == Selecting && c'.sent == 0 && c'.waiting.None? && c'.fuzz && c'.nextTimeout == 0
  {
    assert Unheard(0)[..0] == [];
  }

  /** One message without an answer. */
  lemma UnheardTurn(host: ByteOrder, xids: nat -> u32, a: Audit, k: nat)
    requires a.c.state == Selecting && a.c.waiting.None? && a.c.fuzz && a.c.nextTimeout == Ladder(k)
    ensures Sends(a.c, CALM) == Discover
    ensures var c' := Observe(host, xids, a, Decision(CALM)).c;
            && c'.state == Selecting && c'.sent == a.c.sent + 1 && c'.fuzz
            && c'.nextTimeout == Ladder(k + 1) && c'.waiting == Some(Ladder(k + 1)) && c'.lastXid == xids(a.c.sent)
            && Observe(host, xids, Observe(host, xids, a, Decision(CALM)), Polled(TimedOut)).c == c'.(waiting := None)
  {
  }

  lemma RunAppend(host: ByteOrder, xids: nat -> u32, c: Client, es: seq<Event>, e: Event)
    ensures Run(host, xids, c, es + [e]) == Observe(host, xids, Run(host, xids, c, es), e)
  {
    hide Observe;
    assert (es + [e])[..|es|] == es;
  }

  /** What the server answers to the first message of a client. */
  ghost predicate AnswersFirst(host: ByteOrder, mac: Mac, address: u32, t: Builder.Terms, p: Packet)
  {
    exists source: Packet ::
      && Received(source, Encode(host, Builder.ClientHeader(host, CounterXid(host)(0), mac), Builder.DiscoverOptions()))
      && Received(p, Encode(host, Builder.ReplyHeader(host, source, address), Builder.GrantOptions(host, DHCPOFFER, t)))
  }

  lemma MakeAnswer(host: ByteOrder, mac: Mac, address: u32, t: Builder.Terms) returns (p: Packet)
    requires |t.dns| <= 4
    ensures AnswersFirst(host, mac, address, t, p)
    ensures IsValidReply(host, p, CounterXid(host)(0)) && Type(p) == DHCPOFFER && Yiaddr(host, p) == address
  {
    hide Builder.ClientHeader, Builder.ReplyHeader, HeaderBytes, Holding, Received, Type, Xid, Yiaddr, Chaddr;
    hide CounterXid, ServerId, Store32;
    var h, opts := Builder.ClientHeader(host, CounterXid(host)(0), mac), Builder.GrantOptions(host, DHCPOFFER, t);
    WireBound(Builder.DiscoverOptions());
    WireBound(opts);
    var source := Holding(Encode(host, h, Builder.DiscoverOptions()));
    p := Holding(Encode(host, Builder.ReplyHeader(host, source, address), opts));
    ClientHeaderXid(host, CounterXid(host)(0), mac);
    DecodesEncoded(host, h, Builder.DiscoverOptions(), source);
    GrantRoundTrip(host, source, DHCPOFFER, address, t, p);
  }

  lemma ClientHeaderXid(host: ByteOrder, xid: u32, mac: Mac)
    ensures Builder.ClientHeader(host, xid, mac).xid == xid
  {
  }

  /** The bound is tight. After 2^32 messages the next one repeats the first id, and the
      server's answer to the very first message is taken for an answer to it. */
  lemma IdsWrapAround(host: ByteOrder, c: Client, mac: Mac, address: u32, t: Builder.Terms)
    returns (es: seq<Event>, p: Packet, e: Poll)
    requires Starts(c) && |t.dns| <= 4
    ensures (forall ev | ev in es :: Plausible(ev)) && Plausible(Polled(e))
    ensures AnswersFirst(host, mac, address, t, p) && e.Arrived? && e.message == Some(p)
    ensures var a := Run(host, CounterXid(host), c, es);
            && a.c.sent == 0x1_0000_0001 && a.c.state == Selecting && a.c.waiting.Some?
            && PollStep(host, a.c, e).state == Requesting && PollStep(host, a.c, e).requestAddress == address
  {
    var n: nat := 0x1_0000_0000;
    p := MakeAnswer(host, mac, address, t);
    es, e := LateAnswer(host, c, n, p);
  }

  lemma LateAnswer(host: ByteOrder, c: Client, n: nat, p: Packet) returns (es: seq<Event>, e: Poll)
    requires Starts(c) && n % 0x1_0000_0000 == 0
    requires IsValidReply(host, p, CounterXid(host)(0)) && Type(p) == DHCPOFFER
    ensures (forall ev | ev in es :: Plausible(ev)) && Plausible(Polled(e)) && e.Arrived? && e.message == Some(p)
    ensures var a := Run(host, CounterXid(host), c, es);
            && a.c.sent == n + 1 && a.c.state == Selecting && a.c.waiting.Some?
            && PollStep(host, a.c, e).state == Requesting && PollStep(host, a.c, e).requestAddress == Yiaddr(host, p)
  {
    hide Type, Yiaddr, ServerId, IsValidReply, Htonl, Observe;
    es := Unheard(n) + [Decision(CALM)];
    e := Arrived(0, 0, Some(p), 0, 0, Outcomes(true, true, true, true, true, true));
    UnheardRun(host, CounterXid(host), c, n);
    RunAppend(host, CounterXid(host), c, Unheard(n), Decision(CALM));
    UnheardTurn(host, CounterXid(host), Run(host, CounterXid(host), c, Unheard(n)), n);
    assert Wrap32(1 + n) == Wrap32(1);
  }

  // ----- The clock -----

  /** The first and the last clock reading of an event; one without a reading leaves
      the clock where it was. */
  function FirstReading(e: Event, clock: Millis): Millis
  {
    match e
    case Decision(r) => r.first
    case Polled(TimedOut) => clock
    case Polled(Failed(startedAt, _)) => startedAt
    case Polled(Arrived(startedAt, _, _, _, _, _)) => startedAt
  }

  function LastReading(e: Event, clock: Millis): Millis
  {
    match e
    case Decision(r) => r.second
    case Polled(TimedOut) => clock
    case Polled(Failed(_, currentTime)) => currentTime
    case Polled(Arrived(_, currentTime, _, _, _, _)) => currentTime
  }

  /** The latest reading of a run. */
  function Clock(es: seq<Event>): Millis
  {
    if es == [] then 0 else LastReading(es[|es| - 1], Clock(es[..|es| - 1]))
  }

  /** The clock does not go back, within an event and from one to the next. */
  ghost predicate OnClock(es: seq<Event>)
  {
    es == [] ||
    var before, e := es[..|es| - 1], es[|es| - 1];
    OnClock(before) && Plausible(e) && Clock(before) <= FirstReading(e, Clock(before))
  }

  lemma {:induction false} OnClockIsPlausible(es: seq<Event>)
    requires OnClock(es)
    ensures forall i | 0 <= i < |es| :: Plausible(es[i])
  {
    hide Plausible;
    if es != [] {
      OnClockIsPlausible(es[..|es| - 1]);
    }
  }

  // ----- Waiting -----

  /** Under a clock that does not go back, the time measured in a wait and the time
      left add up to the timeout, so narrowing the rest to 32 bits loses nothing. */
  lemma WaitIsConserved(host: ByteOrder, xids: nat -> u32, c: Client, es: seq<Event>)
    requires Starts(c) && forall i | 0 <= i < |es| :: Plausible(es[i])
    ensures var a := Run(host, xids, c, es);
            a.c.waiting.Some? ==> a.measured + a.c.waiting.value == a.begun < 0x1_0000_0000
  {
    RunKeepsInv(host, xids, c, es);
    RunBegun(host, xids, c, es);
  }

  /** When a wait ends, in every run: at a poll that times out, that brings a message
      which changes the state, or with which the time measured reaches the timeout the
      wait began with. After any other poll the rest of that timeout is left. */
  lemma WaitEnds(host: ByteOrder, xids: nat -> u32, c: Client, es: seq<Event>, e: Poll)
    requires Starts(c) && Plausible(Polled(e)) && forall i | 0 <= i < |es| :: Plausible(es[i])
    requires Run(host, xids, c, es).c.waiting.Some?
    ensures var a := Run(host, xids, c, es);
            var c' := Step(host, xids, a.c, Polled(e));
            && (c'.waiting.None? <==>
                  e.TimedOut? || c'.state != a.c.state || a.measured + Measures(e) >= a.begun)
            && (c'.waiting.Some? ==> c'.waiting.value == a.begun - (a.measured + Measures(e)))
            && (!(e.Arrived? && e.message.Some?) ==> c' == a.c.(waiting := c'.waiting))
  {
    hide Starts, React, IsValidReply, Paced, Logged;
    var a := Run(host, xids, c, es);
    RunKeepsInv(host, xids, c, es);
    if e.Arrived? && Accepts(host, a.c, e.message) {
      ReactKeepsPace(host, a.c, e.message.value, e);
    }
  }

  lemma {:induction false} RunBegun(host: ByteOrder, xids: nat -> u32, c: Client, es: seq<Event>)
    ensures Run(host, xids, c, es).begun < 0x1_0000_0000
  {
    hide Step;
    if es != [] {
      RunBegun(host, xids, c, es[..|es| - 1]);
    }
  }

  /** The timeout asked for in Bound is not randomised and, however long the lease, ends
      no later than the first timer. It is zero, which skips the wait, exactly when the
      timer has expired or a whole number of 2^32 milliseconds remains. */
  lemma BoundTimeout(c: Client, r: Readings, xid: u32)
    requires c.state == Bound && Decide(c, r, xid).state == Bound && Possible(r)
    ensures var c' := Decide(c, r, xid);
            && !c'.fuzz
            && (c'.waiting.Some? ==> r.second + c'.waiting.value <= c.t1)
            && (c'.waiting.None? <==> r.second >= c.t1 || (c.t1 - r.second) % 0x1_0000_0000 == 0)
  {
  }

  /** The clock reading from which the current wait was asked for. */
  function Began(host: ByteOrder, xids: nat -> u32, c: Client, es: seq<Event>): Millis
  {
    if es == [] then 0
    else
      var before, e := es[..|es| - 1], es[|es| - 1];
      if e.Decision? && Run(host, xids, c, before).c.waiting.None? then e.r.second else Began(host, xids, c, before)
  }

  ghost predicate Tracked(a: Audit, began: Millis, clock: Millis)
  {
    a.c.waiting.Some? ==>
      && began + a.measured <= clock
      && (a.c.state == Bound ==>
            && !a.c.fuzz && began + a.begun <= a.c.t1
            && (a.c.t1 - began < 0x1_0000_0000 ==> began + a.begun == a.c.t1))
  }

  lemma DecideTracks(host: ByteOrder, xids: nat -> u32, a: Audit, r: Readings)
    requires a.c.waiting.None? && Possible(r)
    ensures Tracked(Observe(host, xids, a, Decision(r)), r.second, r.second)
  {
  }

  lemma PollTracks(host: ByteOrder, xids: nat -> u32, a: Audit, e: Poll, began: Millis, clock: Millis)
    requires a.c.waiting.Some? && Plausible(Polled(e)) && clock <= FirstReading(Polled(e), clock)
    requires Tracked(a, began, clock)
    ensures Tracked(Observe(host, xids, a, Polled(e)), began, LastReading(Polled(e), clock))
  {
    hide Type, ServerId, Yiaddr, Halt, Configure, IsValidReply;
    if e.Arrived? && Accepts(host, a.c, e.message) {
      ReactKeepsPace(host, a.c, e.message.value, e);
    }
  }

  lemma {:induction false} RunTracks(host: ByteOrder, xids: nat -> u32, c: Client, es: seq<Event>)
    requires Starts(c) && OnClock(es)
    ensures Tracked(Run(host, xids, c, es), Began(host, xids, c, es), Clock(es))
  {
    hide Observe, Tracked, Plausible;
    if es == [] {
      StartsTracked(c);
    } else {
      var before, e := es[..|es| - 1], es[|es| - 1];
      var a := Run(host, xids, c, before);
      RunTracks(host, xids, c, before);
      ObserveTracks(host, xids, a, e, Began(host, xids, c, before), Clock(before));
    }
  }

  lemma StartsTracked(c: Client)
    requires Starts(c)
    ensures Tracked(Begin(c), 0, 0)
  {
  }

  lemma ObserveTracks(host: ByteOrder, xids: nat -> u32, a: Audit, e: Event, began: Millis, clock: Millis)
    requires Plausible(e) && clock <= FirstReading(e, clock) && Tracked(a, began, clock)
    ensures var began' := if e.Decision? && a.c.waiting.None? then e.r.second else began;
            Tracked(Observe(host, xids, a, e), began', LastReading(e, clock))
  {
    hide Tracked, PollStep, Decide;
    match e
    case Decision(r) =>
      if a.c.waiting.None? {
        DecideTracks(host, xids, a, r);
      } else {
        LaterTracks(a, began, clock, r.second);
      }
    case Polled(poll) =>
      if a.c.waiting.Some? {
        PollTracks(host, xids, a, poll, began, clock);
      } else {
        NotWaiting(a, began, LastReading(e, clock));
      }
  }

  lemma LaterTracks(a: Audit, began: Millis, clock: Millis, later: Millis)
    requires Tracked(a, began, clock) && clock <= later
    ensures Tracked(a, began, later)
  {
  }

  lemma NotWaiting(a: Audit, began: Millis, clock: Millis)
    requires a.c.waiting.None?
    ensures Tracked(a, began, clock)
  {
  }

  /** Throughout a wait in Bound the decision's clock reading, the time measured since
      then and the time left do not add up to more than the first timer, and to exactly
      that if it is less than 2^32 ms away. So then the wait goes on past the timer
      exactly if some of the time since the decision has not been measured: only the time
      between readings is lost. */
  lemma BoundWaits(host: ByteOrder, xids: nat -> u32, c: Client, es: seq<Event>)
    requires Starts(c) && OnClock(es)
    requires Run(host, xids, c, es).c.state == Bound && Run(host, xids, c, es).c.waiting.Some?
    ensures var a, began := Run(host, xids, c, es), Began(host, xids, c, es);
            && !a.c.fuzz && began + a.measured + a.c.waiting.value <= a.c.t1
            && (a.c.t1 - began < 0x1_0000_0000 ==>
                  && began + a.measured + a.c.waiting.value == a.c.t1
                  && (Clock(es) + a.c.waiting.value > a.c.t1 <==> began + a.measured < Clock(es)))
  {
    hide Run, Began, Clock, OnClock, Starts;
    OnClockIsPlausible(es);
    RunKeepsInv(host, xids, c, es);
    RunTracks(host, xids, c, es);
  }

  /** Such a wait: from 10 for 1000 ms to a timer at 1010, a poll that fails between 500
      and 501, and 999 ms still to wait, until 1500. */
  lemma WakesLate(host: ByteOrder, c: Client, xid: u32)
    requires c.state == Bound && c.t1 == 1010
    ensures Decide(c, Readings(10, 10, 0), xid).waiting == Some(1000)
    ensures PollStep(host, Decide(c, Readings(10, 10, 0), xid), Failed(500, 501)).waiting == Some(999)
  {
  }

  // ----- The two timers -----

  /** The estimated offsets are in order exactly up to 613566756 seconds; one second
      more and the product with seven wraps. */
  lemma DefaultTimersInOrder(leaseTime: u32)
    ensures DefaultT1(leaseTime) <= DefaultT2(leaseTime) <= leaseTime <==> leaseTime <= 613566756
  {
    var product := (leaseTime as int) * 7;
    var k := product / 0x1_0000_0000;
    assert product == k * 0x1_0000_0000 + Wrap32(product);
    assert k == 0 || k == 1 || k == 2 || k == 3 || k == 4 || k == 5 || k == 6;
  }

  /** By how much the second timer then precedes the first, in milliseconds: 16 years. */
  const REVERSED_BY: nat := 520_044_544_000

  /** With an acknowledgement from this server and nothing else, the timers are set for
      300 and 525 seconds on a host in network order. On a little-endian host the lease
      time arrives as 0x58020000 seconds, the product wraps, and the second timer
      expires before the first. */
  lemma OwnServerTimers(host: ByteOrder, source: Packet, address: u32, t: Builder.Terms, p: Packet, c: Client,
                        now1: Millis, now2: Millis, o: Outcomes)
    requires |t.dns| <= 4 && now1 <= now2 < now1 + REVERSED_BY
    requires Received(p, Encode(host, Builder.ReplyHeader(host, source, address),
                                Builder.GrantOptions(host, DHCPACK, t)))
    ensures var r := Configure(host, c, p, now1, now2, o);
            && r.ok == AllSet(o)
            && r.client.info == GrantInfo(host, t).(offeredAddress := address)
            && (host.Big? ==> r.client.t1 == now1 + 300_000 && r.client.t2 == now2 + 525_000)
            && (host.Little? ==> r.client.t1 == now1 + 738_263_040_000 && r.client.t2 == now2 + 218_218_496_000)
            && (host.Little? <==> r.client.t2 < r.client.t1)
            && (AllSet(o) ==> r.client.network == Network(true, c.network.mtu, address, t.netmask, t.gateway))
  {
    hide Encode, GrantInfo, Builder.GrantOptions, Builder.ReplyHeader, Yiaddr, Ntohl;
    GrantRoundTrip(host, source, DHCPACK, address, t, p);
    LeaseTimeArrives(host);
    GrantInfoFields(host, t);
  }

  // ----- Renewals -----

  /** The k-th event of a run sends a renewal. */
  ghost predicate Renews(host: ByteOrder, xids: nat -> u32, c: Client, es: seq<Event>, k: nat)
  {
    && k < |es| && es[k].Decision?
    && var c' := Run(host, xids, c, es[..k]).c;
    c'.waiting.None? && c'.state == Renewing && Sends(c', es[k].r).Request?
  }

  /** No message arrives. */
  ghost predicate Silent(es: seq<Event>)
  {
    forall e | e in es :: e.Polled? ==> !e.e.Arrived?
  }

  /** Without a message, a run can go on in a way that sends a renewal. */
  ghost predicate RenewsLater(host: ByteOrder, xids: nat -> u32, c: Client, es: seq<Event>)
  {
    exists more: seq<Event>, k: nat ::
      |es| <= k && Silent(more) && OnClock(es + more) && Renews(host, xids, c, es + more, k)
  }

  lemma SilentStep(host: ByteOrder, xids: nat -> u32, c: Client, e: Event, clock: Millis)
    requires Plausible(e) && clock <= FirstReading(e, clock) && (e.Polled? ==> !e.e.Arrived?)
    requires c.state == Renewing ==> c.t1 <= clock
    ensures var c' := Step(host, xids, c, e);
            && c'.t1 == c.t1 && c'.t2 == c.t2 && clock <= LastReading(e, clock)
            && (c'.state == Renewing ==> c'.t1 <= LastReading(e, clock))
  {
  }

  lemma {:induction false} SilentRun(host: ByteOrder, xids: nat -> u32, c: Client, es: seq<Event>, more: seq<Event>)
    requires OnClock(es + more) && Silent(more) && Run(host, xids, c, es).c.state == Bound
    ensures var c0, c' := Run(host, xids, c, es).c, Run(host, xids, c, es + more).c;
            && c'.t1 == c0.t1 && c'.t2 == c0.t2 && Clock(es) <= Clock(es + more)
            && (c'.state == Renewing ==> c0.t1 <= Clock(es + more))
    decreases |more|
  {
    hide Step, Plausible;
    if more == [] {
      assert es + more == es;
    } else {
      var before, e := more[..|more| - 1], more[|more| - 1];
      assert (es + more)[..|es + more| - 1] == es + before && (es + more)[|es + more| - 1] == e;
      SilentRun(host, xids, c, es, before);
      SilentStep(host, xids, Run(host, xids, c, es + before).c, e, Clock(es + before));
    }
  }

  function Max(a: nat, b: nat): nat { if a < b then b else a }

  /** What the two timers have to do with renewals. A client in Bound that is about to
      decide can come to send a renewal, if no message arrives, if and only if its second
      timer is later than the first, and later than it is by now. */
  lemma RenewsIffInOrder(host: ByteOrder, xids: nat -> u32, c: Client, es: seq<Event>)
    requires OnClock(es) && Run(host, xids, c, es).c.state == Bound && Run(host, xids, c, es).c.waiting.None?
    requires Run(host, xids, c, es).c.t1 < 0x8000_0000_0000_0000
    ensures var c0 := Run(host, xids, c, es).c;
            RenewsLater(host, xids, c, es) <==> Max(c0.t1, Clock(es)) < c0.t2
  {
    hide Run, Clock, OnClock, Silent;
    var c0 := Run(host, xids, c, es).c;
    if Max(c0.t1, Clock(es)) < c0.t2 {
      GoesOnToRenew(host, xids, c, es);
    }
    if more: seq<Event>, k: nat :|
      |es| <= k && Silent(more) && OnClock(es + more) && Renews(host, xids, c, es + more, k) {
      RenewalIsInTime(host, xids, c, es, more, k);
    }
  }

  lemma RenewalIsInTime(host: ByteOrder, xids: nat -> u32, c: Client, es: seq<Event>, more: seq<Event>, k: nat)
    requires OnClock(es + more) && Silent(more) && Run(host, xids, c, es).c.state == Bound
    requires |es| <= k && Renews(host, xids, c, es + more, k)
    ensures var c0 := Run(host, xids, c, es).c; Max(c0.t1, Clock(es)) < c0.t2
  {
    hide Plausible;
    var part := more[..k - |es|];
    assert (es + more)[..k] == es + part;
    OnClockAt(es + more, k);
    SilentRun(host, xids, c, es, part);
  }

  lemma {:induction false} OnClockAt(es: seq<Event>, k: nat)
    requires OnClock(es) && k < |es|
    ensures OnClock(es[..k]) && Clock(es[..k]) <= FirstReading(es[k], Clock(es[..k]))
    decreases |es|
  {
    hide Plausible, FirstReading, LastReading;
    if k < |es| - 1 {
      var before := es[..|es| - 1];
      OnClockAt(before, k);
      assert before[..k] == es[..k] && before[k] == es[k];
    }
  }

  /** Two decisions as soon as the first timer allows: into Renewing, and the renewal. */
  lemma GoesOnToRenew(host: ByteOrder, xids: nat -> u32, c: Client, es: seq<Event>)
    requires OnClock(es) && Run(host, xids, c, es).c.state == Bound && Run(host, xids, c, es).c.waiting.None?
    requires var c0 := Run(host, xids, c, es).c; c0.t1 < 0x8000_0000_0000_0000 && Max(c0.t1, Clock(es)) < c0.t2
    ensures RenewsLater(host, xids, c, es)
  {
    hide Observe, Starts;
    var a := Run(host, xids, c, es);
    var now := Max(a.c.t1, Clock(es));
    var d := Decision(Readings(now, now, 0));
    RunAppend(host, xids, c, es, d);
    IntoRenewing(host, xids, a, now);
    ClockAppend(es, d);
    ClockAppend(es + [d], d);
    assert es + [d, d] == es + [d] + [d];
    assert (es + [d, d])[..|es| + 1] == es + [d];
    assert Renews(host, xids, c, es + [d, d], |es| + 1);
    assert Silent([d, d]);
  }

  lemma IntoRenewing(host: ByteOrder, xids: nat -> u32, a: Audit, now: Millis)
    requires a.c.state == Bound && a.c.waiting.None? && a.c.t1 <= now < a.c.t2
    ensures var c' := Observe(host, xids, a, Decision(Readings(now, now, 0))).c;
            c'.state == Renewing && c'.waiting.None? && Sends(c', Readings(now, now, 0)).Request?
  {
  }

  lemma ClockAppend(es: seq<Event>, e: Event)
    ensures Clock(es + [e]) == LastReading(e, Clock(es))
    ensures OnClock(es + [e]) <==> OnClock(es) && Plausible(e) && Clock(es) <= FirstReading(e, Clock(es))
  {
    assert (es + [e])[..|es|] == es;
  }

  /** Every configuration on the way has left the second timer no later than the first. */
  ghost predicate Reversed(host: ByteOrder, xids: nat -> u32, c: Client, es: seq<Event>)
  {
    var c' := Run(host, xids, c, es).c;
    c'.t2 <= c'.t1 && (es == [] || Reversed(host, xids, c, es[..|es| - 1]))
  }

  /** In Renewing such a client is already too late. */
  lemma {:induction false} RenewingIsLate(host: ByteOrder, xids: nat -> u32, c: Client, es: seq<Event>)
    requires Starts(c) && OnClock(es) && Reversed(host, xids, c, es)
    ensures var c' := Run(host, xids, c, es).c;
            c'.state == Renewing ==> c'.waiting.None? && c'.t2 <= Clock(es)
  {
    if es != [] {
      var before, e := es[..|es| - 1], es[|es| - 1];
      RenewingIsLate(host, xids, c, before);
      LateStaysLate(host, xids, Run(host, xids, c, before).c, e, Clock(before));
    }
  }

  lemma LateStaysLate(host: ByteOrder, xids: nat -> u32, c: Client, e: Event, clock: Millis)
    requires Plausible(e) && clock <= FirstReading(e, clock) && c.t2 <= c.t1
    requires c.state == Renewing ==> c.waiting.None? && c.t2 <= clock
    ensures var c' := Step(host, xids, c, e);
            c'.state == Renewing ==> c'.waiting.None? && c'.t2 <= LastReading(e, clock)
  {
    hide React, IsValidReply;
    if e.Polled? && c.waiting.Some? && e.e.Arrived? && Accepts(host, c, e.e.message) {
      ReactNeverRenews(host, c, e.e.message.value, e.e);
    }
  }

  lemma ReactNeverRenews(host: ByteOrder, c: Client, p: Packet, e: Poll)
    requires c.waiting.Some? && e.Arrived? && c.state != Renewing
    ensures React(host, c, p, e).state != Renewing
  {
    hide Type, ServerId, Yiaddr, Halt, Configure;
    ConfigureKeepsPace(host, c, p, e.now1, e.now2, e.o);
  }

  /** Where every configuration leaves the second timer no later than the first, no run
      ever sends a renewal. */
  lemma {:induction false} NeverRenews(host: ByteOrder, xids: nat -> u32, c: Client, es: seq<Event>)
    requires Starts(c) && OnClock(es) && Reversed(host, xids, c, es)
    ensures forall k: nat :: !Renews(host, xids, c, es, k)
  {
    hide Starts, Run, Plausible;
    if es != [] {
      var n := |es| - 1;
      var before := es[..n];
      NeverRenews(host, xids, c, before);
      forall k: nat
        ensures !Renews(host, xids, c, es, k)
      {
        if k < n {
          assert before[..k] == es[..k] && !Renews(host, xids, c, before, k);
        } else if k == n {
          RenewingIsLate(host, xids, c, before);
        }
      }
    }
  }

  /** An acknowledgement that the event brings comes from this server. */
  ghost predicate OwnServer(host: ByteOrder, e: Event)
  {
    e.Polled? && e.e.Arrived? && e.e.message.Some? && Type(e.e.message.value) == DHCPACK ==>
      e.e.now2 < e.e.now1 + REVERSED_BY && FromOwnServer(host, e.e.message.value)
  }

  ghost predicate FromOwnServer(host: ByteOrder, p: Packet)
  {
    exists source: Packet, address: u32, t: Builder.Terms :: Acknowledges(host, source, address, t, p)
  }

  ghost predicate Acknowledges(host: ByteOrder, source: Packet, address: u32, t: Builder.Terms, p: Packet)
  {
    |t.dns| <= 4
    && Received(p, Encode(host, Builder.ReplyHeader(host, source, address), Builder.GrantOptions(host, DHCPACK, t)))
  }

  lemma OwnServerReverses(host: ByteOrder, xids: nat -> u32, c: Client, e: Event)
    requires host.Little? && Plausible(e) && OwnServer(host, e) && c.t2 <= c.t1
    ensures Step(host, xids, c, e).t2 <= Step(host, xids, c, e).t1
  {
    hide Type, ServerId, Yiaddr, Configure, Acknowledges, IsValidReply;
    if e.Polled? && c.waiting.Some? && e.e.Arrived? && Accepts(host, c, e.e.message)
           && Type(e.e.message.value) == DHCPACK {
      var p := e.e.message.value;
      var source: Packet, address: u32, t: Builder.Terms :| Acknowledges(host, source, address, t, p);
      OwnTimersReversed(host, source, address, t, p, c, e.e);
    }
  }

  lemma OwnTimersReversed(host: ByteOrder, source: Packet, address: u32, t: Builder.Terms, p: Packet,
                            c: Client, e: Poll)
    requires host.Little? && Acknowledges(host, source, address, t, p) && e.Arrived?
    requires e.now1 <= e.now2 < e.now1 + REVERSED_BY
    ensures var c' := Configure(host, c, p, e.now1, e.now2, e.o).client; c'.t2 <= c'.t1
  {
    hide Configure, Encode, Builder.ReplyHeader, Builder.GrantOptions;
    OwnServerTimers(host, source, address, t, p, c, e.now1, e.now2, e.o);
  }

  lemma {:induction false} OwnServerStaysReversed(host: ByteOrder, xids: nat -> u32, c: Client, es: seq<Event>)
    requires Starts(c) && host.Little? && OnClock(es) && forall e | e in es :: OwnServer(host, e)
    ensures Reversed(host, xids, c, es)
  {
    hide Step, OwnServer;
    if es != [] {
      OwnServerStaysReversed(host, xids, c, es[..|es| - 1]);
      OwnServerReverses(host, xids, Run(host, xids, c, es[..|es| - 1]).c, es[|es| - 1]);
    }
  }

  /** On a little-endian host a client of this server never sends a renewal: every lease
      ends in Rebinding. */
  lemma OwnServerNeverRenews(host: ByteOrder, xids: nat -> u32, c: Client, es: seq<Event>)
    requires Starts(c) && host.Little? && OnClock(es) && forall e | e in es :: OwnServer(host, e)
    ensures forall k: nat :: !Renews(host, xids, c, es, k)
  {
    OwnServerStaysReversed(host, xids, c, es);
    NeverRenews(host, xids, c, es);
  }

  /** A client that has just been bound by this server can come to send a renewal exactly
      on big-endian hosts. */
  lemma OwnServerRenewsIffBig(host: ByteOrder, xids: nat -> u32, c: Client, es: seq<Event>, e: Poll)
    requires OnClock(es + [Polled(e)]) && e.Arrived? && e.message.Some? && AllSet(e.o)
    requires Type(e.message.value) == DHCPACK && OwnServer(host, Polled(e))
    requires e.currentTime < e.now2 + 525_000 && e.now1 < 0x4000_0000_0000_0000
    requires var a := Run(host, xids, c, es);
             a.c.waiting.Some? && a.c.state in {Requesting, Renewing, Rebinding} && Accepts(host, a.c, e.message)
    ensures Run(host, xids, c, es + [Polled(e)]).c.state == Bound
    ensures RenewsLater(host, xids, c, es + [Polled(e)]) <==> host.Big?
  {
    hide Type, ServerId, Yiaddr, Configure, Acknowledges, IsValidReply, RenewsLater, AllSet, Plausible;
    var c1, p := Run(host, xids, c, es).c, e.message.value;
    RunAppend(host, xids, c, es, Polled(e));
    ClockAppend(es, Polled(e));
    var source: Packet, address: u32, t: Builder.Terms :| Acknowledges(host, source, address, t, p);
    OwnTimers(host, source, address, t, p, c1, e);
    RenewsIffInOrder(host, xids, c, es + [Polled(e)]);
  }

  lemma OwnTimers(host: ByteOrder, source: Packet, address: u32, t: Builder.Terms, p: Packet, c: Client, e: Poll)
    requires Acknowledges(host, source, address, t, p) && e.Arrived? && Plausible(Polled(e)) && AllSet(e.o)
    requires e.now2 < e.now1 + REVERSED_BY
    ensures var r := Configure(host, c, p, e.now1, e.now2, e.o);
            && r.ok && r.client.t1 <= e.now1 + 738_263_040_000 && e.now1 <= e.now2 <= e.currentTime
            && (if host.Big? then r.client.t1 < r.client.t2 && r.client.t2 == e.now2 + 525_000
                else r.client.t2 < r.client.t1)
  {
    hide Configure, Encode, Builder.ReplyHeader, Builder.GrantOptions, AllSet;
    OwnServerTimers(host, source, address, t, p, c, e.now1, e.now2, e.o);
  }

  // ----- Acknowledgements that are cut short -----

  lemma {:induction false} ParseKeepsAddress(host: ByteOrder, p: Packet, i: nat, info: DhcpInfo)
    ensures ParseFrom(host, p, i, info).info.offeredAddress == info.offeredAddress
    ensures CutShort(p, i) ==> ParseFrom(host, p, i, info).complete
    decreases OptionsSize(p) - i
  {
    hide Load32, Load16, Ntohl, Ntohs;
    if Continues(p, i) {
      Turn(host, p, i, info);
      ParseKeepsAddress(host, p, After(p, i), Taken(host, p, i, info));
    }
  }

  /** What configuring makes of an acknowledgement depends on its bytes alone exactly if
      it is not cut short. */
  lemma ConfiguresInside(host: ByteOrder, c: Client, p: Packet, now1: Millis, now2: Millis, o: Outcomes)
    requires IsValidDhcpMessage(p, OP_BOOTREPLY)
    ensures (forall q: Packet | SameMessage(p, q) ::
               Configure(host, c, q, now1, now2, o) == Configure(host, c, p, now1, now2, o))
            <==> !CutShort(p, 4)
  {
    hide SetUp, DefaultT1, DefaultT2, SameMessage, Yiaddr, CutShort, ParseFrom;
    InsideMessage(host, p);
    forall q: Packet | SameMessage(p, q)
      ensures !CutShort(p, 4) ==> Configure(host, c, q, now1, now2, o) == Configure(host, c, p, now1, now2, o)
    {
      SameYiaddr(host, p, q);
    }
    if CutShort(p, 4) {
      var q: Packet :| SameMessage(p, q) && ParseFrom(host, q, 4, NO_INFO) != ParseFrom(host, p, 4, NO_INFO);
      SameYiaddr(host, p, q);
      ParseKeepsAddress(host, p, 4, NO_INFO);
      ParseKeepsAddress(host, q, 4, NO_INFO);
      assert CutShort(q, 4);
      assert Configure(host, c, q, now1, now2, o) != Configure(host, c, p, now1, now2, o);
    }
  }

  lemma SameYiaddr(host: ByteOrder, p: Packet, q: Packet)
    requires SameMessage(p, q) && p.size >= OPTIONS
    ensures Yiaddr(host, p) == Yiaddr(host, q) && OptionsSize(p) == OptionsSize(q)
    ensures CutShort(p, 4) == CutShort(q, 4)
  {
    hide SameMessage, Load32;
    SameSlice(p, q, 16, 20);
    SameCut(p, q, 4);
  }

  lemma {:induction false} SameCut(p: Packet, q: Packet, i: nat)
    requires SameMessage(p, q)
    ensures CutShort(p, i) == CutShort(q, i)
    decreases OptionsSize(p) - i
  {
    hide ReadsLast;
    if Continues(p, i) {
      InsideStep(p, q, i);
      SameCut(p, q, After(p, i));
    } else if Continues(q, i) {
      InsideStep(q, p, i);
    }
  }

  /** Such an acknowledgement binds the client. Its lease time is 256 seconds and as many
      more as the byte behind the message says. */
  lemma CutLeaseBinds(host: ByteOrder, c: Client, p: Packet, e: Poll)
    requires c.waiting.Some? && c.state in {Requesting, Renewing, Rebinding}
    requires e.Arrived? && e.message == Some(p) && AllSet(e.o) && IsValidReply(host, p, c.lastXid)
    requires p.size == OPTIONS + 12 && p.mem[OPTIONS + 4..p.size] == CUT_LEASE
    ensures var c' := PollStep(host, c, e);
            && c'.state == Bound && c'.info.leaseTime == 0x100 + p.mem[p.size] as int
            && c'.t1 == e.now1 + 1000 * (c'.info.leaseTime / 2) as int
  {
    hide Xid, Yiaddr, Type, SetUp, DefaultT2;
    ReadsOneByteBeyond(host, p);
  }
}
