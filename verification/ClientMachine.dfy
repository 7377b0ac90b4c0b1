/** The state machine of `client/dhcpclient.cpp`, as functions on values. The class
    in ClientObject.dfy is proved to do what these functions say.

    The clock, the random offset and the outcome of every system call are inputs. */
module ClientMachine {
  import opened Bytes
  import opened Messages
  import opened Builder
  import opened Configuration

  datatype State = Init | Selecting | Requesting | Bound | Renewing | Rebinding

  const INITIAL_TIMEOUT: u32 := 4000
  const MAX_TIMEOUT: u32 := 64000
  const NO_TIMEOUT: u32 := 0
  const TIMEOUT_SPAN: int := 1000
  const INADDR_BROADCAST: u32 := 0xFFFF_FFFF

  /** A reading of the monotonic clock in milliseconds. */
  type Millis = x: int | 0 <= x < 0x8000_0000_0000_0000

  /** What the client has set on its interface and in the routing table. */
  datatype Network = Network(up: bool, mtu: u16, address: u32, subnetMask: u32, gateway: u32)

  datatype Client = Client(
    state: State,
    nextTimeout: u32,
    fuzz: bool,
    waiting: Option<u32>,  // the time left to wait, while in waitAndReceive
    lastXid: u32,          // transaction id of the last message sent
    sent: nat,             // how many messages have been sent
    t1: u64, t2: u64,      // expiry of the two timers
    requestAddress: u32, serverAddress: u32,
    info: DhcpInfo,
    network: Network)

  // ----- Timers -----

  function ExpireSeconds(now: Millis, seconds: u32): u64 { now + (seconds as int) * 1000 }

  predicate Expired(now: Millis, expires: u64) { now >= expires }

  function RemainingMillis(now: Millis, expires: u64): u64
  {
    if now > expires then 0 else expires - now
  }

  /** The offsets of the two timers when the server gives none. The product is taken
      in 32 bits. */
  function DefaultT1(leaseTime: u32): u32 { leaseTime / 2 }
  function DefaultT2(leaseTime: u32): u32 { Wrap32((leaseTime as int) * 7) / 8 }

  // ----- Timeouts -----

  function IncreaseTimeout(t: u32): u32
  {
    if t == NO_TIMEOUT then INITIAL_TIMEOUT
    else
      var doubled := if t < MAX_TIMEOUT then Wrap32((t as int) * 2) else t;
      if doubled > MAX_TIMEOUT then MAX_TIMEOUT else doubled
  }

  function CalculateTimeout(c: Client, adjustment: int): u32
  {
    if !c.fuzz then c.nextTimeout
    else if adjustment < 0 && -adjustment > c.nextTimeout then 0
    else Wrap32(c.nextTimeout + adjustment)
  }

  function SetNextState(c: Client, s: State): Client
  {
    c.(state := s, nextTimeout := NO_TIMEOUT, fuzz := true)
  }

  // ----- The switch in run -----

  /** Two clock readings, for `expired` and for `remainingMillis`, and the random
      offset for the wait. */
  datatype Readings = Readings(first: Millis, second: Millis, adjustment: int)

  predicate Possible(r: Readings)
  {
    r.first <= r.second && -TIMEOUT_SPAN <= r.adjustment <= TIMEOUT_SPAN
  }

  const CALM: Readings := Readings(0, 0, 0)

  datatype Sending = Nothing | Discover | Request(destination: u32)

  /** What the switch sends in a state. */
  function Sends(c: Client, r: Readings): Sending
  {
    match c.state
    case Init => Nothing
    case Selecting => Discover
    case Requesting => if c.nextTimeout >= MAX_TIMEOUT then Nothing else Request(c.serverAddress)
    case Bound => Nothing
    case Renewing => if Expired(r.first, c.t2) then Nothing else Request(c.serverAddress)
    case Rebinding => if c.nextTimeout >= MAX_TIMEOUT then Nothing else Request(INADDR_BROADCAST)
  }

  /** The bytes that go out. */
  function Transmission(host: ByteOrder, mac: Mac, c: Client, s: Sending, xid: u32): seq<seq<byte>>
  {
    match s
    case Nothing => []
    case Discover => [Encode(host, ClientHeader(host, xid, mac), DiscoverOptions())]
    case Request(destination) =>
      [Encode(host, ClientHeader(host, xid, mac), RequestOptions(host, c.requestAddress, destination))]
  }

  /** The switch; `xid` is the transaction id that a message sent here gets. */
  function Act(c: Client, r: Readings, xid: u32): Client
  {
    if !Sends(c, r).Nothing? then
      c.(lastXid := xid, sent := c.sent + 1, nextTimeout := IncreaseTimeout(c.nextTimeout))
    else
      match c.state
      case Init => SetNextState(c, Selecting)
      case Requesting => SetNextState(c, Init)
      case Bound =>
        if Expired(r.first, c.t1) then SetNextState(c, Renewing)
        else c.(nextTimeout := Wrap32(RemainingMillis(r.second, c.t1)), fuzz := false)
      case Renewing => SetNextState(c, Rebinding)
      case Rebinding => SetNextState(c, Init)
      case Selecting => c
  }

  /** The start of waitAndReceive. */
  function BeginWait(c: Client, adjustment: int): Client
  {
    if c.nextTimeout == NO_TIMEOUT then c.(waiting := None)
    else c.(waiting := Some(CalculateTimeout(c, adjustment)))
  }

  function Decide(c: Client, r: Readings, xid: u32): Client
  {
    BeginWait(Act(c, r, xid), r.adjustment)
  }

  // ----- configureDhcp and haltNetwork -----

  /** Which of the calls on the interface and the router succeed. */
  datatype Outcomes = Outcomes(up: bool, mtu: bool, address: bool, subnetMask: bool, gateway: bool, down: bool)

  /** The calls in their order; the first failure ends them, except for the MTU. */
  function SetUp(n: Network, info: DhcpInfo, o: Outcomes): Network
  {
    if !o.up then n else
      var n := n.(up := true, mtu := if info.mtu != 0 && o.mtu then info.mtu else n.mtu);
      if !o.address then n else
        var n := n.(address := info.offeredAddress);
        if !o.subnetMask then n else
          var n := n.(subnetMask := info.subnetMask);
          if !o.gateway then n else n.(gateway := info.gateway)
  }

  predicate AllSet(o: Outcomes) { o.up && o.address && o.subnetMask && o.gateway }

  function Halt(n: Network, o: Outcomes): Network
  {
    n.(address := if o.address then 0 else n.address, up := if o.down then false else n.up)
  }

  datatype Configured = Configured(ok: bool, client: Client)

  function Configure(host: ByteOrder, c: Client, p: Packet, now1: Millis, now2: Millis, o: Outcomes): Configured
  {
    if OptionsSize(p) < 4 then Configured(false, c) else
      var parsed := ParseFrom(host, p, 4, NO_INFO);
      if !parsed.complete then Configured(false, c.(info := parsed.info)) else
        var info := parsed.info.(offeredAddress := Yiaddr(host, p));
        if info.leaseTime == 0 then Configured(false, c.(info := info)) else
          var t1 := if info.t1 > 0 then info.t1 else DefaultT1(info.leaseTime);
          var t2 := if info.t2 > 0 then info.t2 else DefaultT2(info.leaseTime);
          Configured(AllSet(o), c.(info := info, t1 := ExpireSeconds(now1, t1), t2 := ExpireSeconds(now2, t2),
                                   network := SetUp(c.network, info, o)))
  }

  // ----- The loop of waitAndReceive -----

  /** What one call of ppoll brings. A message is None if it could not be received or
      its IP and UDP headers were wrong. */
  datatype Poll =
    | TimedOut
    | Failed(startedAt: Millis, currentTime: Millis)
    | Arrived(startedAt: Millis, currentTime: Millis, message: Option<Packet>, now1: Millis, now2: Millis, o: Outcomes)

  /** Wait for what is left of the timeout, or stop waiting if nothing is left. */
  function Remain(c: Client, startedAt: Millis, currentTime: Millis): Client
    requires c.waiting.Some?
  {
    var end := startedAt + c.waiting.value;
    if currentTime >= end then c.(waiting := None) else c.(waiting := Some(Wrap32(end - currentTime)))
  }

  /** The transition that a message causes, if it causes one that ends the wait. */
  function React(host: ByteOrder, c: Client, p: Packet, e: Poll): Client
    requires c.waiting.Some? && e.Arrived?
  {
    var kind := Type(p);
    match c.state
    case Selecting =>
      if kind == DHCPOFFER then
        SetNextState(c.(serverAddress := ServerId(host, p), requestAddress := Yiaddr(host, p), waiting := None),
                     Requesting)
      else Remain(c, e.startedAt, e.currentTime)
    case Requesting | Renewing | Rebinding =>
      if kind == DHCPACK then
        var r := Configure(host, c, p, e.now1, e.now2, e.o);
        if r.ok then SetNextState(r.client.(waiting := None), Bound)
        else Remain(r.client.(waiting := c.waiting), e.startedAt, e.currentTime)
      else if kind == DHCPNAK then
        SetNextState(c.(network := Halt(c.network, e.o), waiting := None), Init)
      else Remain(c, e.startedAt, e.currentTime)
    case Init | Bound => Remain(c, e.startedAt, e.currentTime)
  }

  /** receiveDhcpMessage */
  predicate Accepts(host: ByteOrder, c: Client, m: Option<Packet>)
  {
    m.Some? && IsValidReply(host, m.value, c.lastXid)
  }

  function PollStep(host: ByteOrder, c: Client, e: Poll): Client
    requires c.waiting.Some?
  {
    match e
    case TimedOut => c.(waiting := None)
    case Failed(startedAt, currentTime) => Remain(c, startedAt, currentTime)
    case Arrived(startedAt, currentTime, m, _, _, _) =>
      if Accepts(host, c, m) then React(host, c, m.value, e) else Remain(c, startedAt, currentTime)
  }

  // ----- Runs -----

  datatype Event = Decision(r: Readings) | Polled(e: Poll)

  /** An event that does not fit the point of the program changes nothing. */
  function Step(host: ByteOrder, xids: nat -> u32, c: Client, e: Event): Client
  {
    match e
    case Decision(r) => if c.waiting.None? then Decide(c, r, xids(c.sent)) else c
    case Polled(poll) => if c.waiting.Some? then PollStep(host, c, poll) else c
  }

  /** The ids of a process that counts its messages from one. */
  function CounterXid(host: ByteOrder): nat -> u32
  {
    n => Htonl(host, Wrap32(1 + n))
  }

  /** A client after its constructor and `init`. The two addresses that requests use
      are not initialised. */
  ghost predicate Starts(c: Client)
  {
    && c.state == Init && c.nextTimeout == INITIAL_TIMEOUT && c.fuzz && c.waiting == None
    && c.lastXid == 0 && c.sent == 0 && c.t1 == c.t2 == 0 && c.network.address == 0
  }
}
