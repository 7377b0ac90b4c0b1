# DHCP and hardware composer of the SPURV device: a verified model

The SPURV device runs Android in a container. Two of its parts are modelled here.

**DHCP** (`spurv/dhcp`). A client with six states, backoff and lease timers; a server
that hands out addresses from a range and keeps them; the message format they share,
with its builder and two separate option parsers; and the checksums of the raw packets
the client sends. The model starts at single bytes in memory and ends at one server, any
number of clients and a network that may lose, duplicate and reorder what it is given:
in the main theorem everything that travels is bytes, and what a client or the server
does is decided by parsing them.

**Hardware composer** (`spurv/hwcomposer`). Buffers, release fences and the software
timeline shared by two threads without a lock, and the arithmetic of the vsync thread.

## How the model is laid out

| file | content |
|---|---|
| `Bytes.dfy` | words, byte order of the host, `htonl` and its relatives |
| `Checksum.dfy`, `RawUdp.dfy`, `Transmissions.dfy` | `addChecksum`, RFC 1071 as a reference, `sendRawUdp`, and what it makes of the client's messages |
| `Messages.dfy`, `Builder.dfy`, `Factories.dfy` | layout, option lists, `getOption`; the class `Message` that is written in place; what receivers read in the messages of the factories |
| `Configuration.dfy` | the option loop of `configureDhcp`, its agreement with `getOption`, and what arrives from `Message::ack` |
| `ClientMachine.dfy`, `ClientReplies.dfy`, `ClientRuns.dfy`, `ClientObject.dfy` | the client as functions, what it makes of messages in terms of their options, what holds in all its runs, and the classes `Timer` and `DhcpClient` |
| `Allocator.dfy`, `Server.dfy`, `ServerReplies.dfy`, `ServerObject.dfy` | `getOfferAddress` and exactly what it hands out, message handling, what the answers say, the class `DhcpServer` |
| `Protocol.dfy` | the whole system |
| `Composer.dfy`, `ComposerObject.dfy`, `Vsync.dfy` | fences in all interleavings, `hwc_set` and `buffer_release` as methods, the vsync thread |

Objects that the program updates in place are classes here (`Message`, `Timer`,
`DhcpClient`, `DhcpServer`, `HwComposer`). Each of their methods is proved to do what a
function on values says, and the theorems are about those functions.

Every statement is proved for both byte orders of the host, unless it names one. The clock, the random offset
of a wait, the outcome of every system call, and what a poll brings are inputs; runs are
arbitrary sequences of inputs. Clock readings are below 2^63 milliseconds, respectively
2^62 nanoseconds.

## Where the program differs from what it is for

The model follows the program. In each of these places the intended property fails, and
the exact condition under which it holds is proved instead.

- **The skip loop** of the server computes the byte it tests once, before the loop
  (`dhcpserver.cpp:288-294`). Once entered it never ends (`AsWrittenNeverEnds`), so the
  server hands out at most 254 consecutive addresses and then hangs (`AsWrittenServes`),
  unless all addresses from the first to the one after the last are usable; then nobody
  can make it hang (`HangsIffSkips`, `ServersHangIffSkips`).
  `SkipLoop` selects between the loop as written and the loop its comment describes;
  theorems hold for both unless they name one.
- **Address ranges near the top.** The loop as described keeps leases distinct and in
  range exactly when the range does not start at 255.255.255.255 or reach
  255.255.255.254 (`DistinctIffNoWrap`, and in terms of messages to a server
  `ServersDistinctIffNoWrap`).
- **Transaction ids.** Every client process counts from one, and replies are matched by
  id alone. All runs are safe exactly when the server cannot serve anybody or no two
  clients with different MAC addresses share a link it serves (`SafeIffUncontended`);
  clients with different keys hold different addresses under the same condition
  (`ExclusiveIffUncontended`); `Collision` is the run that goes wrong. With ids kept apart every run is safe
  (`SafeInAllRuns`). A single client hears only fresh replies for 2^32 messages
  (`OnlyFreshReplies`); with the next one it takes the answer to its very first message
  (`IdsWrapAround`).
- **Lease time** is written in host order and read in network order: 600 seconds arrive
  as 600 exactly on big-endian hosts (`LeaseTimeArrives`). On little-endian hosts the
  second timer then expires before the first (`OwnServerTimers`) and no run ever sends a
  renewal (`OwnServerNeverRenews`). In general a client in Bound can come to send a
  renewal exactly if its second timer is later than the first, and later than it is by
  now (`RenewsIffInOrder`); with this server exactly on big-endian hosts
  (`OwnServerRenewsIffBig`).
- **The DNS case falls through** into the server identifier (`ServerIdAgrees`).
- **The length check** of the option loop leaves out the option header; the loop can
  read one byte past a message, never more (`StopBound`). The result depends on the
  message alone exactly if its last option is not cut short by a byte that the switch
  reads (`InsideMessage`, `ConfiguresInside`). An acknowledgement whose lease time is cut
  short binds the client (`CutLeaseBinds`). The client zeroes its message object before
  every poll, so below full capacity the byte that completes it is zero; at full capacity
  it is the byte after the struct.
- **The address accessors** have no end check and can read three bytes past a message;
  `AddressInside` says exactly when that matters. The server reuses one message object,
  so what follows a message there is left over from earlier ones.
- **A last odd byte** is added to the checksum as it is, which is right exactly on
  little-endian hosts, for even lengths, or for a zero byte (`MatchesRfc1071`). A client
  sends 254 or 266 bytes, so all its packets verify (`TransmissionIsEven`,
  `SendMessage`).
- **A UDP checksum of zero** is sent as zero; `ZeroCheckField` says exactly when, and
  `ZeroCheckOccurs` that for every MAC address it happens to one of the first 2^32
  messages of a client.
- **Pads.** Both parsers give code 0 a length byte, which section 3.1 of RFC 2132 does
  not. Pads in runs of even length do no harm, because two of them read as an empty option
  (`EvenPadsAreHarmless`); a single one hides what follows it (`OddPadMisread`). Elsewhere
  "well-formed" means the form the program writes.
- **Waiting in Bound.** The wait ends by the first timer, less than 2^32 ms away, exactly if
  all the time since the decision has been measured (`BoundWaits`). What passes between one
  poll's last clock reading and the next poll's first is not, and is added (`WakesLate`).
- **Default timers** are in order exactly up to 613566756 seconds
  (`DefaultTimersInOrder`).
- **Vsync.** The sleep is right exactly while the distance from the last vsync to the
  next fits in 32 bits; after that it is negative and the thread ends (`SleepIsRight`,
  `VsyncThread`, `StaleAfter`).
- **Fences.** Fences and attachments stay together exactly in the runs in which no fence
  is stored in a buffer whose release is under way; one such overlap is never made good
  (`OwnFencesIffOrderly`), and they occur (`WrongFenceClosed`). No buffer ever has two
  outstanding fences exactly in the runs in which none is made between the moment a
  release resets busy and the moment it advances the timeline (`AlwaysOneIffSingle`);
  `TwoFences` is the run that has two. A fence tells the truth about its buffer
  exactly when the compositor releases in commit order (`ExactIffInOrder`).

## Model

| member | source | states |
|---|---|---|
| Checksum.AddChecksum | spurv/dhcp/common/socket.cpp:34-51 | both loops end and return the normal form, modulo 65535, of the 32-bit sum of all words and the start value, for every buffer |
| Checksum.FoldHalves | spurv/dhcp/common/socket.cpp:46-50 | folding the upper half into the lower until nothing is left yields the representative in 1..65535, or zero for zero |
| Checksum.NoOverflow | spurv/dhcp/common/socket.cpp:34-51 | with a start below 2^16 and at most 2^17 bytes no carry out of 32 bits is lost |
| Checksum.OverflowBeyondBound | spurv/dhcp/common/socket.cpp:39-44 | that bound is tight: two bytes more can lose a carry |
| Checksum.Chaining | spurv/dhcp/common/socket.cpp:193-199 | passing the result of one call to the next sums the concatenation if the first chunk has even length |
| Checksum.Rfc1071IsNorm | spurv/dhcp/common/socket.cpp:32-57 | end-around-carry addition of big-endian words, the reference of RFC 1071, is the normal form of their plain sum |
| Checksum.LittleIsSwapped | spurv/dhcp/common/socket.cpp:34-62 | byte order independence: the little-endian sum is the reference sum with its bytes exchanged, odd lengths included (section 2(B) of RFC 1071) |
| Checksum.MatchesRfc1071 | spurv/dhcp/common/socket.cpp:34-62 | the stored checksum is the one RFC 1071 prescribes if and only if the host is little-endian, the length even or the last byte zero |
| RawUdp.FilledIn | spurv/dhcp/common/socket.cpp:183-200 | filling the complement into a zeroed check field makes the receiver's sum all ones exactly where the odd byte is safe |
| RawUdp.SendRawUdp | spurv/dhcp/common/socket.cpp:166-200 | the header bytes, field by field; the receiver's RFC 1071 sum over the IP header is 0xFFFF, and over pseudo header, UDP header and payload it is 0xFFFF if and only if the odd byte is safe |
| RawUdp.ZeroCheckField | spurv/dhcp/common/socket.cpp:200 | the check field is sent as zero exactly when the sum is a positive multiple of 65535 |
| Transmissions.SendMessage | spurv/dhcp/client/dhcpclient.cpp:529-538 | on the packet of any message of even length both checks of a receiver succeed |
| Transmissions.TransmissionIsEven | spurv/dhcp/common/message.cpp:56-81 | whatever its state, a client transmits 254 or 266 bytes, so the treatment of a last odd byte never matters |
| Transmissions.ZeroCheckOccurs | spurv/dhcp/common/socket.cpp:200 | for every MAC address and every option list that makes the length even, one of the first 2^32 transaction ids of a client gives a packet with a zero check field |
| Transmissions.ZeroCheckIsSent | spurv/dhcp/client/dhcpclient.cpp:523-527 | a client that hears nothing sends such a DISCOVER |
| Messages.GetOption | spurv/dhcp/common/message.cpp:287-305 | the loop ends and returns what the recursive search finds, with the payload starting inside the options |
| Messages.FindsFirst | spurv/dhcp/common/message.cpp:287-305 | on any well-formed options getOption returns the first payload with the code, inside the message, and null exactly when there is none |
| Messages.ValidExactly | spurv/dhcp/common/message.cpp:157-200 | byte by byte which messages are accepted, and which as a reply to a transaction id |
| Messages.TypeIs | spurv/dhcp/common/message.cpp:211-218 | type is the one byte of the first message type option, or zero if there is none or it has another length |
| Messages.AddressIs | spurv/dhcp/common/message.cpp:220-236 | serverId and requestedIp are the word in the first option with their code, or zero if there is none or it has another length |
| Messages.AddressInside | spurv/dhcp/common/message.cpp:211-236 | on any message what they return depends on its bytes alone if and only if the option does not end after the message; type always does |
| Messages.OddPadMisread | spurv/dhcp/common/message.cpp:290-303 | a single pad of RFC 2132 in front of the type hides it |
| Messages.DecodesEncoded | spurv/dhcp/common/message.cpp:157-200 | whoever receives an encoded header and option list reads back exactly that header, accepts it for its operation only, and finds exactly those options, whatever the receiving object held before |
| Messages.RestIsZero | spurv/dhcp/common/message.cpp:238-243 | all other bytes of the header are zero |
| Builder.TransactionIds.Take | spurv/dhcp/common/message.cpp:250 | ids are handed out one after the other and wrap at 32 bits |
| Builder.Message.constructor | spurv/dhcp/common/message.cpp:238-266 | the message holds its header with a fresh id, the cookie and the type option |
| Builder.Message.AddOption | spurv/dhcp/common/message.cpp:268-277 | one more option at the end of the list; header and earlier options stay |
| Builder.Message.AddItems | spurv/dhcp/common/message.h:109-121 | the overload that copies items one at a time adds the same bytes |
| Builder.Message.EndOptions | spurv/dhcp/common/message.cpp:279-285 | the bytes are the encoding of header and options |
| Builder.Message.Discover | spurv/dhcp/common/message.cpp:56-65 | the bytes of a DISCOVER: header, parameter list and end marker |
| Builder.Message.Request | spurv/dhcp/common/message.cpp:67-81 | the bytes of a REQUEST with requested address and server |
| Builder.Message.Grant | spurv/dhcp/common/message.cpp:83-140 | the bytes of an offer or an acknowledgement: id, flags, relay and MAC of the message it answers, the address, and the six options |
| Builder.Message.Nack | spurv/dhcp/common/message.cpp:142-155 | the bytes of a denial |
| Factories.DiscoverReads | spurv/dhcp/common/message.cpp:56-65 | whoever receives a DISCOVER reads the id, the MAC, the broadcast flag and the eight parameters, and no address |
| Factories.RequestReads | spurv/dhcp/common/message.cpp:67-81 | from a REQUEST the same, and the requested address and the server |
| Factories.GrantReads | spurv/dhcp/common/message.cpp:83-140 | from an offer or an acknowledgement id, flags, relay and MAC of the message it answers, the address, and by getOption server, mask, gateway, lease time and DNS servers |
| Factories.NackReads | spurv/dhcp/common/message.cpp:142-155 | from a denial the same header without an address, and the server |
| Configuration.ParseOptions | spurv/dhcp/client/dhcpclient.cpp:311-394 | the option loop ends on every message, stays in the message object, and equals its recursive form |
| Configuration.ParseIsFold | spurv/dhcp/client/dhcpclient.cpp:316-394 | on well-formed options the loop completes and equals a fold of the switch over the list |
| Configuration.FoldDecided | spurv/dhcp/client/dhcpclient.cpp:331-392 | every field is decided by the last option with its code and a fitting length, in network order where that is meant; the server identifier also by a four-byte DNS option |
| Configuration.OptionRoundTrip | spurv/dhcp/common/message.cpp:157-305 | for every option list that fits: the cookie is accepted, the type comes back, and every code yields its first payload or nothing exactly when it was not added |
| Configuration.ParsersAgree | spurv/dhcp/client/dhcpclient.cpp:311-395 | where no code repeats, every field but the server identifier is what getOption finds |
| Configuration.ServerIdAgrees | spurv/dhcp/client/dhcpclient.cpp:368-391 | the server identifier agrees with getOption exactly when no DNS option with another address takes the last word |
| Configuration.EvenPadsAreHarmless | spurv/dhcp/client/dhcpclient.cpp:316-394 | on option lists of RFC 2132 whose pads come in runs of even length both parsers find exactly the options that are meant |
| Configuration.FoldGrant | spurv/dhcp/client/dhcpclient.cpp:331-392 | what the switch makes of the six options of an offer or acknowledgement, for up to four DNS servers |
| Configuration.GrantRoundTrip | spurv/dhcp/common/message.cpp:113-140 | from Message::ack (or offer) to the client: mask, gateway, DNS servers with unused slots zero, server, address, id and MAC all come back |
| Configuration.LeaseTimeArrives | spurv/dhcp/common/message.cpp:130 | the granted 600 seconds arrive as 600 exactly on big-endian hosts, else as 0x58020000 |
| Configuration.GrantInfoFields | spurv/dhcp/client/dhcpclient.cpp:331-392 | that is the lease time the client gets; the server identifier arrives exactly unless a single, different DNS server is sent |
| Configuration.StopBound | spurv/dhcp/client/dhcpclient.cpp:316-329 | on any message the loop stops at most one byte past the end |
| Configuration.InsideMessage | spurv/dhcp/client/dhcpclient.cpp:316-394 | on any message, however malformed, the result depends on its bytes alone if and only if it is not cut short by one byte that the switch reads; no second byte ever matters |
| Configuration.ReadsOneByteBeyond | spurv/dhcp/client/dhcpclient.cpp:323-336 | an acknowledgement with its lease time cut short is recognised as one, and the lease time is completed with the byte that follows in memory |
| ClientRuns.ConfiguresInside | spurv/dhcp/client/dhcpclient.cpp:301-437 | what configuring makes of a valid reply depends on its bytes alone if and only if it is not cut short |
| ClientRuns.CutLeaseBinds | spurv/dhcp/client/dhcpclient.cpp:257-262 | that acknowledgement binds the client, with a lease and a first timer of that length |
| ClientRuns.RunKeepsInv | spurv/dhcp/client/dhcpclient.cpp:102-186 | the invariant of all runs: pace, log of ids, conservation of waits |
| ClientRuns.DecisionsAre | spurv/dhcp/client/dhcpclient.cpp:107-182 | in every run every decision, state by state: what is sent and to whom, the next state by name, and the wait, which after the k-th message of a stay is 4, 8, 16, 32, 64, 64, ... s with the offset in Selecting, Requesting, Renewing and Rebinding alike |
| ClientRuns.WaitEnds | spurv/dhcp/client/dhcpclient.cpp:220-298 | in every run a poll ends the wait if and only if it times out, changes the state, or brings the time measured to the timeout the wait began with; otherwise the rest of that timeout is left |
| ClientRuns.Backoff | spurv/dhcp/client/dhcpclient.cpp:482-505 | in every run a randomised wait has one of the five bases 4 s to 64 s and the offset is applied in full; the underflow branch is unreachable (section 4.1 of RFC 2131) |
| ClientReplies.MessageMoves | spurv/dhcp/client/dhcpclient.cpp:235-281 | for every well-formed message what it does to a waiting client, in terms of its options: offer, acknowledgement, denial, and that anything else changes nothing but the wait |
| ClientReplies.ConfigureReads | spurv/dhcp/client/dhcpclient.cpp:301-437 | for every well-formed message when configuring succeeds, both deadlines from options 58, 59 and 51, and every network setting for every outcome of the calls |
| ClientReplies.TooLongIsRefused | spurv/dhcp/client/dhcpclient.cpp:323-329 | a message that ends within an option is refused, whatever options come before |
| ClientRuns.StayIsBounded | spurv/dhcp/client/dhcpclient.cpp:121-179 | in every run a stay in Requesting or Rebinding sends at most five requests and asks for at most 129 s; with fewer it sends one more, after five it goes to Init |
| ClientRuns.NoSpinning | spurv/dhcp/client/dhcpclient.cpp:102-186 | at most two decisions in a row skip waiting, apart from Bound with a remainder that truncates to zero |
| ClientRuns.OnlyFreshReplies | spurv/dhcp/client/dhcpclient.cpp:235-281 | in a run of at most 2^32 messages whatever changes the client answers its most recent transmission and no earlier one |
| ClientRuns.CounterCounts | spurv/dhcp/common/message.cpp:250 | the n-th message of a process carries the number n + 1, modulo 2^32, in network order |
| ClientRuns.IdsWrapAround | spurv/dhcp/common/message.cpp:250 | that bound is tight: a run that sends 2^32 + 1 messages and then takes the server's answer to the first one |
| ClientRuns.WaitIsConserved | spurv/dhcp/client/dhcpclient.cpp:220-298 | measured time and remaining timeout add up to the timeout of the wait, so the narrowing to 32 bits loses nothing |
| ClientRuns.BoundTimeout | spurv/dhcp/client/dhcpclient.cpp:133-150 | the timeout asked for in Bound is not randomised and ends by the first timer, however long the lease; it is zero exactly if the timer has expired or a multiple of 2^32 ms remains |
| ClientRuns.BoundWaits | spurv/dhcp/client/dhcpclient.cpp:220-298 | throughout a wait in Bound the decision's clock reading, the time measured and the time left stay within the first timer, and are equal to it below 2^32 ms; then the wait goes past the timer exactly by the time that was not measured |
| ClientRuns.WakesLate | spurv/dhcp/client/dhcpclient.cpp:284-297 | an input with which it does |
| ClientRuns.DefaultTimersInOrder | spurv/dhcp/client/dhcpclient.cpp:403-405 | the estimated offsets satisfy T1 <= T2 <= lease if and only if the lease is at most 613566756 s |
| ClientRuns.OwnServerTimers | spurv/dhcp/client/dhcpclient.cpp:395-437 | configuring from this server's acknowledgement: all network settings, 300 s and 525 s on big-endian hosts, and on little-endian hosts exactly then the second timer before the first |
| ClientRuns.RenewsIffInOrder | spurv/dhcp/client/dhcpclient.cpp:133-163 | after any run that has led to Bound, some continuation without messages sends a renewal if and only if the second timer is later than the first and than the clock |
| ClientRuns.OwnServerRenewsIffBig | spurv/dhcp/client/dhcpclient.cpp:257-262 | a client just bound by this server can come to send a renewal exactly on big-endian hosts |
| ClientRuns.NeverRenews | spurv/dhcp/client/dhcpclient.cpp:133-163 | if every configuration in a run leaves the second timer no later than the first, the run never sends a renewal |
| ClientRuns.OwnServerNeverRenews | spurv/dhcp/common/message.cpp:130 | so on little-endian hosts no run in which this server acknowledges ever sends a renewal |
| ClientObject.Timer.SetSeconds | spurv/dhcp/client/timer.cpp:31-33 | the timer has expired exactly from that many seconds on |
| ClientObject.Timer.Remaining | spurv/dhcp/client/timer.cpp:39-45 | the remaining time, zero exactly if expired |
| ClientObject.DhcpClient.constructor | spurv/dhcp/client/dhcpclient.cpp:53-59 | the initial client |
| ClientObject.DhcpClient.TakeAction | spurv/dhcp/client/dhcpclient.cpp:107-182 | the switch: the new client and the bytes it transmits, in a packet that verifies |
| ClientObject.DhcpClient.ConfigureDhcp | spurv/dhcp/client/dhcpclient.cpp:301-457 | result, lease information, timers and network settings on success and on every failure |
| ClientObject.DhcpClient.HandlePoll | spurv/dhcp/client/dhcpclient.cpp:231-297 | one iteration of the wait: the transition, or the time left |
| ClientObject.DhcpClient.WaitAndReceive | spurv/dhcp/client/dhcpclient.cpp:209-299 | the loop equals its recursive form over any polls |
| ClientObject.DhcpClient.RunFor | spurv/dhcp/client/dhcpclient.cpp:102-186 | the main loop over any inputs is the run over all of them in order, in the sense of the theorems on runs |
| Allocator.AsWrittenNeverEnds | spurv/dhcp/server/dhcpserver.cpp:287-294 | after any number of iterations the loop as written goes on if and only if it was entered |
| Allocator.ServeIsExact | spurv/dhcp/server/dhcpserver.cpp:277-305 | after any sequence of calls the k-th key to succeed holds the k-th usable address of the range, and the offset leads to the next |
| Allocator.EveryUsableIsNth | spurv/dhcp/server/dhcpserver.cpp:287-294 | the numbering leaves out no usable address |
| Allocator.ExactIsDistinct | spurv/dhcp/server/dhcpserver.cpp:282-304 | nonzero leases are pairwise distinct and in the range, and differ from entries without a lease |
| Allocator.ExhaustedIffAllHeld | spurv/dhcp/server/dhcpserver.cpp:295-302 | "out of addresses" is returned to a new key if and only if every usable address of the range is held |
| Allocator.AsWrittenServes | spurv/dhcp/server/dhcpserver.cpp:283-303 | with the loop as written: at most 254 leases, consecutive, and exactly when a new key makes the server hang |
| Allocator.HangsIffSkips | spurv/dhcp/server/dhcpserver.cpp:287-294 | with the loop as written clients on any one interface can make it hang, unless every address from the first to the one after the last is usable |
| Allocator.DistinctIffNoWrap | spurv/dhcp/server/dhcpserver.cpp:287-299 | with the loop as described leases stay distinct and in range for all callers on an interface if and only if the range stays clear of the top of the address space |
| Server.OfferKeeps | spurv/dhcp/server/dhcpserver.cpp:277-305 | a call changes no other key's lease and no existing one; a granted address is nonzero and is the lease |
| Server.HandleKeeps | spurv/dhcp/server/dhcpserver.cpp:108-131 | no message changes an existing lease; what is offered or acknowledged is the sender's lease |
| Server.OfferIsStable | spurv/dhcp/server/dhcpserver.cpp:116-131 | after an offer and any further messages from anyone, a request for the offered address is acknowledged with it and a request for another or none is denied |
| ServerReplies.AnsweredIff | spurv/dhcp/server/dhcpserver.cpp:95-131 | exactly which messages are answered, and the table after any message |
| ServerReplies.AnswersSay | spurv/dhcp/server/dhcpserver.cpp:146-220 | what receivers read in the answer: its kind, the sender's lease, the interface's address as server, mask, gateway and DNS servers, and the fields taken over from the message |
| Server.RecomputingNeverHangs | spurv/dhcp/server/dhcpserver.cpp:289-294 | with the loop as described the server never hangs |
| Server.HandlesAreCalls | spurv/dhcp/server/dhcpserver.cpp:146-237 | every reachable table is reached by allocator calls |
| Server.ServersAreExact | spurv/dhcp/server/dhcpserver.cpp:95-132 | so the exact allocator holds in every reachable state of a server |
| Server.CallsAreHandles | spurv/dhcp/server/dhcpserver.cpp:107-120 | and any calls for clients on a served interface are brought about by messages of theirs |
| Server.ServersDistinctIffNoWrap | spurv/dhcp/server/dhcpserver.cpp:277-305 | with the loop as described no messages make leases collide or leave the range, if and only if the range stays clear of the top of the address space |
| Server.ServersHangIffSkips | spurv/dhcp/server/dhcpserver.cpp:287-294 | with the loop as written no messages make the server hang, if and only if it never has an address to skip |
| ServerObject.DhcpServer.constructor | spurv/dhcp/server/dhcpserver.cpp:38-50 | the initial server |
| ServerObject.DhcpServer.SkipUnusable | spurv/dhcp/server/dhcpserver.cpp:289-294 | the loop that does test the new address |
| ServerObject.DhcpServer.GetOfferAddress | spurv/dhcp/server/dhcpserver.cpp:277-306 | table, offset and result |
| ServerObject.DhcpServer.SendOffer | spurv/dhcp/server/dhcpserver.cpp:146-176 | table and transmitted bytes of an offer, silence on failure |
| ServerObject.DhcpServer.SendAcknowledgement | spurv/dhcp/server/dhcpserver.cpp:178-205 | table and transmitted bytes of an acknowledgement |
| ServerObject.DhcpServer.SendDenial | spurv/dhcp/server/dhcpserver.cpp:207-220 | transmitted bytes of a denial |
| ServerObject.DhcpServer.IsValidRequest | spurv/dhcp/server/dhcpserver.cpp:222-237 | valid exactly if the allocator grants the requested address |
| ServerObject.DhcpServer.HandleMessage | spurv/dhcp/server/dhcpserver.cpp:108-131 | table and transmitted bytes for any message |
| Protocol.RequestOnWire | spurv/dhcp/client/dhcpclient.cpp:515-521 | a parsed request names the offered address, and the offering server, or everybody when rebinding |
| Protocol.RequestBinds | spurv/dhcp/client/dhcpclient.cpp:257-262 | end to end: a request for the address the allocator grants its sender, old lease or new, leaves the client Bound with it and the server's mask and gateway |
| Protocol.RequestDenied | spurv/dhcp/client/dhcpclient.cpp:269-273 | end to end: any other request the server survives, from whomever and also when it is out of addresses, leaves the client in Init with no address |
| Protocol.ExecKeepsInv | spurv/dhcp/client/dhcpclient.cpp:235-281 | the invariant of the whole system over all runs |
| Protocol.SafeInAllRuns | spurv/dhcp/common/message.cpp:157-167 | with ids kept apart, in every run every nonzero interface address is the server's lease for that client, and clients with different keys never hold the same address |
| Protocol.Collision | spurv/dhcp/common/message.cpp:24 | with ids as they are, two clients on one link reach a state with the same address |
| Protocol.SafeIffUncontended | spurv/dhcp/common/message.cpp:250 | with ids as they are, all runs are safe if and only if the server can serve nobody or no two different MAC addresses share a served link |
| Protocol.ExclusiveIffUncontended | spurv/dhcp/common/message.cpp:250 | under the same condition, and no other, clients with different keys never hold the same address, if the range stays clear of the top of the address space |
| Protocol.GetsAddress | spurv/dhcp/client/dhcpclient.cpp:241-262 | from every initial state some run leaves any served client Bound with its own lease, if the range has an address to give |
| Composer.Find | spurv/hwcomposer/hwcomposer.cpp:101-106 | a buffer with the file descriptor, or none exactly if there is none |
| Composer.RunKeepsInv | spurv/hwcomposer/hwcomposer.cpp:322-446 | the invariant of all interleavings of single statements of the two threads |
| Composer.FencesAreConserved | spurv/hwcomposer/hwcomposer.cpp:391-409 | in every interleaving next_sync_point - 1 - timeline is the number of busy buffers, up to the statements in between |
| Composer.AlwaysOneIffSingle | spurv/hwcomposer/hwcomposer.cpp:379-397 | over all interleavings: no buffer ever has two outstanding fences if and only if no fence is made for a buffer whose release has reset busy and not advanced the timeline |
| Composer.TwoFences | spurv/hwcomposer/simple-dmabuf-drm.c:95-96 | a reachable state in which a buffer has two |
| Composer.OrderlyClosesOwn | spurv/hwcomposer/simple-dmabuf-drm.c:89-99 | without overlap each attachment's own fence is closed, once, in the order of the releases |
| Composer.OwnFencesIffOrderly | spurv/hwcomposer/simple-dmabuf-drm.c:89-99 | in every interleaving, whatever follows: all closes were of the attachment's own fence and every held buffer has its own, if and only if no fence was ever stored in a buffer whose release was under way |
| Composer.WrongFenceClosed | spurv/hwcomposer/simple-dmabuf-drm.c:95-98 | such an interleaving exists |
| Composer.ExactIffInOrder | spurv/hwcomposer/simple-dmabuf-drm.c:96 | at every point of a run a fence is signalled exactly if its attachment has been released, if and only if releases come in commit order |
| ComposerObject.ExecutesIsRun | spurv/hwcomposer/hwcomposer.cpp:325-446 | what the methods below execute is a run of the two threads |
| ComposerObject.HwComposer.GetDmabufBuffer | spurv/hwcomposer/hwcomposer.cpp:95-137 | the buffer with the file descriptor, a new one, a failure, or the failed assertion exactly if all buffers are taken |
| ComposerObject.HwComposer.SetLayer | spurv/hwcomposer/hwcomposer.cpp:337-445 | a release fence, and its buffer attached with it, if and only if the layer stands alone and its buffer is known and idle, or new with a known format, room for it among 1024 and a creation that succeeds; otherwise nothing changes; the acquire fence is closed |
| ComposerObject.HwComposer.HwcSet | spurv/hwcomposer/hwcomposer.cpp:325-446 | the same for every layer on the device the layers before it left; release fences rise; every acquire fence is closed exactly once, in order |
| ComposerObject.ClosesAll | spurv/hwcomposer/hwcomposer.cpp:343-346 | the list of closed fences has every acquire fence as often as the layers have, and nothing for layers without one |
| ComposerObject.HwComposer.BufferRelease | spurv/hwcomposer/simple-dmabuf-drm.c:89-99 | the five statements of a release, and the whole device after them |
| Vsync.SleepIsRight | spurv/hwcomposer/hwcomposer.cpp:200-207 | in the widths of the source the sleep is in (0, period] and ends a whole number of periods after the last vsync if and only if that distance fits in 32 bits; otherwise it is negative |
| Vsync.VsyncThread | spurv/hwcomposer/hwcomposer.cpp:209-264 | over any readings every sleep ends on the grid of the vsync then known, callbacks carry the clock, and the thread dies exactly at the first stale reading or signal |
| Vsync.StampsAre | spurv/hwcomposer/hwcomposer.cpp:253-259 | the callbacks belong to the readings at which they are wanted, each once and in order |
| Vsync.StaleAfter | spurv/hwcomposer/hwcomposer.cpp:791 | at 60 Hz that is after 257 periods, 4.28 seconds |

## Left out

- Sockets, ioctl, netlink and property calls: their outcomes are inputs; `property_set` for gateway and DNS names is not recorded.
- `receiveRawUdp`, `receiveFromInterface` and port filtering: a poll brings a message or none, and frames carry the port they are sent to.
- `Interface` and `Router` beyond the five settings of a client; lease expiry on the client, which the program does not track.
- Signals: the run loops are modelled between them; `stateToStr` and logging have no effect.
- The hash of `Lease`: keys are compared by interface and MAC address.
- Server restart: leases live in memory only.
- The retire fence, which `hwc_set` creates and closes in one call, and failures of `sw_sync_fence_create`.
- `next_sync_point` as a 32-bit number: it is unbounded here, so runs beyond 2^31 frames are not covered.
- Reuse of a dmabuf file descriptor for another buffer: a descriptor stands for one buffer.
- `hwc_prepare`, input, display and window code, the sub-surface branch (compiled out), gatekeeper, audio and scripts: no property of the kind proved here.
- Rounding of nanosecond times in double precision: times are integers.
- Protocol.SafeInAllRuns: covers clients of this program and this server; other senders on the link are not modelled.
- Vsync.VsyncThread: a last vsync in the future of the clock is not covered.
- ComposerObject.HwComposer.HwcSet: states a call without interleaving; interleavings are in Composer.
