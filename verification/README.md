# Verified models of strongSwan's protocol engines

This project models, in Dafny, the parts of strongSwan where bytes and state
meet a protocol invariant, and proves what those parts promise. Ciphers, MACs
and hashes are function-valued parameters: decryption undoes encryption, a
signature made is accepted, a hash is any function that may also fail. Clocks
and random sources are parameters too.

Most components come in two layers. Pure functions say what a component does;
theorems are about these. Classes and methods with the source's own fields,
buffers, cursors and loops are proved to compute those functions.

| file | models |
|---|---|
| `Bytes` | bytes, big-endian integers, memcpy, alignment |
| `TlsRecords`, `TlsStack` | TLS record stream: reassembly and serialisation |
| `TlsEap`, `TlsEapTransfer`, `TlsEapVerdict` | EAP-TLS/TTLS/PEAP fragmentation, whole transfers and verdicts |
| `SaLocking` | locking and removal protocol of the SA manager, any number of threads |
| `SaManager` | SPI reservation and the SA list |
| `IpsecSa` | SA counters, expiry and timers |
| `EspContext`, `EspPacket`, `IpPacket`, `IpBuild` | anti-replay window, ESP packets, reading and building IP packets |
| `PolicyManager` | policy priorities and the sorted policy list |
| `IpsecProcessor`, `EspRun` | inbound and outbound processing, and whole runs over a lossy network |
| `SimakaAttributes`, `SimakaMessage`, `SimakaRoundTrip`, `SimakaWire`, `SimakaCodec` | EAP-SIM/AKA messages |
| `RadiusCrypt`, `RadiusMessage`, `RadiusCodec` | RADIUS attribute cipher and messages |
| `TlsAead` | CBC record protection with implicit and explicit IV |
| `TlsCache` | TLS session cache |

Where the code does something else than its surroundings promise, the model
follows the code. An if-and-only-if says when the promise holds, and a lemma
gives an input for which it does not:

- A zero-length TLS record whose header is completed by a call with fewer than
  five bytes stays undelivered until the next call
  (`TlsRecords.HoldsRecordIffLags`, `TlsRecords.LagWitness`).
- An EAP-TLS message whose length, announced in 32 bits, is more than 73728 is
  refused at its first packet, and one that takes more packets than a message
  limit allows breaks off (`TlsEapTransfer.TransferDelivers`,
  `TlsEapTransfer.OverLimitRefused`, `TlsEapTransfer.LimitTooSmall`).
- AT_RES stores eight times its already byte-swapped length in 16 bits, so on a
  little-endian host lengths of 32 or more modulo 256 come back short
  (`SimakaAttributes.RecoveredIff`, `SimakaAttributes.LongResponseLost`).
- A password of more than 240 bytes is padded to more than an attribute holds,
  and cut to something that does not decrypt (`RadiusCodec.PasswordRecoveredIff`,
  `RadiusCodec.LongPasswordLost`).
- A notification sent after authentication gets no MAC and so never verifies
  (`SimakaRoundTrip.ParseGenerated`, `SimakaRoundTrip.LateNoticeRefused`).
- An IP packet whose stated length does not cover its header is sealed but does
  not open as a packet again (`IpPacket.ReparseIff`, `IpPacket.NoLengthWitness`,
  `EspPacket.RoundTripWitness`).
- An ESP packet without a payload opens as a parse error
  (`EspPacket.DummyIsParseError`).
- Lifetimes beyond 32 bits move the timed expiry (`IpsecSa.HardTimerAtLife`,
  `IpsecSa.LongLifeExpiresAtOnce`).
- An update can make two installed SAs indistinguishable
  (`SaManager.RewriteKeepsUniqueIff`, `SaManager.UpdateMayCollide`).
- Evicting a session id that was created twice removes the younger session from
  the table (`TlsCache.CreateAgreesIff`, `TlsCache.DoubledLosesSession`).
- Output left over from a refused call of the TLS stack is sent with four
  indeterminate bytes in place of four of its own
  (`TlsEapTransfer.FirstFragmentIffNoOutput`, `TlsEapVerdict.LeftoverPushedOut`).
- IPv6 packets built from data have version 0 and are never accepted
  (`IpBuild.Built6Refused`).

`allocate_spi` passes a literal where its matcher reads a flag through a
pointer (src/libipsec/ipsec_sa_mgr.c:387); the model uses the flag that is
meant, inbound.

## Model

| member | source | states |
|---|---|---|
| TlsRecords.SplitIndependence | src/libtls/tls.c:193-281 | However a byte stream is cut across calls, delivered records and held bytes re-serialise to the bytes received; the result is that of parsing the whole stream at once if and only if the last call did not lag, and a lag holds exactly one record, a complete one with no data |
| TlsRecords.HoldsRecordIffLags | src/libtls/tls.c:193-281 | The held bytes contain a complete record if and only if the last call had fewer than five bytes and completed the header of a zero-length record |
| TlsRecords.LagWitness | src/libtls/tls.c:193-281 | A concrete cut of an empty record that stays undelivered, and the uncut stream that does not |
| TlsRecords.FeedAllThenParse | src/libtls/tls.c:193-281 | Over any sequence of calls, what was delivered followed by parsing what is held is what parsing everything received gives |
| TlsRecords.ParseSound | src/libtls/tls.c:193-281 | Parsed records and rest re-serialise to the input, and the rest starts with no complete record |
| TlsRecords.ParseEncoded | src/libtls/tls.c:193-281 | Parsing serialised records followed by anything returns those records first |
| TlsRecords.ParseResumes | src/libtls/tls.c:193-281 | Parsing can be resumed at any cut of the input |
| TlsRecords.EncodeLayout | src/libtls/tls.c:302-306 | Content type, version and length of a record on the wire |
| TlsStack.Tls.Process | src/libtls/tls.c:193-281 | The three kinds of partial state (partial header, partial body, inline) deliver exactly the records of the stream specification, up to the first refusal, and hold exactly its rest |
| TlsStack.Tls.CompleteHeader | src/libtls/tls.c:200-215 | Completing a partial header conserves held and received bytes, and stops at five |
| TlsStack.Tls.Inline | src/libtls/tls.c:221-247 | Complete records in the caller's buffer are handed up in order; what is left starts with none |
| TlsStack.Tls.Buffer | src/libtls/tls.c:256-278 | Filling the record buffer delivers the record when it is complete and conserves the stream |
| TlsStack.Tls.DeliverInput | src/libtls/tls.c:263-278 | The record in the full buffer is handed up and the buffer freed |
| TlsStack.Tls.Take | src/libtls/tls.c:217-279 | One pass of the loop conserves the stream and comes closer to its end |
| TlsStack.Tls.Deliver | src/libtls/tls.c:233-240 | A record reaches the protection layer once, whose answer decides how to go on |
| TlsStack.Tls.Build | src/libtls/tls.c:283-344 | Serialises everything the upper layers offer and hands it out in pieces of at most the room given, with the total length on the first piece only |
| TlsStack.Tls.QueryUpper | src/libtls/tls.c:293-320 | Collects records until the upper layers stop, keeping what a refusal leaves behind |
| TlsStack.Tls.HandOut | src/libtls/tls.c:333-343 | Hands out the next bytes of the output and drops the buffer when it is used up |
| TlsStack.Tls.constructor | src/libtls/tls.c:444-503 | A new stack holds nothing and has sent nothing |
| TlsStack.CollectKeepsRefusals | src/libtls/tls.c:293-320 | Collecting leaves only what was already pending |
| TlsStack.HandUpAll | src/libtls/tls.c:221-247 | Upper layers that always want more get every record |
| TlsStack.HandUpStops | src/libtls/tls.c:221-247 | Handing up ends behind the first record not answered with NEED_MORE, with that answer |
| TlsStack.CollectAll | src/libtls/tls.c:293-320 | Upper layers that never refuse have all their records serialised in order |
| TlsStack.BuildRefused | src/libtls/tls.c:293-332 | Upper layers that refuse end the call with their answer, and what they had offered stays for the next call |
| TlsEapTransfer.TransferDelivers | src/libtls/tls_eap.c:161-409 | End-to-end identity for EAP-TLS, TTLS and PEAP, fragment sizes 10 to 65535 and every message: if the receiver takes the announced 32-bit length and both message limits allow for the packets needed, the records arrive in order in exactly that number of packets, none of which looks like an acknowledgement, and only an empty last record lags, exactly when the last packet carries fewer than five bytes; if the length is not taken nothing arrives, and if a limit is too small the exchange fails after delivering the front of the message |
| TlsEapTransfer.PumpDelivers | src/libtls/tls_eap.c:161-409 | From any point of a transfer on, running both endpoints against each other completes with everything delivered if and only if both message limits suffice for the packets left, and fails otherwise with the front of the message delivered; remaining output bytes are the measure |
| TlsEapTransfer.Round | src/libtls/tls_eap.c:331-409 | One fragment and its acknowledgement move the next bytes across and keep the transfer under way, or complete it |
| TlsEapTransfer.Opens | src/libtls/tls_eap.c:206-293 | The first packet puts a transfer under way, or is refused because of the length announced |
| TlsEapTransfer.AnnounceableIff | src/libtls/tls_eap.c:171-190 | Under 2^32 bytes the announced length is taken if and only if it is at most 73728 |
| TlsEapTransfer.OverLimitRefused | src/libtls/tls_eap.c:171-190 | A message of two records of 40000 bytes that is refused at its first packet |
| TlsEapTransfer.LimitTooSmall | src/libtls/tls_eap.c:337-343 | A message limit of one packet that breaks off a transfer of more |
| TlsEapTransfer.InFlightEnd | src/libtls/tls_eap.c:161-201 | The last payload of a message leaves nothing held, or exactly an empty last record of which fewer than five bytes came last |
| TlsEapTransfer.ReceiveTooMany | src/libtls/tls_eap.c:337-343 | A packet beyond the message limit fails and delivers nothing |
| TlsEapTransfer.FirstFragmentIffNoOutput | src/libtls/tls_eap.c:206-293 | Building a packet keeps "the next fragment is a first fragment exactly when no output is left" if and only if the upper layers did not refuse after offering records for the same message |
| TlsEapTransfer.FirstFragment | src/libtls/tls_eap.c:206-293 | The first packet of a message: how many bytes it carries, its flags and announced length, and what remains |
| TlsEapTransfer.MiddleFragment | src/libtls/tls_eap.c:206-293 | A later packet carries the next bytes without a length, is longer than an acknowledgement and fits the fragment size |
| TlsEapTransfer.ReceiveFragment | src/libtls/tls_eap.c:161-201 | A data packet feeds exactly its payload to the stack of a listening endpoint, which answers with an acknowledgement |
| TlsEapTransfer.ReceiveStart | src/libtls/tls_eap.c:122-156 | The server's start packet makes the peer open its flight, under the server's identifier |
| TlsEapTransfer.ReceiveRejected | src/libtls/tls_eap.c:161-201 | A packet with a bad version or length fails and delivers nothing |
| TlsEapVerdict.DataVerdict | src/libtls/tls_eap.c:381-409 | Any packet with payload: its records are handed up first; if more is wanted there is an answer, on a success reported the method succeeds if and only if TLS is complete and fails otherwise, and any other report is final |
| TlsEapVerdict.AckVerdict | src/libtls/tls_eap.c:370-380 | An acknowledgement gets the next fragment; without output the method succeeds if and only if TLS is complete |
| TlsEapVerdict.StartVerdict | src/libtls/tls_eap.c:358-409 | A start packet opens the flight of whoever gets it |
| TlsEapVerdict.RespondAnswers | src/libtls/tls_eap.c:393-409 | An answer is the next fragment, or an acknowledgement, which also hides a failure of a peer; other answers are final |
| TlsEapVerdict.PacketOnWire | src/libtls/tls_eap.c:206-328 | Code, identifier, length, type and flags of every packet sent |
| TlsEapVerdict.EveryPacketCounts | src/libtls/tls_eap.c:331-350 | Every packet counts against the limit; beyond it or without a right header it fails and changes nothing else |
| TlsEapVerdict.PayloadTaken | src/libtls/tls_eap.c:161-201 | Exactly which versions, flags and announced lengths let a payload in, and where it starts |
| TlsEapVerdict.StartOnWire | src/libtls/tls_eap.c:122-156 | The six bytes a server starts with |
| TlsEapVerdict.LeftoverPushedOut | src/libtls/tls_eap.c:206-293 | Output left over from a refusal goes out behind four bytes the buffer happened to hold, which push out as many of its own |
| TlsEap.Endpoint.Initiate | src/libtls/tls_eap.c:122-156 | Only a server starts an exchange, with a start packet under its current identifier |
| TlsEap.Endpoint.BuildPacket | src/libtls/tls_eap.c:206-293 | The packet buffer, with its reserved length field filled, closed up or left as it is, ends up as the packet specified, and the endpoint in the state specified |
| TlsEap.Endpoint.Mark | src/libtls/tls_eap.c:237-270 | Which flags a fragment gets, and whether the next one starts a message |
| TlsEap.Endpoint.Assemble | src/libtls/tls_eap.c:271-292 | Data behind the reserved length field ends up as the packet specified |
| TlsEap.Endpoint.Seal | src/libtls/tls_eap.c:286-288 | Header in front of the body, with the packet length |
| TlsEap.Endpoint.PlaceLength | src/libtls/tls_eap.c:271-285 | Filling the reserved length field, moving the data over it, or leaving it gives the specified packet body in place |
| TlsEap.Endpoint.ProcessPacket | src/libtls/tls_eap.c:161-201 | Version and length checks, and what the stack does with the payload |
| TlsEap.Endpoint.Acknowledge | src/libtls/tls_eap.c:298-329 | An acknowledgement is a packet without data, under the next identifier of a server |
| TlsEap.Endpoint.Process | src/libtls/tls_eap.c:331-409 | Message limit, header checks, identifier, and the choice between starting, continuing and consuming |
| TlsEap.Endpoint.Answer | src/libtls/tls_eap.c:393-408 | A start packet or a processed one is answered with output, or with an acknowledgement if there is none |
| TlsEap.Endpoint.Continue | src/libtls/tls_eap.c:371-381 | An acknowledgement is answered with the next fragment, or ends the exchange if TLS is complete |
| TlsEap.Endpoint.Consume | src/libtls/tls_eap.c:382-408 | What follows from processing the data of a packet |
| TlsEap.Endpoint.constructor | src/libtls/tls_eap.c:445-502 | A new endpoint starts with a first fragment and a count of zero |
| TlsEap.BuildSomeBounds | src/libtls/tls_eap.c:224-235 | Pieces fit the room asked for, and more follow exactly while output is left |
| SaLocking.LockingSafety | src/libipsec/ipsec_sa_mgr.c:160-225 | In every interleaving of checkout, checkin, update, query, delete, flush and expiry over any number of threads and entries: one holder per entry, locked exactly while held, the waiting count is the number of waiting threads, held and awaited entries are listed, nobody is concerned with a destroyed entry, and none is destroyed twice |
| SaLocking.DestroyedOnlyWhenFree | src/libipsec/ipsec_sa_mgr.c:146-225 | The step that destroys an entry finds nobody holding or waiting for it and leaves nobody concerned with it |
| SaLocking.WakeupNeverLost | src/libipsec/ipsec_sa_mgr.c:160-202 | In every reachable state where a remover is blocked on an unlocked entry, some already woken waiter on that entry can run |
| SaLocking.NobodyStranded | src/libipsec/ipsec_sa_mgr.c:160-202 | In every reachable state where any thread sleeps on an unlocked entry, waiter or remover, some thread woken on that entry can run |
| SaLocking.DeparturesBounded | src/libipsec/ipsec_sa_mgr.c:160-202 | Over every run, once an entry awaits deletion at most as many waiters and holders leave it as were there, until it is destroyed for good |
| SaLocking.RemoverTurn | src/libipsec/ipsec_sa_mgr.c:160-179 | Once everybody has left, the remover is awake and can go on |
| SaLocking.RankNeverGrows | src/libipsec/ipsec_sa_mgr.c:160-202 | No step moves the removal of an entry further away, and every waiter that resumes and every checkin brings it closer |
| SaLocking.HelpfulStep | src/libipsec/ipsec_sa_mgr.c:160-202 | Whenever an entry awaits deletion some enabled step brings its destruction strictly closer |
| SaLocking.RemovalReachable | src/libipsec/ipsec_sa_mgr.c:160-225 | From every reachable state an entry awaiting deletion can be destroyed within a bounded number of steps |
| SaLocking.AskingGets | src/libipsec/ipsec_sa_mgr.c:180-202 | In every reachable state a thread that asks for an entry gets the lock if it is free, a place among the waiters while it is locked, and nothing once it awaits deletion; counter, flag and place of the thread are exact |
| SaLocking.CheckoutReachable | src/libipsec/ipsec_sa_mgr.c:180-202 | From every reachable state a thread waiting to check out an entry not awaiting deletion comes to hold it within three enabled steps, none of them a spurious wake-up |
| SaLocking.CheckinFrees | src/libipsec/ipsec_sa_mgr.c:618-634 | Giving an entry back unlocks it, wakes whom the signal reaches and changes nobody else |
| SaLocking.RemovalBegins | src/libipsec/ipsec_sa_mgr.c:160-179 | A removal marks the entry and waits for the lock or wakes the waiters, takes it out at once if it is free, and does nothing if another is under way |
| SaLocking.RemovalGoesOn | src/libipsec/ipsec_sa_mgr.c:160-179 | A remover that goes on waits for the lock first, then wakes the waiters and waits for them, and then takes the entry out |
| SaLocking.MayAlwaysAct | src/libipsec/ipsec_sa_mgr.c:551-634 | Idle threads may ask for or remove any listed entry, woken ones may go on, and holders may give back |
| SaLocking.AddLists | src/libipsec/ipsec_sa_mgr.c:437-489 | A new entry is listed, free and concerns nobody |
| SaLocking.WakesAndFlushes | src/libipsec/ipsec_sa_mgr.c:204-225 | Any sleeper may wake up spuriously, and any idle thread may flush |
| SaLocking.RunKeeps | src/libipsec/ipsec_sa_mgr.c:160-225 | The protocol invariant holds after every run |
| SaLocking.StepKeeps | src/libipsec/ipsec_sa_mgr.c:160-225 | Every enabled step keeps the protocol invariant |
| SaLocking.InitialInv | src/libipsec/ipsec_sa_mgr.c:665-689 | The protocol invariant holds of an empty manager |
| SaLocking.CountsAndLock | src/libipsec/ipsec_sa_mgr.c:160-202 | The waiting count and the lock flag say what the threads are doing |
| SaManager.RunKeepsSpis | src/libipsec/ipsec_sa_mgr.c:381-489 | In every run in which inbound SAs are added with update set and a reserved SPI, reserved and installed inbound SPIs stay disjoint, duplicate-free and at least 256 in host order |
| SaManager.AddKeepsSpisIff | src/libipsec/ipsec_sa_mgr.c:437-489 | An inbound addition keeps that if and only if it is refused, or its SPI is legal, not installed inbound, and either not reserved or given up by update |
| SaManager.StepKeepsSpis | src/libipsec/ipsec_sa_mgr.c:381-583 | Every disciplined step keeps the SPIs apart |
| SaManager.RunKeepsUnique | src/libipsec/ipsec_sa_mgr.c:437-489 | In every run without updates no two installed SAs share SPI, source and destination |
| SaManager.RewriteKeepsUniqueIff | src/libipsec/ipsec_sa_mgr.c:491-527 | An update keeps installed SAs distinguishable if and only if no other SA with the SPI has the new addresses |
| SaManager.UpdateMayCollide | src/libipsec/ipsec_sa_mgr.c:491-527 | An update that makes two installed SAs indistinguishable |
| SaManager.ReservationHolds | src/libipsec/ipsec_sa_mgr.c:381-435 | A reserved SPI stays reserved, and is handed to nobody else, through any run that does not install it |
| SaManager.NeverHandedOutTwice | src/libipsec/ipsec_sa_mgr.c:397-435 | An SPI handed out is handed out to nobody else until it is installed, whatever happens in between |
| SaManager.AddInstalls | src/libipsec/ipsec_sa_mgr.c:437-489 | An addition gives up its reservation and stands in front unless SPI and both addresses are installed |
| SaManager.OneChanges | src/libipsec/ipsec_sa_mgr.c:491-583 | A removal takes one entry out, and a rewrite changes the addresses of one |
| SaManager.CandidateIs | src/libipsec/ipsec_sa_mgr.c:397-435 | A candidate is the draw with the bit of value 256 set, in network byte order |
| SaManager.CandidateLegal | src/libipsec/ipsec_sa_mgr.c:415-428 | Every SPI tried is at least 256 in host order |
| SaManager.HtonlTwice | src/libipsec/ipsec_sa_mgr.c:425-426 | The byte order conversion is its own inverse |
| SaManager.HtonlBytes | src/libipsec/ipsec_sa_mgr.c:397-435 | The swap reverses the four bytes |
| SaManager.FirstFree | src/libipsec/ipsec_sa_mgr.c:415-428 | The SPI found is free and the candidate of the first draw whose candidate is; none is found only if no draw's candidate is free |
| SaManager.Manager.AllocateSpi | src/libipsec/ipsec_sa_mgr.c:381-395 | An SPI is reserved if and only if it is neither reserved nor installed inbound |
| SaManager.Manager.FindFirst | src/libipsec/ipsec_sa_mgr.c:247-251 | The first entry that matches SPI, source and destination |
| SaManager.Manager.constructor | src/libipsec/ipsec_sa_mgr.c:665-689 | A new manager has no SAs and no reservations |
| SaManager.StepKeepsUnique | src/libipsec/ipsec_sa_mgr.c:437-583 | Every step but an update keeps installed SAs distinguishable |
| SaManager.Manager.Reserve | src/libipsec/ipsec_sa_mgr.c:397-435 | Returns the first free candidate of the random draws and reserves it, keeping all SPIs apart |
| SaManager.Manager.AddSa | src/libipsec/ipsec_sa_mgr.c:437-489 | Installs in front unless already installed; update gives up the reservation even then |
| SaManager.Manager.UpdateSa | src/libipsec/ipsec_sa_mgr.c:491-527 | Rewrites the addresses of the first match only, and only if it was granted |
| SaManager.Manager.DelSa | src/libipsec/ipsec_sa_mgr.c:551-583 | Removes the first match only; afterwards no match is left if entries were unique |
| IpsecSa.LifetimeOfRun | src/libipsec/ipsec_sa.c:189-239 | In every interleaving of packets and timers an SA emits at most one soft and one hard event, never soft after hard; its counters are the packet count and byte sum in 64 bits; hard expiry lasts |
| IpsecSa.HardExpiryOfRun | src/libipsec/ipsec_sa.c:189-239 | Over every run whose counts fit 64 bits an SA is hard expired at the end if and only if a hard timer fired or a packet or byte limit was reached |
| IpsecSa.SoftExpiryOfRun | src/libipsec/ipsec_sa.c:189-238 | Over every run: a soft expiry comes exactly from a soft timer, or a packet that reaches a soft limit and no hard one, before any hard expiry |
| IpsecSa.SearchesOfRun | src/libipsec/ipsec_sa.c:189-260 | After any run that reached a hard limit or a hard timer, and whatever follows, neither search of the data path finds the SA again; until then both find it under its own values |
| IpsecSa.Sa.Expire | src/libipsec/ipsec_sa.c:189-210 | One event per kind, none soft after hard |
| IpsecSa.Sa.constructor | src/libipsec/ipsec_sa.c:274-347 | A new SA is unused and not expired |
| IpsecSa.Sa.UpdateUsestats | src/libipsec/ipsec_sa.c:212-239 | Counts the packet and raises the expiry it causes, in the order of the limits |
| IpsecSa.HardTimerAtLife | src/libipsec/ipsec_sa_mgr.c:294-357 | The timed hard expiry falls at the lifetime, with or without a rekey stage, if and only if the limits fit the 32-bit timer fields |
| IpsecSa.LongLifeExpiresAtOnce | src/libipsec/ipsec_sa_mgr.c:294-357 | A lifetime of 2^32 seconds whose timer fires at once |
| EspContext.Context.VerifySeqno | src/libipsec/esp_context.c:115-145 | Exactly the numbers above the highest accepted one, and the unseen non-zero ones less than 128 behind it, are acceptable |
| EspContext.Context.SetAuthenticatedSeqno | src/libipsec/esp_context.c:147-174 | The ring bitmap goes on representing the set of accepted numbers, now with the new one |
| EspContext.Context.CheckWindow | src/libipsec/esp_context.c:106-113 | The bit at the wrapped 32-bit offset says whether a number of the window was accepted |
| EspContext.Context.ShiftWindow | src/libipsec/esp_context.c:159-165 | Moves the newest position and clears exactly the slots passed |
| EspContext.Context.SetWindowBit | src/libipsec/esp_context.c:78-91 | Sets or clears one bit of the ring and no other |
| EspContext.Context.NextSeqno | src/libipsec/esp_context.c:182-191 | Numbers increase by one and stop before wrapping |
| EspContext.Context.constructor | src/libipsec/esp_context.c:307-348 | A new context has accepted and used no number, and an empty window if it is inbound |
| EspContext.WrapSubSlot | src/libipsec/esp_context.c:169-173 | The wrapped offset of a number inside the window is its slot in the ring |
| EspContext.BitOfUpdate | src/libipsec/esp_context.c:78-101 | Setting or clearing a bit of a byte changes that bit of the window only |
| EspContext.WrapSubModWindow | src/libipsec/esp_context.c:106-113 | Unsigned 32-bit subtraction modulo the window is modular subtraction, because 128 divides the word size |
| EspContext.ShiftRepresents | src/libipsec/esp_context.c:157-167 | Shifting to a new highest number makes the bitmap represent the enlarged set |
| EspContext.MarkRepresents | src/libipsec/esp_context.c:169-173 | Marking a number inside the window makes the bitmap represent the enlarged set |
| EspPacket.RoundTrip | src/libipsec/esp_packet.c:210-369 | For block size 1 or a multiple of 4 up to 252, decrypting what was encrypted returns the same IP packet, next header and number if and only if the packet's stated length covers its header; otherwise it is a parse error |
| EspPacket.RoundTripWitness | src/libipsec/esp_packet.c:210-369 | A cipher and two packets: the one stating its length returns, the one stating length 0 is a parse error |
| EspPacket.PadTotalFits | src/libipsec/esp_packet.c:312-316 | The pad length fits one byte and the ciphertext is a whole number of blocks |
| EspPacket.CheckValueAligned | src/libipsec/esp_packet.c:312-316 | The integrity check value is 4-byte aligned for every cipher |
| EspPacket.UnpadPlaintext | src/libipsec/esp_packet.c:170-208 | Removing the trailer undoes adding it, down to reading the payload as an IP packet again |
| EspPacket.SplitSealed | src/libipsec/esp_packet.c:210-264 | A sealed packet splits into the SPI, number, IV and body it was made of and opens to its plaintext |
| EspPacket.SealedLayout | src/libipsec/esp_packet.c:279-369 | SPI, number and IV of a packet sent, and payload with padding 1, 2, 3, its length and the next header sealed together with the first eight bytes |
| EspPacket.UnpadSound | src/libipsec/esp_packet.c:153-208 | A payload is taken if and only if a whole trailer stands behind it and it is an IP packet |
| EspPacket.OutcomeCases | src/libipsec/esp_packet.c:210-264 | The verdict on any bytes, check by check: length, number, seal, trailer |
| EspPacket.OtherHeaderRefused | src/libipsec/esp_packet.c:210-264 | Under a cipher that binds its associated data, a packet whose SPI or number was changed opens for nobody and marks nothing |
| EspPacket.DummyIsParseError | src/libipsec/esp_packet.c:170-208 | A packet without a payload is sealed but opens as a parse error |
| EspPacket.Packet.Encrypt | src/libipsec/esp_packet.c:279-369 | Uses up the next number, fails without a number, IV or seal, and otherwise leaves the sealed packet |
| EspPacket.Packet.Decrypt | src/libipsec/esp_packet.c:210-264 | Status, payload and the numbers marked are those specified; a number is only marked once the seal held |
| EspPacket.Packet.RemovePadding | src/libipsec/esp_packet.c:170-208 | Payload and next header are set exactly when padding and payload are well-formed |
| EspPacket.GeneratePadding | src/libipsec/esp_packet.c:269-277 | Fills in place with 1, 2, 3 and so on |
| EspPacket.CheckPadding | src/libipsec/esp_packet.c:153-165 | Accepts exactly that padding |
| EspPacket.Packet.ParseHeader | src/libipsec/esp_packet.c:129-148 | The SPI of a packet long enough for a header |
| EspPacket.Packet.FromPacket | src/libipsec/esp_packet.c:439-446 | A received packet has no payload yet |
| EspPacket.Packet.FromPayload | src/libipsec/esp_packet.c:451-470 | An outgoing packet announces its inner IP version, or no next header without a payload |
| IpPacket.ReparseIff | src/libipsec/ip_packet.c:196-294 | The trimmed packet reads back as itself if and only if the stated length covers the header |
| IpPacket.ReadsIpv4 | src/libipsec/ip_packet.c:196-238 | Hosts, protocol and payload of any IPv4 header with options, whatever follows the stated length |
| IpPacket.ReadsIpv6 | src/libipsec/ip_packet.c:239-290 | The same for IPv6 |
| IpPacket.NoLengthWitness | src/libipsec/ip_packet.c:196-294 | A header stating length 0 that is accepted and does not read back |
| IpBuild.CreateBuilt | src/libipsec/ip_packet.c:409-462 | An IPv4 packet built from hosts, protocol and data reads back with exactly those, whole, unless its transport header is cut short; a port of 0 stands for the one in the data |
| IpBuild.HeaderBytes | src/libipsec/ip_packet.c:409-456 | Every byte of the headers written |
| IpBuild.HeaderChecksum | src/libipsec/ip_packet.c:424-437 | The header checksum covers the header with the field zero |
| IpBuild.ChecksumPlace | src/libipsec/ip_packet.c:347-404 | Where the transport checksum is, and that it covers the payload with the field zero |
| IpBuild.WholeIffFits | src/libipsec/ip_packet.c:424-439 | A packet built reads back whole if and only if its length fits the 16-bit length field |
| IpBuild.FixedPorts | src/libipsec/ip_packet.c:347-404 | The ports filled in are the ports read; without a whole transport header nothing is read |
| IpBuild.FixedKeepsData | src/libipsec/ip_packet.c:347-404 | Apart from ports and checksum the payload is the data |
| IpBuild.FixTransportHeader | src/libipsec/ip_packet.c:347-404 | Patches ports and checksum in place behind the header and touches nothing else; the checksum is computed with its field zero |
| IpBuild.CreateFromData | src/libipsec/ip_packet.c:409-462 | Hosts of different families and IPv6 hosts give no packet; for IPv4 header, data and patched transport header make the packet specified |
| IpBuild.Built6Refused | src/libipsec/ip_packet.c:441-456 | No IPv6 packet that is built is accepted, since its version field is 0 |
| IpBuild.Patched | src/libipsec/ip_packet.c:436-438 | Header and data in one buffer with the transport header patched in place |
| PolicyManager.PriorityBands | src/libipsec/ipsec_policy_mgr.c:73-113 | The four classes occupy disjoint ranges in the order pass, default, routed, fallback whatever the selectors |
| PolicyManager.PriorityWithinClass | src/libipsec/ipsec_policy_mgr.c:73-113 | Within a class priorities order lexicographically by summed prefix length, port presence, protocol presence, both directions |
| PolicyManager.PriorityExact | src/libipsec/ipsec_policy_mgr.c:73-113 | The 32-bit arithmetic never wraps for masks up to 128 |
| PolicyManager.AddThenDelete | src/libipsec/ipsec_policy_mgr.c:140-217 | Adding and deleting the same policy restores the list exactly |
| PolicyManager.AddedOrdered | src/libipsec/ipsec_policy_mgr.c:140-175 | Insertion keeps the list sorted, newest first among equals |
| PolicyManager.InsertPosition | src/libipsec/ipsec_policy_mgr.c:163-171 | In front of the first entry that is not of smaller value |
| PolicyManager.Manager.constructor | src/libipsec/ipsec_policy_mgr.c:277-294 | A new database has no policies |
| PolicyManager.NotAfterIsNumeric | src/libipsec/ipsec_policy.c:104-114 | Comparing addresses byte by byte compares them as numbers |
| PolicyManager.RemovedOrdered | src/libipsec/ipsec_policy_mgr.c:177-217 | Removal keeps the list sorted |
| PolicyManager.Manager.AddPolicy | src/libipsec/ipsec_policy_mgr.c:140-175 | Inserts in front of the first entry that is not smaller; ignores other kinds and forwarding |
| PolicyManager.Manager.DelPolicy | src/libipsec/ipsec_policy_mgr.c:177-217 | Removes the first equal entry and no other, the rest keeping their order and age, or reports that there is none |
| PolicyManager.Manager.FlushPolicies | src/libipsec/ipsec_policy_mgr.c:219-234 | Leaves no policy |
| PolicyManager.Manager.FindByPacket | src/libipsec/ipsec_policy_mgr.c:236-263 | Returns a policy of minimum priority among all that apply, ties going to the most recently added; none if and only if none applies |
| PolicyManager.BestIsUnranked | src/libipsec/ipsec_policy_mgr.c:236-263 | No policy that covers the packet is of a better class, has longer prefixes, or as long ones and a port or protocol where the one found has none |
| PolicyManager.AppliesIff | src/libipsec/ipsec_policy.c:104-114 | In fields: source and destination selector cover source and destination of the packet, and protocol, direction and request id agree |
| PolicyManager.IncludesIff | src/libipsec/ipsec_policy.c:104-114 | A selector covers exactly the hosts of its family whose address, as a number, lies between its ends |
| EspRun.Run | src/libipsec/ipsec_processor.c:91-234 | Over every schedule of a network that drops, duplicates and reorders: no SA emits a number twice, every delivery is a genuine copy of a packet sent with an inbound policy for the SA's request id behind it, no SA delivers a packet twice and, where inbound SPIs are distinct, no packet is delivered twice at all. Where outbound SPIs are distinct and nothing was marked before, every packet that arrived at an SA of its own has been delivered at the end, unless that SA expired, the packet is behind the window, its stated length does not cover its header, or policy or callback is missing. Every SA checked out is checked in again |
| EspRun.Reach | src/libipsec/ipsec_processor.c:91-164 | A packet that reaches the receiver is marked exactly where it is acceptable, by the SA it is for and no other, and delivered if it can be |
| EspRun.MarkOfArrival | src/libipsec/esp_packet.c:210-264 | A packet sent is marked by a counterpart exactly if its number is acceptable there, and opens to the packet offered if its encoding has at least a header |
| EspRun.ArrivalKeeps | src/libipsec/ipsec_processor.c:91-164 | Whatever an SA has marked was sent under its SPI, and was delivered if it could be, after every arrival |
| EspRun.OfferKeeps | src/libipsec/ipsec_processor.c:166-234 | A packet newly sent has a number no counterpart has marked |
| EspRun.OneNumberOnePacket | src/libipsec/ipsec_processor.c:166-234 | Where outbound SPIs are distinct, SPI and number determine the packet |
| EspRun.SoleIsTarget | src/libipsec/ipsec_sa_mgr.c:602-617 | An inbound SA alone at its SPI and destination is found until it expires |
| EspRun.SameBytesSameSa | src/libipsec/ipsec_processor.c:99-122 | Where inbound SPIs are distinct the bytes of a packet determine the SA it is delivered through |
| EspRun.DeliveredIsSent | src/libipsec/ipsec_processor.c:91-164 | Bytes sealed under one SA and delivered under its counterpart carry the same number, packet and next header |
| EspRun.Conclude | src/libipsec/ipsec_processor.c:91-234 | What the two logs of a run say together |
| IpsecProcessor.Processor.ProcessInbound | src/libipsec/ipsec_processor.c:91-164 | A received packet is delivered if and only if its SA opens it, a policy lets it in and a callback is registered; that SA and no other counts it, if it opens, and marks its number, if the seal holds; nothing stays checked out |
| IpsecProcessor.Processor.OpenAndDeliver | src/libipsec/ipsec_processor.c:124-162 | Once an inbound SA is checked out it is checked in on every path |
| IpsecProcessor.Processor.Open | src/libipsec/ipsec_processor.c:124-131 | Opening concerns one SA only, which counts the packet; a number opened was never delivered before |
| IpsecProcessor.Processor.Unseal | src/libipsec/esp_packet.c:210-264 | Decryption marks the number in the one SA and keeps every log and every other SA as they were |
| IpsecProcessor.Processor.Count | src/libipsec/ipsec_sa.c:212-241 | One SA counts a packet, and the others do not |
| IpsecProcessor.Processor.CheckoutTarget | src/libipsec/ipsec_processor.c:99-122 | Checks out the first matching SA, and puts it back if it is not inbound |
| IpsecProcessor.Processor.DeliverInbound | src/libipsec/ipsec_processor.c:135-162 | Delivers tunnelled packets that an inbound policy for the request id covers, and no others |
| IpsecProcessor.Processor.ProcessOutbound | src/libipsec/ipsec_processor.c:188-234 | A packet leaves through the first outbound SA of the request id of its best policy, under the SA's newest number, if and only if it can be sealed and a callback is registered; the SA counts it if it was sealed; nothing stays checked out; a packet sent leaves under an outbound SA that has not expired and whose request id is that of the policy |
| IpsecProcessor.Processor.SealAndSend | src/libipsec/ipsec_processor.c:217-233 | Once an outbound SA is checked out it is checked in on every path |
| IpsecProcessor.Processor.Seal | src/libipsec/ipsec_processor.c:219-229 | Sealing uses a number no packet of the SA was sent under |
| IpsecProcessor.Processor.SendOutbound | src/libipsec/ipsec_processor.c:169-183 | A sealed packet is handed over once, if anyone listens |
| IpsecProcessor.Processor.CheckoutBySpi | src/libipsec/ipsec_sa_mgr.c:602-617 | Checks out the first SA that matches SPI and destination |
| IpsecProcessor.Processor.CheckoutByReqid | src/libipsec/ipsec_sa_mgr.c:585-600 | Checks out the first SA that matches request id and direction |
| IpsecProcessor.Processor.Checkin | src/libipsec/ipsec_sa_mgr.c:619-635 | Gives one SA back |
| IpsecProcessor.Processor.constructor | src/libipsec/ipsec_processor.c:302-328 | A new processor has delivered and sent nothing and has nothing checked out |
| IpsecProcessor.Processor.RegisterInbound | src/libipsec/ipsec_processor.c:248-255 | A callback replaces the one before it |
| IpsecProcessor.Processor.UnregisterInbound | src/libipsec/ipsec_processor.c:257-266 | Only the callback registered can be taken back |
| IpsecProcessor.Processor.RegisterOutbound | src/libipsec/ipsec_processor.c:268-275 | A callback replaces the one before it |
| IpsecProcessor.Processor.UnregisterOutbound | src/libipsec/ipsec_processor.c:277-286 | Only the callback registered can be taken back |
| IpsecProcessor.Processor.FirstBySpi | src/libipsec/ipsec_sa_mgr.c:602-617 | The SA found has the SPI and destination and has not expired; none is found only if every such SA has expired |
| IpsecProcessor.Processor.FirstByReqid | src/libipsec/ipsec_sa_mgr.c:585-600 | The SA found has the request id, the direction and has not expired; none is found only if every such SA has expired |
| IpsecProcessor.Processor.FirstOfReqid | src/libipsec/ipsec_sa.c:255-260 | The first SA with the request id and direction that has not expired is found |
| IpsecProcessor.Processor.FirstOfSpi | src/libipsec/ipsec_sa.c:241-246 | The first SA with the SPI and destination that has not expired is found |
| IpsecProcessor.Processor.LetInIff | src/libipsec/ipsec_processor.c:91-164 | In fields: a tunnelled packet and an inbound policy of the request id whose selectors cover both its ends |
| IpsecProcessor.Processor.Target | src/libipsec/ipsec_processor.c:99-122 | The inbound SA a packet is for carries the packet's SPI |
| IpsecProcessor.OutcomeOpened | src/libipsec/esp_packet.c:210-264 | A successful decryption marks the number it opened, which was not accepted before |
| EspRun.SpiOnWire | src/libipsec/ipsec_processor.c:219-222 | The SPI on the wire is the sending SA's |
| EspRun.SenderStep | src/libipsec/ipsec_processor.c:188-234 | Sending keeps what a run guarantees |
| EspRun.ReceiverStep | src/libipsec/ipsec_processor.c:91-164 | Receiving keeps what a run guarantees |
| SimakaRoundTrip.ParseGenerated | src/libsimaka/simaka_message.c:302-843 | Parsing a generated message returns the attributes it has rules for, clear ones in order before encrypted ones, without padding, IV and MAC; verification with the same data accepts it if and only if the subtype needs no MAC or gets one, which a notification after authentication does not |
| SimakaWire.GoesWhere | src/libsimaka/simaka_message.c:625-654 | Kind by kind: the five secret kinds and notifications without the P bit go into the encrypted part and into no other, and every other kind with a rule goes into the clear |
| SimakaWire.SecretInClearFails | src/libsimaka/simaka_message.c:302-531 | Parsing any bytes with one of the five secret kinds in the clear fails |
| SimakaWire.ReadAllIs | src/libsimaka/simaka_message.c:302-483 | Reading any input goes through if and only if every attribute can be read and no notification in the clear follows one without the P bit; then it has kept the ordinary attributes, the last IV and the last encrypted data |
| SimakaWire.ReadOneCases | src/libsimaka/simaka_message.c:302-450 | Kind by kind: which lengths an attribute may have and where its value is |
| SimakaWire.ParsedIff | src/libsimaka/simaka_message.c:485-531 | Parsing goes through if and only if the clear part does and the encrypted part, if there is one and keys for it, is whole blocks, decrypts and is read |
| SimakaWire.FrontLayout | src/libsimaka/simaka_message.c:625-798 | Clear attributes one after the other, then AT_IV and AT_ENCR_DATA around the others, padded and encrypted |
| SimakaWire.GeneratedLayout | src/libsimaka/simaka_message.c:604-843 | Header, length and, for challenges and reauthentications, an AT_MAC that signs the message with its value zero and the data of the caller |
| SimakaWire.ZerosWritten | src/libsimaka/simaka_message.c:653-740 | Reserved bytes and filling are zero, and the length byte is right |
| SimakaRoundTrip.LateNoticeRefused | src/libsimaka/simaka_message.c:533-602 | A notification after authentication that is generated, parsed and refused by verification |
| SimakaRoundTrip.VerifiedIff | src/libsimaka/simaka_message.c:514-602 | Any received bytes that parse pass if and only if their subtype needs no MAC, or the last AT_MAC read in the clear lies inside the message and is right for the message with its value zeroed, in a challenge, reauthentication or notification |
| SimakaRoundTrip.ReadingRemembers | src/libsimaka/simaka_message.c:302-483 | Reading remembers the place of the last AT_MAC it comes to, and nothing else as one |
| SimakaRoundTrip.HiddenMacGone | src/libsimaka/simaka_message.c:302-512 | Decrypted attributes leave the place of the MAC alone or make it unusable |
| SimakaRoundTrip.ParseInTwoSteps | src/libsimaka/simaka_message.c:514-531 | Parsing before the keys are there and again afterwards finds the same as parsing once with keys |
| SimakaRoundTrip.NothingLost | src/libsimaka/simaka_message.c:625-742 | Telling clear and encrypted attributes apart loses and doubles none that has a rule |
| SimakaRoundTrip.RecoveredAllIff | src/libsimaka/simaka_message.c:689-703 | All values come back unaltered if and only if no AT_RES has a length of 32 or more modulo 256 |
| SimakaRoundTrip.ReadMany | src/libsimaka/simaka_message.c:302-480 | Attributes written one after the other are read back in order, and the phase bit remembers notifications after authentication |
| SimakaRoundTrip.ReadPlain | src/libsimaka/simaka_message.c:485-512 | Reading the padded plaintext returns the encrypted attributes and drops the padding |
| SimakaAttributes.ReadBack | src/libsimaka/simaka_message.c:302-440 | Every attribute shape written is read back, with exactly the bytes it took, whatever follows |
| SimakaAttributes.RecoveredIff | src/libsimaka/simaka_message.c:689-703 | One attribute comes back unaltered if and only if it is no AT_RES of a length of 32 or more modulo 256; what comes back is a prefix |
| SimakaAttributes.CountBack | src/libsimaka/simaka_message.c:689-703 | The length field read back: exact, except that AT_RES loses multiples of 32 below 256 |
| SimakaAttributes.LongResponseLost | src/libsimaka/simaka_message.c:689-703 | A 32 byte AT_RES comes back empty |
| SimakaCodec.Transmit | src/libsimaka/simaka_message.c:302-843 | Generating on one side, creating, parsing and verifying on the other, through the buffers and in place |
| SimakaCodec.Message.Generate | src/libsimaka/simaka_message.c:604-843 | Filling the two buffers, padding, encrypting, appending and signing in place yields the message specified |
| SimakaCodec.EncodeAttributes | src/libsimaka/simaka_message.c:618-742 | Two cursors fill the clear and the encrypted buffer with exactly the attributes that belong there, in order |
| SimakaCodec.Emit | src/libsimaka/simaka_message.c:652-740 | One attribute at a cursor; a kind without a rule leaves the cursor where it is |
| SimakaCodec.EmitTo | src/libsimaka/simaka_message.c:629-650 | Each attribute goes to the encrypted or to the clear buffer, as it must |
| SimakaCodec.Value | src/libsimaka/simaka_message.c:655-740 | The length byte and what follows, shape by shape |
| SimakaCodec.CountValue | src/libsimaka/simaka_message.c:680-705 | Length field, data and zeros of a counted attribute, with its length byte |
| SimakaCodec.Pad | src/libsimaka/simaka_message.c:756-766 | Fills the last block with a padding attribute, or adds one |
| SimakaCodec.AppendWrap | src/libsimaka/simaka_message.c:768-796 | Appends the IV and data attributes |
| SimakaCodec.PutMac | src/libsimaka/simaka_message.c:829-837 | Puts the signature where the zero MAC was |
| SimakaCodec.GeneratedHeader | src/libsimaka/simaka_message.c:856-875 | A generated message is one the receiver creates an object for |
| SimakaCodec.Protect | src/libsimaka/simaka_message.c:744-797 | Pads the concealed bytes to whole blocks, encrypts them and appends IV and data attributes |
| SimakaCodec.Finish | src/libsimaka/simaka_message.c:799-842 | Appends the MAC attribute for the subtypes that get one, fills in the length and signs with the MAC zero |
| SimakaCodec.Message.ParseAttributes | src/libsimaka/simaka_message.c:302-480 | The parse loop yields what the specification reads, up to where it fails |
| SimakaCodec.Message.KeepAttribute | src/libsimaka/simaka_message.c:446-476 | Special attributes are set aside, padding is dropped, late notifications must be encrypted |
| SimakaCodec.Message.Decrypt | src/libsimaka/simaka_message.c:485-512 | Reads encrypted attributes only with keys, IV and data, and data of whole blocks |
| SimakaCodec.Message.Parse | src/libsimaka/simaka_message.c:514-531 | Reads the message once; later calls only decrypt |
| SimakaCodec.Message.Verify | src/libsimaka/simaka_message.c:533-602 | Decides by subtype whether a MAC is needed, checks it over the message with the MAC zeroed in place, and leaves it zeroed |
| SimakaCodec.Message.FromPayload | src/libsimaka/simaka_message.c:856-910 | An object is created exactly for a right length, code and type |
| SimakaCodec.Message.constructor | src/libsimaka/simaka_message.c:880-900 | A new object has found nothing and expects the first phase |
| RadiusMessage.SignedVerifies | src/libradius/radius_message.c:246-601 | A message built without a Message-Authenticator, signed and parsed again, enumerates its attributes in order, then the password, then the Message-Authenticator, and verification leaves it byte for byte unchanged and accepts it if and only if it has a Message-Authenticator or no EAP-Message |
| RadiusMessage.VerifiedIff | src/libradius/radius_message.c:518-601 | Any message passes if and only if it is a request or carries the right Response-Authenticator, and its first Message-Authenticator has 16 bytes and is right for the message with it zeroed, or it has none and no EAP-Message; what passes is unchanged |
| RadiusMessage.RefusedLeaves | src/libradius/radius_message.c:518-601 | What a refused message looks like afterwards: authenticator replaced, and the first Message-Authenticator zeroed if it got that far |
| RadiusMessage.RefusedWithoutMac | src/libradius/radius_message.c:518-601 | The same for a message without a Message-Authenticator |
| RadiusMessage.ScanSound | src/libradius/radius_message.c:553-587 | Scanning any bytes finds a Message-Authenticator if and only if enumerating them would, and reports EAP-Messages exactly |
| RadiusMessage.ScanFinds | src/libradius/radius_message.c:553-587 | Scanning any bytes stops at the value of the first Message-Authenticator enumerating them gives |
| RadiusCrypt.DecryptsEncrypted | src/libradius/radius_message.c:390-449 | For every hash, secret, key and whole blocks, the routine run out of place recovers what it encrypted in place |
| RadiusCrypt.EncryptedIsChain | src/libradius/radius_message.c:390-449 | Run in place it produces the chain of section 5.2 of RFC 2865: every block is the plaintext block xor the hash of the secret and the ciphertext block before |
| RadiusCrypt.Crypt | src/libradius/radius_message.c:390-449 | One routine over two buffers that may be the same: fails exactly on unequal or odd lengths or a failing hash, and chains on the output exactly if the buffers are one |
| RadiusCrypt.CryptBlocks | src/libradius/radius_message.c:429-448 | The in-place xor loop yields the specified chain block by block |
| RadiusCrypt.XorBlock | src/libradius/radius_message.c:429-448 | One round changes one block of the output |
| RadiusCrypt.MemXor | src/libradius/radius_message.c:432-432 | Xors a stretch of a buffer and nothing else |
| RadiusCrypt.XorTwice | src/libradius/radius_message.c:432-432 | Xor with the same bytes twice is the identity |
| RadiusCrypt.XorByteBits | src/libradius/radius_message.c:429-433 | Every bit is set exactly if it is set in one argument and not in the other |
| RadiusCodec.PasswordRecoveredIff | src/libradius/radius_message.c:476-486 | The password attribute is whole blocks, and decrypts to the padded password, if and only if the padded password fits an attribute |
| RadiusCodec.LongPasswordLost | src/libradius/radius_message.c:476-486 | A password of 254 bytes whose attribute is not whole blocks |
| RadiusCodec.Transmit | src/libradius/radius_message.c:451-702 | Signing on one side, parsing and verifying on the other, of a message made of given parts |
| RadiusCodec.BuildAndTransmit | src/libradius/radius_message.c:366-702 | From the calls of add to the verdict of the receiver: what is enumerated are the attributes added, cut, in order, then the password, then the Message-Authenticator |
| RadiusCodec.Build | src/libradius/radius_message.c:366-388 | A message built by any sequence of additions holds every value cut at 253 bytes in order, with the first password set aside |
| RadiusMessage.KeptWithPassword | src/libradius/radius_message.c:366-388 | The first password is set aside filled up with zeros, and everything before and after it is stored in order, cut at 253 bytes; an empty one is forgotten and what follows goes on as without it |
| RadiusMessage.KeptPlain | src/libradius/radius_message.c:366-388 | Without a password, or with one remembered, everything is stored in order, cut at 253 bytes |
| RadiusCodec.Message.Add | src/libradius/radius_message.c:366-388 | The first password is remembered in whole blocks; anything else is appended, cut at 253 bytes, with the length field kept right |
| RadiusCodec.Message.Append | src/libradius/radius_message.c:379-387 | Reallocates, stores one attribute behind the others and adds its length |
| RadiusCodec.Message.constructor | src/libradius/radius_message.c:672-683 | A new message has a header and no attributes |
| RadiusCodec.Message.FromBytes | src/libradius/radius_message.c:688-702 | A parsed message is a copy of the bytes |
| RadiusCodec.Message.Sign | src/libradius/radius_message.c:451-516 | Authenticator, password, Message-Authenticator and Response-Authenticator in the order that makes them verifiable |
| RadiusCodec.Message.SetAuthenticator | src/libradius/radius_message.c:455-474 | Writes the authenticator and nothing else |
| RadiusCodec.Message.AddPassword | src/libradius/radius_message.c:476-486 | Encrypts the password in place with the authenticator, appends it and forgets it |
| RadiusCodec.Message.AddMac | src/libradius/radius_message.c:488-501 | Appends a zero Message-Authenticator and puts the signature over it |
| RadiusCodec.Message.AddResponse | src/libradius/radius_message.c:503-514 | Hashes message and secret into the authenticator unless it is random |
| RadiusCodec.Message.Verify | src/libradius/radius_message.c:518-601 | The verdict and the bytes left behind, on success and on every failure |
| RadiusCodec.Message.CheckMac | src/libradius/radius_message.c:553-587 | Only the first Message-Authenticator counts, its value is restored if it is right and stays zero if not |
| RadiusCodec.Message.FindMac | src/libradius/radius_message.c:553-587 | Finds the first Message-Authenticator and whether an EAP-Message comes before it |
| RadiusCodec.Message.CheckValue | src/libradius/radius_message.c:558-582 | Zeroes the value, checks it, and restores it only if it was right |
| RadiusCodec.Message.Parse | src/libradius/radius_message.c:688-702 | A message is created exactly for a right length field |
| RadiusCodec.Enumerator.Enumerate | src/libradius/radius_message.c:246-265 | Each step returns the next attribute and where its value is; a truncated one ends the enumeration |
| RadiusCodec.Enumerator.constructor | src/libradius/radius_message.c:267-285 | Starts behind the header |
| RadiusMessage.AttributesFlat | src/libradius/radius_message.c:246-285 | Enumerating stored attributes returns them |
| RadiusMessage.RawLayout | src/libradius/radius_message.c:366-388 | Code, identifier, length and authenticator on the wire |
| RadiusMessage.FlatLayout | src/libradius/radius_message.c:380-387 | Kind, length of the whole attribute and value on the wire |
| RadiusMessage.PaddedIs | src/libradius/radius_message.c:371-378 | A password is filled up with as few zeros as make whole blocks |
| RadiusMessage.PasswordOnWire | src/libradius/radius_message.c:390-486 | Every block of the password is xored with a hash of the secret and the block before it, the first with the authenticator |
| RadiusMessage.AddedRaw | src/libradius/radius_message.c:366-388 | Appending an attribute to a message of known parts |
| RadiusMessage.SignedRaw | src/libradius/radius_message.c:451-516 | The bytes signing leaves, as header, authenticator and attributes |
| RadiusMessage.ReplacedIsSigned | src/libradius/radius_message.c:530-551 | Verification puts back exactly the message the Response-Authenticator was computed over |
| RadiusMessage.MacVerifies | src/libradius/radius_message.c:553-587 | The Message-Authenticator at the end is found and accepted |
| TlsAead.Lockstep | src/libtls/tls_aead_impl.c:56-150 | For every sequence of records, decrypting the implicit-IV outputs in order returns the data, with equal IVs on both sides after every record |
| TlsAead.StepLockstep | src/libtls/tls_aead_impl.c:56-150 | From equal IVs one record gets through and the IVs stay equal |
| TlsAead.OpensSealed | src/libtls/tls_aead_impl.c:56-150 | Opening undoes sealing under the same IV: padding and MAC are checked and removed |
| TlsAead.NeverTooShort | src/libtls/tls_aead_impl.c:87-90 | The check for records shorter than the IV never fires while the IV is no longer than a block |
| TlsAead.AssocLayout | src/libtls/tls_aead_impl.c:46-68 | The 13 bytes signed in front of the data: 64-bit sequence number, content type, version and length, big-endian |
| TlsAead.AssocInjective | src/libtls/tls_aead_impl.c:46-68 | Different headers, or lengths that differ in 16 bits, are signed differently |
| TlsAead.WrongHeaderRefused | src/libtls/tls_aead_impl.c:96-150 | With a signer that accepts only what it signed, a record opens under no other content type, version or sequence number |
| TlsAead.WrongHeaderRefusedInSteps | src/libtls/tls_aead_expl.c:58-159 | The same for records with a carried IV and with the IV in front |
| TlsAead.SealedParts | src/libtls/tls_aead_impl.c:56-94 | A sealed record is the data, the MAC over header and data, and padding up to whole blocks, encrypted under the IV |
| TlsAead.UnpaddedSound | src/libtls/tls_aead_impl.c:117-129 | Exactly what is taken for padding, and what is refused |
| TlsAead.IvCarried | src/libtls/tls_aead_impl.c:56-150 | The IV carried on is the end of the last record on both sides, and stays when a record cannot be sent or is malformed |
| TlsAead.Converse | src/libtls/tls_aead_impl.c:56-150 | Two objects run against each other: exactly the records before the first that cannot be encrypted arrive, in order, and the IVs agree whenever it stops |
| TlsAead.Pass | src/libtls/tls_aead_impl.c:56-150 | One record arrives exactly if it can be encrypted, and the IVs stay equal |
| TlsAead.Implicit.Encrypt | src/libtls/tls_aead_impl.c:56-94 | Seals with the carried IV, which becomes the end of the record only if that succeeded |
| TlsAead.Implicit.Decrypt | src/libtls/tls_aead_impl.c:96-150 | Opens with the carried IV, which moves on before anything else is known |
| TlsAead.CheckPadding | src/libtls/tls_aead_impl.c:117-128 | The padding loop removes padding exactly if every byte of it is the pad length |
| TlsAead.Strip | src/libtls/tls_aead_impl.c:117-149 | Checks and removes padding and MAC |
| TlsAead.Implicit.constructor | src/libtls/tls_aead_impl.c:170-222 | Starts with the IV given |
| TlsAead.UnpaddedPlain | src/libtls/tls_aead_impl.c:74-128 | Padding added is removed |
| TlsAead.ExplicitRoundTrip | src/libtls/tls_aead_expl.c:58-159 | With the IV in front of the record the data comes back and nothing is carried over |
| TlsAead.EncryptExplicit | src/libtls/tls_aead_expl.c:58-99 | Seals with a generated IV and puts it in front |
| TlsAead.DecryptExplicit | src/libtls/tls_aead_expl.c:101-159 | Takes the IV from the front and opens the rest |
| TlsCache.RunKeepsGood | src/libtls/tls_cache.c:104-133 | In every run that creates only ids not in the cache, the table is the map the list induces, the size stays within the limit, and the list holds the newest entries |
| TlsCache.CreateAgreesIff | src/libtls/tls_cache.c:104-133 | Creating keeps table and list in agreement if and only if the id of a dropped entry is not that of a younger one |
| TlsCache.DoubledLosesSession | src/libtls/tls_cache.c:104-133 | A doubled id whose eviction removes the younger session from the table |
| TlsCache.FreshKeepsGood | src/libtls/tls_cache.c:104-133 | One creation of a new id keeps agreement, uniqueness and the limit, and evicts the oldest |
| TlsCache.CheckedIsResumed | src/libtls/tls_cache.c:135-197 | A session offered for an identity is found and resumed for it at the same time |
| TlsCache.CheckedFirst | src/libtls/tls_cache.c:173-197 | The first session of the list bound to the identity and no older than allowed is offered |
| TlsCache.AgeExact | src/libtls/tls_cache.c:150-151 | The 32-bit age is the age below 2^32 seconds, and not beyond |
| TlsCache.Cache.Create | src/libtls/tls_cache.c:104-133 | Updates list and table together as specified |
| TlsCache.Cache.Lookup | src/libtls/tls_cache.c:135-171 | Returns what the table says and, while it agrees, what scanning the list for the newest entry says: within 2^32 seconds a session is resumed if and only if it is there, not too old and not bound to another identity |
| TlsCache.Cache.Check | src/libtls/tls_cache.c:173-197 | Returns the newest session young enough and bound to the identity |
| TlsCache.Cache.constructor | src/libtls/tls_cache.c:217-237 | A new cache is empty and agrees with itself |
| TlsCache.Newest | src/libtls/tls_cache.c:135-171 | Scanning the list finds an entry for an id if and only if there is one |

## Left out

- SimakaCodec.Message.ParseAttributes: malformed attributes for which the source reads past the message (a stated length of 0, or a counted value that ends behind the input) are refused instead.
- SimakaAttributes.ReadOne: refuses the same malformed attributes.
- SimakaCodec.Message.Generate: attribute lists that overflow the two fixed buffers, which the source writes past, are not modelled.
- SimakaCodec.Message.Verify: a MAC found inside decrypted data, which is gone by then, is not modelled.
- SimakaRoundTrip.VerifiedIff: a MAC found inside decrypted data is not modelled.
- RadiusCodec.Message.Add: additions that make the message longer than its 16-bit length field can say are not modelled.
- RadiusCodec.Enumerator.Enumerate: an attribute whose length byte is below 2 ends the enumeration; the source does not check for it.
- RadiusCodec.Message.Sign: the bytes left behind by a signing that fails are not specified.
- RadiusCrypt.Crypt: the output left behind by a failing hash is not specified.
- EspRun.Run: SAs and policies are fixed during a run, and processing is one packet at a time; concurrent use of SAs is the subject of SaLocking.
- SaManager.Manager.UpdateSa: whether waiting for the entry is granted is a parameter; the waiting itself is in SaLocking.
- SaManager.Manager.DelSa: whether waiting for the removal is granted is a parameter; the waiting itself is in SaLocking.
- IpsecProcessor.Processor.CheckoutBySpi: a checkout is immediate and never refused because of a deletion; locks and waiting are in SaLocking.
- IpsecProcessor.Processor.CheckoutByReqid: a checkout is immediate and never refused because of a deletion; locks and waiting are in SaLocking.
- IpsecProcessor.Processor.Checkin: the lock flag and the signal are in SaLocking.
- SaLocking.LockingSafety: an expiry job that compares its entry pointer with a later entry at the same address is not modelled, since entries have unique names here.
- EAP-TNC and PT-EAP framing: depends on message lengths reported by code that is not part of this model.
- Vendor attribute enumeration, identifiers and getters of RADIUS messages: easy members only.
- Hooks, debug output and identity managers of EAP-SIM/AKA.
- Checksum values, key derivation and IV randomness: they stay abstract.
- EAP fragment sizes below 10, for which the source's unsigned arithmetic wraps.
- PT-TLS, TLS compression, alerts, sockets, retransmission, daemons, command-line tools and the test framework.
