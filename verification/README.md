# A model of the ShadowsocksR backend

The backend is a node of an SSPanel network: it accepts ShadowsocksR clients, relays their
TCP streams and datagrams, meters and limits every user, and follows a panel that adds and
removes users while connections are running. Under the sockets sit a few exact state machines.
This project models them and proves what they promise, separately and composed.

**The stream codec** (`Bytes`, `Crypto`, `Rc4`, `Cipher`, `KeyStreams`, `Protocol`, `Segmentation`,
`Verdicts`, `Session`, `ServerSession`, `Packets`, `RoundTrip`, `Delivery`, `Duplex`, `Integrity`,
`Address`, `Handshake`, `Cuts`, `EndToEnd`, `Udp`).
The receiver collects a cleartext IV, deciphers the rest with RC4 or ChaCha20, takes one MAC'd
and AES-wrapped auth packet off its buffer and then data packets keyed by a wrapping counter.
`Protocol.Step` says what the front of the buffer allows, `Protocol.Drain` repeats it, and the
class `AuthAes128Md5`, which works through its buffer in place, is proved to do exactly that. The
central results are these. How the byte stream is cut into reads changes neither whether it
decodes, nor the error, nor, if it does, output and state (`Session.SegmentationIndependence`); if
it does not, it changes only how much of one and the same payload was passed on before the failure
(`Delivery.DeliveriesComparable`). Both directions carry exactly what was put in
(`RoundTrip.UploadRoundTrip`, `RoundTrip.DownloadRoundTrip`), and never disturb each other, not even
when one fails (`Duplex.DirectionsAreIndependent`). `EndToEnd.WholeSession` composes these over a
complete connection, from the first byte to the byte counts. The converse of the round trips is
`Integrity.ReceivedExactly`: bytes of any origin are accepted if and only if they are an auth packet
signed under the key of the uid it names, followed by packets sealed under the same key and numbered
without a gap; and their payloads are all that comes out.

What the codec's formats and decisions are is also stated without its own functions, on bytes and
plain sequences: RC4 by its defining equations, which have one solution (`KeyStreams`), every
outcome of a buffer field by field (`Verdicts`), and every address header (`Address`).

**The per-user ledgers** (`Traffic`, `TrafficHistory`, `Devices`, `RateLimit`, `Maps`,
`Ledgers`). Each is a machine of
atomic steps; invariants hold over every run of every interleaving. Traffic is conserved between
the counters and the panel, the number of devices is capped and nothing leaks, and a token bucket
whose rate changes live never lets through more than it held plus what it earned.

**The bounded map** (`TtlMap`, `RecencyList`). A map with time stamps but no order is shown to
refine a list in which access moves a key to the end, and expiry and eviction drop a prefix.

**Reconciliation** (`Listeners`, `Panel`, `Tables`, `Supervisor`, `Reconciliation`, `Lookups`). What
one poll of the panel does to tables, ledgers and listeners, when a running listener is left alone
and whose it is then, why the lookups of an authenticated user cannot fail, and when those of
anyone else do.

**Address rules** (`Policy`). CIDR matching by shift and mask, and IPv4-mapped addresses.

MD5, HMAC-MD5, AES-128, base64 and the ChaCha20 keystream are arbitrary functions with the right
result sizes. The theorems hold for every choice of them; the round trips assume only that AES
decryption undoes AES encryption, and nothing assumes that MACs do not collide. Send IVs, clock
readings, the panel's answers, the reads of a socket and the order in which a hash map yields its
entries are parameters or arbitrary choices. Bytes and machine words are integers in their range
with every wrap written out; bit operations are defined bit by bit.

Four places where the code is narrower than its promise, each with the exact condition:

* When a stream does not decode to its end, the cut can decide whether the handshake loop connects.
  A refused packet behind the address refuses the client if it is part of the read that completes
  the address, and is noticed only after connecting if it is not (`Cuts.CutDecides`). The cut is
  irrelevant if and only if no front part of the stream decodes to a whole address, or no single
  read can begin before the address is complete and reach a refusal (`Cuts.CutIsIrrelevant`); for
  reads of any length, if and only if the stream decodes or has no address
  (`Cuts.CutOfAnyLengthIsIrrelevant`). All cuts that connect find the same target (`Cuts.SameTarget`).
* Traffic is conserved for as long as a user's total fits a 64-bit counter, and from then on
  never again; `Traffic.TrafficConservation` has both directions and `Traffic.WrapLosesTraffic`
  a run that loses everything.
* Polling unchanged rows again touches no listener if and only if rows that share a port agree
  (`Listeners.ResyncTouchesNothing`). Carrier rows are merged and always do; two differing normal
  rows on one port restart that port's listener on every poll
  (`Reconciliation.DifferingNormalRowsRestart`).
* A running listener keeps the user id it was started with, and that id is not part of its
  fingerprint. When a row's user id changes and its endpoint does not, the listener is left alone
  and its owner is no live user any more (`Reconciliation.RenumberedRowStrandsListener`); a client
  that names no registered uid is then dropped. After a poll a listener belongs to a live user if
  and only if the poll did not leave it alone or its owner is still among the rows' users
  (`Reconciliation.OwnerAfterPoll`), and that decides the counter lookup of every connection that
  identified no user (`Lookups.CounterFoundAfterPoll`).

A comment in the rate limiter speaks of relay chunks of at most 64 KiB; the code reads 16 KiB at a time,
and the model follows the code.

## Model

| member | source | states |
|---|---|---|
| Crypto.EvpBytesToKey | src/ssr/kdf.rs:13-25 | the loop terminates with exactly `keyLen` bytes, those of the recursive MD5 chain |
| Crypto.DerivedKeyBytes | src/ssr/kdf.rs:13-25 | byte i of a derived key is byte i mod 16 of link i / 16 of the MD5 chain |
| Crypto.DeriveKeyPrefixStable | src/ssr/kdf.rs:13-25 | a shorter key is a prefix of every longer key of the same password |
| KeyStreams.KeysWrittenOut | src/ssr/kdf.rs:13-25 | the two keys in use: one MD5 of the password, and that followed by one MD5 of it and the password |
| KeyStreams.CipherSizes | src/ssr/cipher.rs:44-57 | key and IV sizes, as numbers |
| Rc4Cipher.SchedulePermutes | src/ssr/rc4.rs:19-32 | after any number of key-schedule rounds the box is a permutation of 0..255 |
| Rc4Cipher.BoxAlwaysPermutation | src/ssr/rc4.rs:19-43 | in every state reachable from any key the box is a permutation of 0..255 |
| Rc4Cipher.Rc4.constructor | src/ssr/rc4.rs:19-32 | the in-place key schedule reaches the specified state |
| Rc4Cipher.Rc4.Apply | src/ssr/rc4.rs:35-43 | in place, each byte is XORed with its own keystream byte, which does not depend on the data; the state advances by the length |
| KeyStreams.GeneratedIsRc4 | src/ssr/rc4.rs:19-43 | the generator's bytes satisfy RC4's defining equations on plain sequences: 256 key rounds from the identity box, then a trade and the entry at the sum of the two traded per round |
| KeyStreams.Rc4IsUnique | src/ssr/rc4.rs:19-43 | a key has one stream of each length that satisfies them |
| KeyStreams.EncryptInPlace | src/ssr/rc4.rs:19-43 | constructor and in-place application together XOR the data with that stream |
| KeyStreams.Rc4Md5IsRc4 | src/ssr/rc4.rs:59-75 | an rc4-md5 direction is data XOR the RC4 stream of MD5(master key, IV) |
| KeyStreams.ChaChaIsChaCha | src/ssr/cipher.rs:62-91 | a chacha20-ietf direction is data XOR that cipher's keystream under key and IV, from its beginning |
| KeyStreams.XorBit | src/ssr/rc4.rs:35-43 | a bit of the XOR is set if and only if the two bits differ |
| Cipher.EncipherAppend | src/ssr/cipher.rs:82-91 | enciphering a then b is enciphering a ++ b: the keystream is continuous across calls |
| Cipher.EncipherTwice | src/ssr/rc4.rs:35-43 | from equal start states enciphering twice is the identity |
| Cipher.StreamCipher.constructor | src/ssr/cipher.rs:62-73 | a new stream of either kind, at its start |
| Cipher.StreamCipher.Process | src/ssr/cipher.rs:82-91 | the buffer is enciphered in place and the stream advances by its length, for both ciphers |
| Protocol.AuthAes128Md5.constructor | src/ssr/protocol.rs:47-72 | a new protocol object is in the initial state: master key, counters at 1, nothing buffered |
| Protocol.AuthAes128Md5.ReadAuthPacket | src/ssr/protocol.rs:80-142 | one attempt at the auth packet: each check in order with its own error, waiting leaves the buffer, success drains exactly the packet |
| Protocol.AuthAes128Md5.ReadDataPacket | src/ssr/protocol.rs:145-177 | one attempt at a data packet, likewise, advancing the receive counter modulo 2^32 |
| Protocol.AuthAes128Md5.ServerPostDecrypt | src/ssr/protocol.rs:76-180 | the loop yields the payloads of all whole packets and leaves the state of the recursive specification, or fails with its error |
| Protocol.AuthAes128Md5.PackData | src/ssr/protocol.rs:198-220 | one packet with minimal padding under the current counter, which then advances modulo 2^32 |
| Protocol.AuthAes128Md5.ServerPreEncrypt | src/ssr/protocol.rs:187-196 | the loop emits consecutively numbered packets of the plaintext cut at 8100 bytes, at least one |
| Segmentation.StepExtends | src/ssr/protocol.rs:80-177 | more bytes behind the buffer change neither an emitted packet nor an error, and after a wait give what one longer buffer gives |
| Segmentation.PostDecryptAppend | src/ssr/protocol.rs:76-180 | feeding a then b decodes, fails and ends exactly like feeding a ++ b |
| Segmentation.DrainLeavesQuiescent | src/ssr/protocol.rs:94-177 | after a successful call nothing buffered can be decoded, and fewer than 8192 bytes are buffered |
| Segmentation.DrainIsSound | src/ssr/protocol.rs:94-177 | in addition an identified user is one of the table, and key and AES key are that user's |
| Segmentation.DrainKeepsKey | src/ssr/protocol.rs:109-177 | receiving never touches the send counter, and after the auth packet neither user nor key |
| Verdicts.DataVerdictIsExact | src/ssr/protocol.rs:145-177 | a data packet is waited for, refused with each of its errors, or taken, exactly when its fields say so, with MACs, keys, offsets and bounds written out |
| Verdicts.AuthVerdictIsExact | src/ssr/protocol.rs:80-142 | the same for the auth packet |
| Verdicts.AesKeyWrittenOut | src/ssr/protocol.rs:231-236 | the AES key is one MD5 of the base64 of the user key and the protocol's name |
| Verdicts.InitialWrittenOut | src/ssr/protocol.rs:47-72 | the state before the first byte |
| Verdicts.BufferedIsChecked | src/ssr/protocol.rs:88-159 | in every reachable state what is held back has passed every check its length allows: a forged head, header or length is never waited on |
| Session.SegmentationIndependence | src/ssr/mod.rs:197-233 | decoding a stream in any pieces, empty ones included, equals decoding it at once: same failure and error, same output, same final state |
| Session.ReceiveKeepsValid | src/ssr/mod.rs:197-233 | one successful call leaves the receiver quiescent, bounded, and with a user of its table |
| Session.AlwaysValid | src/ssr/mod.rs:197-233 | so does every run of calls: in no reachable state is more than a packet buffered, can anything buffered be decoded, or is the user not the table's |
| Delivery.DeliveredIsPrefix | src/ssr/mod.rs:197-233 | for any stream and segmentation: it fails if and as the whole does, and the output of the reads before that is a front part of what is decodable, all of it when nothing fails |
| Delivery.DeliveriesComparable | src/ssr/mod.rs:197-233 | two segmentations of one stream never pass on different bytes, only more or less of the same |
| Delivery.BytewiseDeliversAll | src/ssr/mod.rs:197-233 | read byte by byte, everything decodable is passed on, so the bound is reached |
| ServerCodec.ServerSession.constructor | src/ssr/mod.rs:170-195 | a new session derives a key that fits its cipher and awaits an IV |
| ServerCodec.ServerSession.Decrypt | src/ssr/mod.rs:197-233 | IV collection, in-place deciphering and parsing together are one `Receive`; the sending half is untouched |
| ServerCodec.ServerSession.Encrypt | src/ssr/mod.rs:241-260 | one `Send`: an error and no change before the handshake, the IV exactly in front of the first output |
| Packets.DataPacketDecodes | src/ssr/protocol.rs:145-177 | a packet with any padding of either form, shorter than 8192 bytes, is accepted and gives back its payload |
| Packets.DataPacketsDecode | src/ssr/protocol.rs:145-177 | so is any number of them in one buffer, in order, with nothing left over |
| Packets.AuthPacketDecodes | src/ssr/protocol.rs:80-142 | the auth packet of a client holding the key selected for its uid is accepted, gives its payload and selects that user |
| Packets.UnitsPartition | src/ssr/protocol.rs:187-196 | the units of a plaintext, put together, are the plaintext |
| Packets.UnitsWrittenOut | src/ssr/protocol.rs:187-203 | unit i holds the bytes from 8100 * i on, 8100 of them or what is left, behind one padding byte; there is one unit even of nothing |
| Packets.PreEncryptSize | src/ssr/protocol.rs:187-220 | n bytes become max(1, ceil(n / 8100)) packets and n + 9 bytes for each of them |
| Packets.UnitLengthAccepted | src/ssr/protocol.rs:204-211 | every packet is 9 to 8109 bytes and says so: the 16-bit cast drops nothing and the receiver's length check passes |
| RoundTrip.UploadRoundTrip | src/ssr/mod.rs:349-436 | any segmentation of a client's enciphered auth and data packets yields exactly the payloads; the user is the sent uid if and only if it is in the table |
| RoundTrip.SendIsReceived | src/ssr/mod.rs:241-260 | what one `encrypt` sends, the MAC-checking client accepts whole, and counters and streams stay in lockstep, also across the wrap |
| RoundTrip.SendNeedsHandshake | src/ssr/mod.rs:241-250 | sending fails if and only if the client's IV is not complete |
| RoundTrip.DownloadRoundTrip | src/ssr/mod.rs:439-470 | any run of `encrypt` calls, read through any segmentation, gives the client the concatenated plaintexts |
| RoundTrip.FirstSendCarriesIv | src/ssr/mod.rs:241-260 | a session's wire bytes are the IV once, then the packets |
| RoundTrip.SessionWireSize | src/ssr/mod.rs:241-260 | a session's wire bytes number those of all packets plus one IV |
| Duplex.DrainNumbered | src/ssr/protocol.rs:76-180 | decoding does not look at the send counter |
| Duplex.SendAllSame | src/ssr/protocol.rs:187-220 | what is sent depends on nothing of the receiving side but the user's key |
| Duplex.DirectionsAreIndependent | src/tcp.rs:288-343 | in every interleaving, also one that fails, the relay moves what each direction would move with the other one silent up to the first refused read, and fails only as that would |
| Duplex.RelayMoves | src/tcp.rs:288-343 | what a relay has moved when it stops, however it stops: to the remote side what its reads deliver, to the client what the sends before the first refused read put on the wire |
| Duplex.ServedIsFront | src/tcp.rs:288-343 | those sends are all in the turns up to that read |
| Integrity.AcceptedWasSealed | src/ssr/protocol.rs:145-177 | a data packet is emitted only if the buffer starts with an acceptable sealing under the user's key and the expected number, and the payload is the one its marker selects |
| Integrity.SealedIsAccepted | src/ssr/protocol.rs:145-177 | and always then, also for the packets no client of this protocol would send: marker 0, and no data at all |
| Integrity.DrainedWasSealed | src/ssr/protocol.rs:145-177 | everything a call emits came out of consecutively numbered acceptable sealings, with the rest still buffered |
| Integrity.SealedIsDrained | src/ssr/protocol.rs:145-177 | and all such sealings in front of an undecodable rest come out |
| Integrity.AdmittedWasSigned | src/ssr/protocol.rs:80-142 | a client is let in only with an auth packet MAC'd under the connection's IV and key and under the key of the uid it names, whose AES block gives its length and payload; the state is then fixed by it |
| Integrity.SignedIsAdmitted | src/ssr/protocol.rs:80-142 | and always with such a packet |
| Integrity.AcceptedExactly | src/ssr/protocol.rs:76-180 | the accepted language: plaintext decodes past the auth packet to a given state and output if and only if it is a signed auth packet, acceptable sealings numbered from 1 and an undecodable rest that make them |
| Integrity.ReceivedExactly | src/ssr/mod.rs:197-233 | the same for a whole connection in any segmentation, under the IV its first bytes gave |
| SocksAddress.ConnectTypeFlagIgnored | src/ssr/address.rs:30-36 | masking the address type clears bit 3 and nothing else |
| SocksAddress.FoundIsExact | src/ssr/address.rs:30-75 | an address is found if and only if its header, byte by byte, with or without the flag, stands at the front; exactly the header is consumed |
| SocksAddress.IncompleteIsExact | src/ssr/address.rs:30-75 | more bytes are asked for if and only if the type is known and the header is cut short |
| SocksAddress.RefusedIsExact | src/ssr/address.rs:30-75 | the two errors, for an unknown type and for a whole domain that is not UTF-8, each exactly then |
| SocksAddress.DomainParses | src/ssr/address.rs:48-62 | a domain of up to 255 bytes, its length in front and the port's high byte first, parses to name and port, or is refused if not UTF-8 |
| SocksAddress.PackWrittenOut | src/ssr/address.rs:80-94 | a packed address, byte by byte |
| SocksAddress.ParseIsPrefixStable | src/ssr/address.rs:30-75 | a found address, or an error, is the same whatever bytes follow |
| SocksAddress.IncompleteIsShort | src/ssr/address.rs:30-75 | parsing asks for more only below 259 bytes |
| SocksAddress.ParseUndoesPack | src/ssr/address.rs:80-94 | parsing a packed address in front of any payload returns it and consumes exactly the header |
| Handshake.AcceptClient | src/tcp.rs:188-212 | the accumulation loop ends as specified: closed, refused, waiting, or connected with the bytes behind the address |
| Handshake.HandshakeFraming | src/tcp.rs:188-212 | for every stream and segmentation, decodable or not: the loop finds only what stands at the front of the decodable part, relays only what follows it there and all of it if the stream decodes, waits only on a decodable stream without an address, and refuses with the stream's or the address's own error |
| Cuts.SameTarget | src/tcp.rs:188-343 | any two segmentations of one stream that connect find the same target and relay more or less of the same payload, the same if the stream decodes |
| Cuts.SomeCutConnects | src/tcp.rs:188-212 | some segmentation connects if and only if some front part of the stream decodes to a whole address |
| Cuts.EveryCutConnects | src/tcp.rs:188-212 | every segmentation into reads of bounded length connects if and only if, in addition, no single read can span the end of the address and a refusal |
| Cuts.CutIsIrrelevant | src/tcp.rs:188-212 | exactly when the segmentation does not decide whether the loop connects |
| Cuts.CutOfAnyLengthIsIrrelevant | src/tcp.rs:188-212 | without a bound on reads: if and only if the whole stream decodes or no front part yields an address |
| Cuts.CutDecides | src/tcp.rs:200-207 | for every choice of primitives, a stream that connects in two reads and is refused in one |
| Cuts.EndOfStreamCloses | src/tcp.rs:196-198 | the end of the stream, while the loop still waits, ends it without a target |
| Handshake.HandshakeNeverTooLong | src/tcp.rs:209-211 | the 64 KiB bail-out is never taken |
| Handshake.DecryptedIsBounded | src/tcp.rs:306-321 | one `decrypt` returns fewer bytes than were read plus 8192 |
| Handshake.EncryptedIsBounded | src/tcp.rs:327-337 | one read from the remote side becomes at most 43 bytes more on the wire |
| EndToEnd.ConnectedIsAuthenticated | src/tcp.rs:192-214 | whoever leaves the handshake loop with a target is past the auth packet, and nothing was sent yet |
| EndToEnd.UserIsSettled | src/tcp.rs:214-343 | after the handshake no turn of the relay, in either direction and any interleaving, changes the connection's user or key |
| EndToEnd.SendKeepsValid | src/ssr/mod.rs:241-260 | sending leaves the receiving half bounded, quiescent and with its table's user |
| EndToEnd.RelayKeepsValid | src/tcp.rs:288-343 | so does every interleaving of reads and sends |
| EndToEnd.RelayRecordsAreWire | src/tcp.rs:306-334 | in every relay run, also one that fails, the recorded amounts add up to the bytes read from the client, a refused read included, and to the bytes written to it |
| EndToEnd.WholeSession | src/tcp.rs:174-348 | for every segmentation and interleaving: right target, exact payload to the remote side, exact plaintext at the client, the amounts recorded on the counters add up to the wire bytes of either direction, and at the end still the user the client named, if registered |
| EndToEnd.RelayChargesAreSmall | src/tcp.rs:300-337 | from any valid state, every amount a relay run passes to the bucket is below 256 KiB |
| EndToEnd.ChargedInFull | src/tcp.rs:188-337 | every amount a session charges, the initial payload and each turn of any relay run, is below 256 KiB; no attempt at it, served or waiting, on any bucket at any time, is cut to the capacity |
| EndToEnd.RelayChargesAreBytes | src/tcp.rs:306-337 | in every relay run, also one that fails, what is charged is what is moved in both directions |
| EndToEnd.SessionChargesAreBytes | src/tcp.rs:281-337 | over a session the initial payload is charged as well, and a client that is not connected nothing |
| Udp.DecryptPacket | src/ssr/mod.rs:101-124 | a datagram is refused below the IV length, else deciphered under its own IV and its trailer checked |
| Udp.EncryptPacket | src/ssr/mod.rs:128-144 | a response is its IV and the enciphered packet with its MAC |
| Udp.DatagramRoundTrip | src/ssr/protocol.rs:248-277 | the server takes exactly payload and uid out of a client's datagram, for registered and other users in every node mode |
| Udp.AcceptedWasSigned | src/ssr/protocol.rs:255-276 | an accepted datagram is exactly its payload and a uid, signed under the key of that uid |
| Udp.DatagramVerdict | src/ssr/protocol.rs:248-277 | what becomes of any deciphered datagram, byte by byte and error by error, with the three keys written out |
| Udp.ResponseWrittenOut | src/ssr/protocol.rs:287-293 | a response is signed as a whole under the key it is given |
| Udp.ResponseRoundTrip | src/ssr/protocol.rs:287-293 | a response deciphers to the origin address, the payload and a MAC that verifies, and address parsing stops where the payload starts |
| Policy.MaskClearsLowBits | src/policy.rs:87-101 | the shifted mask keeps a number's top bits and clears the rest |
| Policy.InBlockIsTopBits | src/policy.rs:87-101 | masked equality holds if and only if the top `prefix` bits are equal as integers, prefix 0 included |
| Policy.InBlockIsInterval | src/policy.rs:87-101 | a block is one aligned interval of 2^(width - prefix) addresses |
| Policy.V4RuleOnMappedAddress | src/policy.rs:75-78 | an IPv4 rule answers alike for an address and its mapped form |
| Policy.MappedRuleIsV4Rule | src/policy.rs:65-84 | a mapped rule of prefix 96 + p is the IPv4 rule of prefix p, on either form of address |
| Policy.V4RuleOnV6Address | src/policy.rs:75-78 | an IPv4 rule holds of an IPv6 address if and only if that is the mapped form of an address it holds of |
| Policy.V6RuleOnV4Address | src/policy.rs:79-82 | an IPv6 rule answers for an IPv4 address as for its mapped form |
| Traffic.ActionKeepsInvariant | src/traffic.rs:61-105 | every atomic step of relays, reports and polls keeps the accounting invariant |
| Traffic.TrafficConservation | src/runtime/supervisor.rs:384-392 | in every reachable state acknowledged plus unreported bytes equal recorded bytes if and only if these are below 2^64, are never more, and until then no subtraction saturates |
| TrafficHistory.StateIsHistory | src/traffic.rs:61-105 | in every run counter, checkpoint, what was read, recorded and acknowledged are what the actions alone add up to: records since the user was added, looks, posted claims and their ACKs |
| TrafficHistory.NothingIsLost | src/runtime/supervisor.rs:384-392 | conservation of the actions alone: claims acknowledged plus the next claim are the bytes recorded, if and only if these are below 2^64 |
| TrafficHistory.FailedReportChangesNothing | src/runtime/supervisor.rs:389-390 | a report the panel does not acknowledge changes no counter and no checkpoint |
| TrafficHistory.PostedIfAnything | src/runtime/supervisor.rs:385-389 | a report is posted if and only if some counter was seen beyond its checkpoint |
| TrafficHistory.QuietReport | src/runtime/supervisor.rs:384-392 | a whole report of the step machine, with no record in between, moves just the checkpoints that the ledger's report moves |
| Traffic.WrapLosesTraffic | src/traffic.rs:19-25 | a run of reads of at most 16 KiB in which the counter wraps and all recorded bytes go unreported |
| Traffic.DeltaIsClaim | src/traffic.rs:81-103 | a delta is what the step machine's report claims, and acknowledging it moves the checkpoint to what was read |
| Traffic.LastDeltaDecides | src/traffic.rs:98-105 | after an ACK a known user's checkpoint is that of its last delta |
| Traffic.OthersUnmoved | src/traffic.rs:98-105 | an ACK moves no checkpoint of a user without a delta |
| Traffic.TrafficLedger.EnsureUser | src/traffic.rs:61-70 | a known user keeps counter and checkpoint, a new one gets a fresh counter and checkpoint at zero |
| Traffic.TrafficLedger.RemoveStaleUsers | src/traffic.rs:72-76 | exactly the live users stay, unchanged |
| Traffic.TrafficLedger.PendingDeltas | src/traffic.rs:78-96 | one delta for each user with unreported traffic and none for anyone else |
| Traffic.TrafficLedger.MarkReported | src/traffic.rs:98-105 | the checkpoints become those the deltas carry, not what the counters are by now |
| Traffic.TrafficLedger.ReportTraffic | src/runtime/supervisor.rs:384-392 | without an ACK no checkpoint moves; with one, every reported user's does and nobody else's |
| Devices.CountsAreLiveGuards | src/traffic.rs:157-184 | in every reachable state each IP's count is its number of live guards, and none is zero |
| Devices.AcquireIsExact | src/traffic.rs:157-171 | an acquisition adds one guard unless the IP is new and the user at a positive limit |
| Devices.DropIsExact | src/traffic.rs:174-184 | a drop takes one guard of its IP, and the IP with the last of them |
| Devices.ReleaseNeverUnderflows | src/traffic.rs:174-184 | dropping a live guard always finds a positive count |
| Devices.AllDroppedLeavesNothing | src/traffic.rs:143-184 | with the last guard gone the set is empty |
| Devices.DistinctIpsCapped | src/traffic.rs:153-171 | if every acquisition was made under a positive limit of at most L there are never more than L distinct IPs |
| Devices.ConnGuard.Reserve | src/traffic.rs:157-171 | refused if and only if the IP is new and the user at a positive limit; counts and live guards agree afterwards |
| Devices.ConnGuard.Release | src/traffic.rs:174-184 | a drop takes one guard of its IP away, and the IP with the last of them |
| RateLimit.ChargedWithinSupply | src/traffic.rs:204-274 | across any acquirers and rate changes, a window charges at most what the bucket held at its start plus the rate summed over time; time at rate 0 earns nothing |
| RateLimit.ConstantRateBound | src/traffic.rs:204-274 | at a constant rate R with capacity C, a window of length d charges at most C + R * d |
| RateLimit.GrantedIsCharged | src/traffic.rs:263-269 | for amounts up to 256 KiB the bytes let through are the tokens charged |
| RateLimit.NewIsFull | src/traffic.rs:218-234 | a new bucket is full, at one second's worth but at least 256 KiB |
| RateLimit.HeldIsExact | src/traffic.rs:204-213 | waiting adds exactly the rate up to the capacity, and nothing at rate 0 |
| RateLimit.AcquireIsExact | src/traffic.rs:254-270 | an acquisition takes out exactly what it charges, and nothing when it waits |
| RateLimit.AttemptIsExact | src/traffic.rs:254-270 | unlimited at rate 0, charged exactly when the bucket holds the amount or is full, else made to wait, and for how long |
| RateLimit.RateChangeIsExact | src/traffic.rs:237-249 | a changed rate keeps what the bucket holds up to the new capacity; an unchanged one touches nothing |
| RateLimit.DemandWithinHeldIsServed | src/traffic.rs:254-274 | over any interleaving, demand within what the bucket holds is never made to wait |
| RateLimit.SmallAmountsAreNotClamped | src/traffic.rs:254-270 | for amounts up to 256 KiB the outcome of an attempt is the one without the cut to the capacity |
| RateLimit.WaitIsExact | src/traffic.rs:266-272 | a refused acquirer left alone is served after the computed wait and not a moment earlier |
| RateLimit.WholeRatesApart | src/traffic.rs:237-242 | for whole rates the epsilon test is equality |
| RateLimit.RateLimiter.ChangeRate | src/traffic.rs:237-249 | an unchanged rate touches nothing; a changed one settles the old rate up to now and clamps to the new capacity |
| RateLimit.RateLimiter.Attempt | src/traffic.rs:257-271 | one locked pass: unlimited, charged, or the wait; tokens stay between 0 and capacity |
| RateLimit.RateLimiter.AcquireAlone | src/traffic.rs:254-274 | when nobody interferes the retry loop sleeps at most once, for the computed time, and then charges the bucket once |
| Ledgers.ConnLedger.EnsureUser | src/traffic.rs:132-135 | a known user keeps the IP set, a new one gets an empty one |
| Ledgers.SpeedLedger.EnsureUser | src/traffic.rs:288-301 | a known user keeps the bucket, retuned to the new rate, a new one gets a full one; no other bucket's contents change, and users share none |
| TtlMap.NeverOverCapacity | src/runtime/state.rs:20-22 | after any run the map is within its capacity and every time stamp is that of an access |
| TtlMap.RecentlyUsedSurvives | src/runtime/state.rs:49-126 | a key accessed at t is there until its TTL runs out, as long as fewer than `capacity` distinct other keys were accessed at t or later |
| TtlMap.IdleIsGone | src/runtime/state.rs:81-93 | nothing idle for the TTL survives an expiry or an insertion |
| TtlMap.TouchIsExact | src/runtime/state.rs:69-76 | a touch is exactly: same keys, same values, the key's time stamp now |
| TtlMap.InsertIsExact | src/runtime/state.rs:81-88 | an insertion sets the new value; of the others the idle ones go, and one least recently seen more if and only if the rest fill the map without the key |
| TtlMap.SweepIsExact | src/runtime/state.rs:91-97 | an expiry keeps exactly the fresh entries, a retain exactly the wanted ones, unchanged |
| TtlMap.BoundedTtlMap.constructor | src/runtime/state.rs:34-40 | an empty map with capacity at least one |
| TtlMap.BoundedTtlMap.TouchOrInsertWith | src/runtime/state.rs:49-63 | a present key is refreshed and keeps its value; a new one goes in after expiry and at most one eviction of a least recently seen key |
| TtlMap.BoundedTtlMap.TouchKey | src/runtime/state.rs:69-76 | a present key is refreshed and its value returned, an absent one changes nothing |
| TtlMap.BoundedTtlMap.InsertKey | src/runtime/state.rs:81-88 | the same as above for insertion, which replaces the value |
| TtlMap.BoundedTtlMap.EvictExpired | src/runtime/state.rs:111-115 | exactly the entries idle for the TTL go |
| TtlMap.BoundedTtlMap.EvictOldest | src/runtime/state.rs:117-126 | one entry seen no later than any other goes, none from an empty map |
| RecencyList.DropIdleRepresents | src/runtime/state.rs:111-115 | in the list, expiry is dropping a prefix |
| RecencyList.EvictRefines | src/runtime/state.rs:117-126 | in the list, whichever of the oldest is evicted, some order of equally old rows has it in front |
| RecencyList.StepRefines | src/runtime/state.rs:49-126 | every step of the map is a step of the recency-ordered list, ties in some order |
| RecencyList.MapRefinesList | src/runtime/state.rs:24-126 | every run of the map is a run of the list machine and ends in a list of the same entries |
| Listeners.ReconcileExact | src/runtime/supervisor.rs:283-309 | the active ports are exactly the wanted ones, each with its last row's fingerprint; a listener is kept, with its owner, if and only if all rows of its port ask for what it is; all others are new and belong to the user of a row that asks for them |
| Listeners.ReconcileTwice | src/runtime/supervisor.rs:283-309 | wanting the same fingerprints again, in any order and for any users, touches no listener |
| Listeners.DifferingRowsRestart | src/runtime/supervisor.rs:320-380 | where two rows of a port differ, its listener is a new one after every poll, whatever ran before |
| Listeners.ResyncTouchesNothing | src/runtime/supervisor.rs:276-309 | polling the same rows again touches no listener if and only if rows that share a port agree |
| Listeners.OwnerIsLive | src/runtime/supervisor.rs:283-309 | if every row's user is live, a port's listener belongs to a live user if and only if it was replaced or its owner is one |
| Panel.ByPortIsFirst | src/runtime/supervisor.rs:479-505 | the first carrier row of a port is the one kept |
| Panel.FingerprintIsExact | src/runtime/supervisor.rs:320-327 | two rows ask for the same listener if and only if port, password, mode and profile agree; whose it becomes is the row's user |
| Panel.ProfileIsExact | src/ssr/mod.rs:43-80 | which rows run, in lower case and with the node's settings for what they leave open |
| Panel.RateIsExact | src/policy.rs:148-150 | a limit of m Mbit is 131072 * m bytes, rounded down and saturating; none or a negative one is no limit |
| Panel.CapIsExact | src/policy.rs:151-160 | the cap on devices, for a missing, negative or too large one as well |
| Panel.ListenerRowsAreExact | src/runtime/supervisor.rs:270-284 | without carriers all rows get a listener, else exactly the first carrier row of each port |
| Tables.TablesNameLiveIds | src/runtime/supervisor.rs:233-255 | auth and policy tables name only live users, the rate table names them all |
| Tables.AuthTableIsExact | src/runtime/supervisor.rs:252-254 | a user can authenticate if and only if it has a normal row, with the MD5 of the last one's password |
| Tables.PolicyTableIsExact | src/runtime/supervisor.rs:238-251 | a user has a policy if and only if a row of it limits more than the speed: the last such row's |
| Tables.SpeedTableIsExact | src/runtime/supervisor.rs:242-245 | a user's rate is its last row's |
| Tables.LiveIdsAreExact | src/runtime/supervisor.rs:233-235 | the live users are those with a row, named or not |
| Tables.OneRowTunes | src/runtime/supervisor.rs:242-245 | one row for a user retunes its bucket or makes a full one, at that row's time |
| Tables.RetunedRate | src/runtime/supervisor.rs:242-245 | after the rows every live user's bucket is at the rate of its last row |
| Tables.UnchangedRateKeepsBucket | src/traffic.rs:278-301 | a bucket whose rate no row changes is left alone, tokens and clock included |
| Tables.PrunedIsPublished | src/runtime/supervisor.rs:310-312 | once the ledgers are pruned, they are the published tables, which are closed |
| Tables.StayingUser | src/runtime/supervisor.rs:233-312 | a poll leaves a staying user's checkpoint as it was, and the bucket too unless a row changes its rate; a new user starts at zero |
| Supervisor.BackendRuntime.MergeCarrierUsers | src/runtime/supervisor.rs:479-505 | one row for each port, the first, in any order |
| Supervisor.BackendRuntime.BuildTables | src/runtime/supervisor.rs:226-267 | the tables hold the ledgers' own objects for exactly the live users; existing objects and checkpoints are kept, and each bucket is what the user's rows make of it |
| Supervisor.BackendRuntime.EnsureActiveUser | src/runtime/supervisor.rs:320-382 | a listener with this fingerprint is left alone with its owner, any other one on the port is replaced by one of this row's user |
| Supervisor.BackendRuntime.ReconcileListeners | src/runtime/supervisor.rs:283-309 | the two loops reach the reconciled set of listeners |
| Supervisor.BackendRuntime.SyncUsers | src/runtime/supervisor.rs:216-318 | a failed poll changes nothing; a successful one publishes closed tables, leaves each ledger with exactly the live users, keeps every surviving user's objects, checkpoint and bucket contents up to rate changes, and reconciles the listeners |
| Reconciliation.WantedAreTargets | src/runtime/supervisor.rs:270-296 | in carrier mode a listener is wanted if and only if it is that of the first carrier row of its port, with a supported profile |
| Reconciliation.CarrierSync | src/runtime/supervisor.rs:270-309 | after a carrier-mode poll the active ports are exactly the targets, each with its fingerprint; a listener survives if and only if its fingerprint did not change, and any other is new and its row's user's |
| Reconciliation.NormalRowsTouchNoListener | src/runtime/supervisor.rs:257-309 | while the carrier rows stay the same, no change of users touches any listener |
| Reconciliation.DifferingNormalRowsRestart | src/runtime/supervisor.rs:276-309 | two normal rows with one port and different endpoints restart its listener on every poll |
| Reconciliation.OwnerAfterPoll | src/runtime/supervisor.rs:226-309 | after a poll a listener belongs to a live user if and only if it was not left alone or its owner is still among the rows' users |
| Reconciliation.RenumberedRowStrandsListener | src/runtime/supervisor.rs:320-358 | a row whose user id changes and endpoint does not leaves a listener whose owner is no live user |
| Lookups.LookupsSucceed | src/tcp.rs:214-245 | an authenticated user's counter is always found, whoever owns the listener, and no connection's IP set is missing |
| Lookups.CounterFoundAfterPoll | src/tcp.rs:214-219 | for any bytes in any segmentation that connect on a listener after a poll: the counter is found if and only if a user was identified, or the poll replaced the listener, or the listener's owner is still live |
| Lookups.CounterFoundForClient | src/tcp.rs:214-219 | for a client that holds the key for its uid, identified means that uid is registered |

## Left out

- Protocol.AuthAes128Md5.ServerPostDecrypt: leaves the state after an error open, because every caller drops the connection then.
- ServerCodec.ServerSession.Decrypt: leaves the state after an error open, for the same reason.
- Protocol.AuthAes128Md5.ReadAuthPacket: leaves the state after an error open, for the same reason.
- Protocol.AuthAes128Md5.ReadDataPacket: leaves the state after an error open, for the same reason.
- Handshake.AcceptClient: takes the socket's reads as a given sequence; time-outs are not modelled.
- Traffic.TrafficLedger.ReportTraffic: is a report no relay interferes with; interference is covered by the step machine, where each counter is read in a step of its own.
- Traffic.TrafficConservation: follows a user until it is removed; bytes that connections of a removed user still record go to a counter nobody reports.
- RateLimit.RateLimiter.AcquireAlone: says nothing of competing acquirers, who may keep one waiting for any length of time; the bounds for them are those over all interleavings.
- RateLimit.ChargedWithinSupply: is about exact reals, not 64-bit floating point, and the same goes for the Mbit conversion of a row.
- Devices.CountsAreLiveGuards: counts do not overflow; increments of `usize` are unbounded.
- Udp.EncryptPacket: takes the IV as a parameter, as does the constructor of a session.
- ChaCha20's block counter is unbounded; the panic at the end of its keystream is not modelled.
- The insides of MD5, HMAC, AES, base64 and ChaCha20.
- Sockets, DNS, connecting to targets, idle time-outs, semaphores, spawning and stopping of tasks.
- UDP associations and response pumps; the map that holds them is `TtlMap`.
- Panel HTTP and JSON, configuration, logging, signals, installation scripts.
- Audit rules, regular expressions and the event channels; the three maps of sessions, alive IPs and detect logs are each a `TtlMap`, and a poll's pruning of them is its `Retain`.
- Text forms of addresses, CIDR blocks and port lists; hosts are octets, and whether a domain is UTF-8 is an arbitrary predicate.
- Which log line a duplicate carrier row causes; the first row is kept either way.
- Checking a destination against forbidden ports and addresses beyond the block test itself.
