# A verified model of a small WebRTC server

This project models the server's own protocol logic in Dafny and proves what it is relied on for: the STUN
codec with its integrity and fingerprint rules, the ICE, DTLS and transport state machines, RTP and H.264
depacketisation, session routing, and the random generator behind ICE credentials. `dafny verify dfyconfig.toml`
checks all of it.

Code that works step by step is a class or a method with loops, as in the server; each such method is proved
against a specification on values, and the lemmas are about those specifications, for all inputs and all runs.

| file | contents |
|---|---|
| `Bytes.dfy` | octets, big-endian fields, padding, buffer writes |
| `Crc32.dfy` | table-driven CRC-32, bit-at-a-time reference, burst detection, residue |
| `Random.dfy`, `RandomDraws.dfy` | linear congruential generator, its period, draws and random strings |
| `StunGrammar.dfy` | the STUN message grammar (sections 6 and 15 of RFC 5389) and error detection on it |
| `StunMessage.dfy` | outgoing messages and the round trip |
| `StunAuth.dfy` | which keys and digests pass message integrity, and why FINGERPRINT does not matter to it |
| `StunLayout.dfy` | the wire format and the grammar in octets and numbers |
| `StunWriter.dfy`, `StunPacket.dfy` | the packet object: parse, authenticate, serialise on buffers |
| `IceServer.dfy`, `IceProperties.dfy` | the ICE-lite server and what its runs keep |
| `SrtpKeys.dfy`, `DtlsTransport.dfy` | keying material; DTLS transport with OpenSSL as an arbitrary oracle |
| `DtlsRuns.dfy`, `DtlsOutcomes.dfy` | its listener traces; when it connects, ends and delivers |
| `Connection.dfy`, `ConnectionRuns.dfy`, `WebRtcTransport.dfy` | ICE and DTLS composed: whole-connection safety, and what every run sends and creates |
| `RtpPacket.dfy`, `H264.dfy` | RTP layout, STAP-A and FU-A |
| `Session.dfy`, `SessionRuns.dfy` | username splitting, session routing, and which sessions can be reached |

## What is assumed

- HMAC-SHA1 is an arbitrary function from key and text to twenty octets, passed as a parameter.
- OpenSSL is an arbitrary oracle: per public call it chooses what is read, written and queued, the error and shutdown
  flags, the timeout, the suite and the exported block, and whether the info callback reports a finished handshake.
  The callback is taken not to fire inside `SSL_clear`, and the exporter to fill the block it is asked for.
- Datagrams handed to the transport and the session factory have at most 65532 octets (the server reads into
  4096-octet buffers, net/udp_server.cc:15); `NarrowingExact` and `LongMessageWraps` say why a bound is needed. Usernames
  have fewer than 513 octets (rtc/stun_packet.h:109) and methods twelve bits, as in every packet `Parse` can return.
- The transaction id and the mapped address, pointers in the source, are values here. Listener callbacks are recorded
  in the order they are made; the transport carries them out in that order, which no callback can tell apart because
  none of them calls back into the object that made it.
- Code and documentation differ in one place: the DTLS listener interface (rtc/dtls_transport.h:46-48) speaks of
  fingerprint verification before Connected, but the check is commented out (rtc/dtls_transport.cc:969-981).
  The model follows the code.

## Findings

Each is stated with its exact condition and shown at a concrete input.

- A request whose method is 0x80 to 0xFF is parsed and answered, but the answer starts with octet 3, which `IsStun`
  refuses. `ReplyReadsBack`: the answer can be read if and only if the method is below 0x80. `UnreadableRefusal`: a bare
  header with method 0x80. Binding requests, all that ICE sends, are not affected.
- An error code survives serialisation if and only if it is below 25600 and the message is an error response
  (`CarriedExactly`); 25600 itself reads back as 0 (`LeastLostCode`). This server passes 400 and 401 only
  (`RefusalCodes`), so nothing it sends is affected.
- The scan position is narrowed to sixteen bits, which is right if and only if the attribute ends within 65532 octets
  (`NarrowingExact`). In every well-formed message longer than that the scan is thrown back from the last attribute into
  the header (`LongMessageWraps`). The server reads into 4096-octet buffers, so no such message reaches it.
- An RTP packet with the padding bit set and nothing behind its header is accepted although section 5.1 of RFC 3550 has
  no such packet. `StandardExactly`: an accepted packet is a standard one if and only if it is not of that kind.
  `BarePaddingBitAccepted`: twelve octets that show it.
- A session whose fragment an earlier one drew is created but never reachable under any key, however many more follow;
  every other session stays reachable forever (`ReachableIffFirst`). From every seed this hits one of the first 36^4 + 1
  sessions (`SomeSessionUnreachable`) and all sessions numbered 2^30 or more (`LateSessionsUnreachable`).
- Padding behind a username is whatever the shared buffer held before, so the octets sent depend on earlier messages if
  and only if the username is not a whole number of words (`PaddingMatters`). The replies of this server carry no
  username (`SerializeReply`), so none of its messages has such padding.

## Model

| member | source | states |
|---|---|---|
| `Bytes.Set2Bytes` | common/utils.h:112-115 | overwrites two octets with the big-endian value and nothing else |
| `Bytes.Put2` | common/utils.h:93-95 | reading the two octets back gives the value |
| `Bytes.Get2Determines` | common/utils.h:93-115 | two octets are determined by the number they spell, so get and set are inverse both ways |
| `Bytes.GetPut4` | common/utils.h:101-128 | 4-octet set then get is the identity |
| `Bytes.Get4Determines` | common/utils.h:101-128 | 4-octet get then set is the identity |
| `Bytes.GetPut8` | common/utils.h:106-139 | 8-octet set then get is the identity |
| `Bytes.PadTo4Bytes` | common/utils.h:141-147 | equals rounding up to a multiple of four exactly while sixteen bits suffice, zero beyond |
| `Crc32.TableCorrect` | common/crypto.cc:16-50 | each of the 256 table entries is the bitwise remainder of its index |
| `Crc32.Shift8Linear` | common/utils.h:201-210 | eight shift steps are linear over exclusive or |
| `Crc32.TableStep` | common/utils.h:205-207 | one table lookup step equals eight bit steps |
| `Crc32.GetCRC32` | common/utils.h:201-210 | for every byte string the table loop returns the bit-at-a-time reflected CRC-32 |
| `Crc32.RegisterInjective` | common/utils.h:201-210 | equal bytes never merge two different register values |
| `Crc32.WindowDetected` | common/utils.h:201-210 | two different four-octet words never lead one register to the same value |
| `Crc32.BurstDetected` | common/utils.h:201-210 | any change confined to four adjacent octets changes the CRC |
| `Crc32.Residue` | common/utils.h:201-210 | a byte string followed by its own CRC, lowest octet first, has CRC 0x2144DF1C |
| `Crc32.CrcOfNothing` | common/utils.h:202-209 | the CRC of no octets is 0 |
| `Random.FullPeriod` | common/utils.h:170-176 | from every seed, n > 0 updates return to it if and only if 2^32 divides n |
| `Random.DoubledShape` | common/utils.h:176-176 | the 2^k-fold update is affine with multiplier 1 + 4*2^k*t and an odd multiple of 2^k as increment |
| `Random.Draw` | common/utils.h:178-183 | a draw stays within the corrected bounds for all arguments |
| `Random.Crypto.GetRandomUInt` | common/utils.h:170-184 | updates the seed once and returns the draw from the new seed |
| `RandomDraws.DrawBitsAre` | common/utils.h:183-183 | the masked bits are seed / 16 % 2^15 + 2^16 * (seed / 2^20) |
| `RandomDraws.DrawIs` | common/utils.h:178-183 | the draw in numbers, for bounds in order, out of order and at the largest number |
| `RandomDraws.DrawReaches` | common/utils.h:176-183 | every value within bounds less than 2^15 apart is drawn from some seed |
| `RandomDraws.FirstDraw` | common/utils.h:176-183 | from seed 0 the seed becomes 2531011 and the first draw out of 36 is 4 |
| `Random.SymbolsInAlphabet` | common/utils.h:188-196 | every drawn symbol is a digit or a lower-case letter |
| `Random.Crypto.GetRandomString` | common/utils.h:186-199 | length capped at 64, one update per symbol, all symbols in the alphabet |
| `RandomDraws.SymbolAt` | common/utils.h:194-196 | symbol i of a string is drawn from update i + 1 of the seed |
| `RandomDraws.EverySymbolDrawn` | common/utils.h:188-196 | every digit and lower-case letter is drawn from some seed |
| `RandomDraws.CredentialsAreConsecutive` | rtc/webrtc_transport.cc:10-11 | fragment and password together are the next 28 symbols of the stream |
| `Random.Crypto.GetCredentials` | rtc/webrtc_transport.cc:10-11 | fragment and password are the strings the seed gives, in either order of the two draws; 28 updates |
| `StunGrammar.DecodeWire` | rtc/stun_packet.cc:86-103 | decoding a list of padded attributes gives that list back |
| `StunGrammar.WireDecode` | rtc/stun_packet.cc:86-103 | what decodes is exactly the wire form of its attributes, so a tiling is unique |
| `StunGrammar.LastValueIsLast` | rtc/stun_packet.cc:130-245 | a field is read from the last attribute of its type, and is absent iff no attribute has the type |
| `StunGrammar.RulesSnoc` | rtc/stun_packet.cc:110-126 | the order and length rules, one attribute at a time, are the rules on the whole list |
| `StunGrammar.TypeFieldRoundTrip` | rtc/stun_packet.cc:510-516 | class and method survive interleaving; which pairs pass the first-octet test |
| `StunGrammar.ParsedIsGrammar` | rtc/stun_packet.cc:19-278 | a byte string is accepted iff it is a message of the grammar, and the packet is the one its unique attribute list gives |
| `StunGrammar.FingerprintAt` | rtc/stun_packet.cc:209-224 | an accepted FINGERPRINT is the last eight octets |
| `StunGrammar.IntegrityAt` | rtc/stun_packet.cc:194-207 | an accepted MESSAGE-INTEGRITY ends the message, or sits right before the FINGERPRINT |
| `StunGrammar.BurstIsVisible` | rtc/stun_packet.cc:260-275 | two accepted fingerprinted messages of equal length that differ only within four adjacent octets are equal |
| `StunGrammar.SingleByteIsVisible` | rtc/stun_packet.cc:260-275 | changing one octet of an accepted fingerprinted message makes it unacceptable as one |
| `StunMessage.UnmappedMapped` | rtc/stun_packet.cc:570-639 | un-XORing an encoded IPv4 or IPv6 address gives the address |
| `StunMessage.ErrorCodeRoundTrip` | rtc/stun_packet.cc:641-653 | the two octets decode to the code iff it is below 25600 |
| `StunMessage.ErrorOctets` | rtc/stun_packet.cc:646-651 | below 25600 the octets are 0, 0, the hundreds and the rest |
| `StunMessage.LeastLostCode` | rtc/stun_packet.cc:641-653 | code 25600 reads back as 0 |
| `StunMessage.FieldsRoundTrip` | rtc/stun_packet.cc:529-653 | every serialised field is read back from its own attribute |
| `StunMessage.RulesRoundTrip` | rtc/stun_packet.cc:529-695 | serialised attributes obey the parser's length and order rules |
| `StunMessage.MessageWire` | rtc/stun_packet.cc:448-698 | a serialised message is its header followed by the wire form of its attributes |
| `StunMessage.RoundTrip` | rtc/stun_packet.cc:448-698 | parsing a serialised message succeeds iff IsStun recognises its type, and returns exactly what was sent |
| `StunMessage.CarriedExactly` | rtc/stun_packet.cc:457-457 | nothing is lost except an error code outside an error response or from 25600 on |
| `StunMessage.PaddingIsSent` | rtc/stun_packet.cc:529-545 | two serialisations of one packet are equal only if the padding octets are |
| `StunMessage.PaddingMatters` | rtc/stun_packet.cc:529-545 | the octets sent are independent of the old buffer contents iff the username is a whole number of words |
| `StunMessage.SentVerifies` | rtc/stun_packet.cc:655-675 | a message serialised with a password verifies under it |
| `StunAuth.SentAuthenticates` | rtc/stun_packet.cc:358-412 | a serialised request or indication is authentic exactly under the fragments its username begins with and the keys giving its text the digest of its password; otherwise unauthorised |
| `StunAuth.DigestReplaced` | rtc/stun_packet.cc:194-275 | with any other digest an accepted message parses to the same packet, unless its FINGERPRINT gives it away |
| `StunAuth.OneDigest` | rtc/stun_packet.cc:399-403 | under every fragment and key, an authentic message with any other digest is unauthorised |
| `StunAuth.ChangedDigest` | rtc/stun_packet.cc:399-403 | one changed octet of the digest makes an authentic message unauthorised |
| `StunAuth.PlainText` | rtc/stun_packet.cc:389-399 | without FINGERPRINT exactly the octets before the attribute are hashed |
| `StunAuth.StrippedParses` | rtc/stun_packet.cc:209-275 | taking the FINGERPRINT off an accepted message changes nothing else about it |
| `StunAuth.StrippedAuthenticates` | rtc/stun_packet.cc:389-412 | the verdict is the same with and without FINGERPRINT, and so is the text that is hashed |
| `StunLayout.BigEndian2` | common/utils.h:93-115 | two octets spell 256 * first + second |
| `StunLayout.BigEndian4` | common/utils.h:101-128 | four octets, highest first |
| `StunLayout.BigEndian8` | common/utils.h:106-139 | eight octets are the high word, then the low word |
| `StunLayout.BindingTypes` | rtc/stun_packet.cc:510-516 | the four Binding types are 0x0001, 0x0011, 0x0101 and 0x0111 |
| `StunLayout.MappedOctets4` | rtc/stun_packet.cc:570-603 | the eight octets of an IPv4 address |
| `StunLayout.MappedOctets6` | rtc/stun_packet.cc:604-639 | the twenty octets of an IPv6 address |
| `StunLayout.MessageLayout` | rtc/stun_packet.cc:448-698 | every serialised message octet by octet: type numbers, lengths, order, integrity and checksum |
| `StunLayout.GrammarInNumbers` | rtc/stun_packet.cc:19-278 | the accepted messages in numbers: header, lengths per type, order, checksum |
| `StunMessage.ParsedFits` | rtc/stun_packet.cc:391-397 | where MESSAGE-INTEGRITY lies in an accepted packet, with and without FINGERPRINT |
| `StunWriter.SizeIsNeeded` | rtc/stun_packet.cc:464-508 | the size added up beforehand is the size written |
| `StunWriter.WriteAttr` | rtc/stun_packet.cc:531-545 | appends one attribute, leaves its padding octets and everything else as they were |
| `StunWriter.WriteAddress` | rtc/stun_packet.cc:570-639 | masking in the buffer yields the XOR-MAPPED-ADDRESS of section 15.2 of RFC 5389 |
| `StunPackets.NarrowingExact` | rtc/stun_packet.cc:247-249 | the sixteen-bit next position is right iff the attribute ends within 65532 octets |
| `StunPackets.LongMessageWraps` | rtc/stun_packet.cc:247-249 | in every well-formed message above 65532 octets the position behind the last attribute wraps back into the header |
| `StunPackets.ScanRejects` | rtc/stun_packet.cc:103-126 | each early rejection implies that no attribute list makes the message acceptable |
| `StunPackets.ScanAdvances` | rtc/stun_packet.cc:247-250 | the position stays aligned and in bounds, and strictly grows |
| `StunPackets.FieldsSnoc` | rtc/stun_packet.cc:130-245 | what one attribute changes in the packet |
| `StunPackets.StunPacket.constructor` | rtc/stun_packet.cc:282-290 | the given class, method, id and buffer, and no attribute |
| `StunPackets.StunPacket.TakeAttribute` | rtc/stun_packet.cc:130-245 | stores the value of a known type, or refuses its length; touches nothing else |
| `StunPackets.StunPacket.Parse` | rtc/stun_packet.cc:19-278 | returns a packet iff the grammar accepts the datagram, and then the grammar's packet; terminates, and ends at the message end |
| `StunPackets.StunPacket.CheckAuthentication` | rtc/stun_packet.cc:358-412 | hashes the text of section 15.4 of RFC 5389 for every accepted packet, and leaves every octet of the buffer as it was |
| `StunPackets.StunPacket.CreateSuccessResponse` | rtc/stun_packet.cc:414-421 | a success response with the request's method and transaction id and nothing else |
| `StunPackets.StunPacket.CreateErrorResponse` | rtc/stun_packet.cc:423-435 | an error response with the request's method and transaction id and the code |
| `StunPackets.StunPacket.Authenticate` | rtc/stun_packet.cc:437-446 | sets the password except on error responses |
| `StunPackets.StunPacket.Serialize` | rtc/stun_packet.cc:448-698 | the buffer holds exactly the specified message, ends at the computed size, and is untouched behind it |
| `IceServers.CompleteAuthentication` | rtc/ice_server.cc:85-140 | on a complete request authentication yields OK or unauthorised; the BAD_REQUEST branch is unreachable |
| `IceServers.IceServer.constructor` | rtc/ice_server.cc:18-22 | the given credentials, none saved, state new |
| `IceServers.IceServer.SetUsernameFragment` | rtc/ice_server.h:45-48 | saves the old fragment, changes nothing else |
| `IceServers.IceServer.SetPassword` | rtc/ice_server.h:49-52 | saves the old password, changes nothing else |
| `IceServers.IceServer.CheckCredentials` | rtc/ice_server.cc:85-125 | accepts under the current pair, else under the saved pair; success under the current one forgets the saved one |
| `IceServers.IceServer.ProcessStunPacket` | rtc/ice_server.cc:24-203 | state, replies and callbacks are those of the verdict; the packet buffer is unchanged |
| `IceServers.IceServer.HandleTuple` | rtc/ice_server.cc:205-212 | completes, and announces the tuple only the first time |
| `IceProperties.OneReplyPerRequest` | rtc/ice_server.cc:24-203 | exactly one message per parsed request, to its sender, and none for any other class |
| `IceProperties.ReplyReadsBack` | rtc/ice_server.cc:33-39 | the reply parses as a response with the request's method, id and the right code iff the method is below 0x80 |
| `IceProperties.UnreadableRefusal` | rtc/ice_server.cc:28-39 | a bare header with method 0x80 parses as a request, is refused with 400, and the refusal does not parse |
| `IceProperties.RefusalCodes` | rtc/ice_server.cc:33-139 | every refusal carries 400 or 401, which survive serialisation |
| `IceProperties.AddressComesBack` | rtc/ice_server.cc:161-175 | un-XORing the address of a success reply gives the sender |
| `IceProperties.AcceptedOnlyUnder` | rtc/ice_server.cc:85-140 | acceptance means a complete Binding request authentic under the current or the saved pair |
| `IceProperties.VerdictExactly` | rtc/ice_server.cc:24-183 | ignored, 400, 401 or accepted under which pair: each if and only if |
| `IceProperties.AcceptedCarries` | rtc/ice_server.cc:27-83 | an accepted request has attributes 0x0006, non-zero 0x0024 and 0x0008, and ends in 0x8028 |
| `IceProperties.SentIsAccepted` | rtc/ice_server.cc:85-125 | every complete request signed with the current or a saved pair is accepted |
| `IceProperties.RotationAcceptsBoth` | rtc/ice_server.h:45-52 | after both credentials change, requests under the old and under the new pair are accepted |
| `IceProperties.ReplyVerifies` | rtc/ice_server.cc:167-175 | the success reply verifies under the password that verified the request |
| `IceProperties.SavedPassword` | rtc/ice_server.h:45-52 | in every run a saved password was in force before the latest SetPassword, with no acceptance under the newer pair since |
| `IceProperties.OldPairRefused` | rtc/ice_server.cc:86-112 | in every run, after acceptance under the current pair the saved pair is refused until the next SetPassword |
| `IceProperties.CompletedIsFinal` | rtc/ice_server.cc:205-212 | in every run Completed is never left |
| `SrtpKeys.ExtractSrtpKeys` | rtc/dtls_transport.cc:1122-1203 | for both roles and every suite, the master keys are key and salt of the right side of the block |
| `SrtpKeys.Split` | rtc/dtls_transport.cc:1160-1196 | the four slices tile the exported block |
| `SrtpKeys.KeyAgreement` | rtc/dtls_transport.cc:1174-1203 | each peer's local key is the other's remote key, laid out as in section 4.2 of RFC 5764 |
| `SrtpKeys.KeyOctets` | rtc/dtls_transport.cc:1129-1196 | the slices of the 60-, 88- and 56-octet blocks each role takes as its keys |
| `DtlsTransports.DtlsTransport.constructor` | rtc/dtls_transport.h:175-179 | a new transport: no role, no handshake, nothing announced |
| `DtlsTransports.DtlsTransport.Run` | rtc/dtls_transport.cc:625-678 | keeps the quiescent invariant; state and callbacks as in the decision table |
| `DtlsTransports.DtlsTransport.SetRemoteFingerprint` | rtc/dtls_transport.cc:680-697 | stores the fingerprint and always succeeds: the deferred branch is unreachable |
| `DtlsTransports.DtlsTransport.ProcessDtlsData` | rtc/dtls_transport.cc:699-745 | keeps the quiescent invariant; state and callbacks as in the decision table |
| `DtlsTransports.DtlsTransport.SendApplicationData` | rtc/dtls_transport.cc:747-778 | keeps the quiescent invariant; state and callbacks as in the decision table |
| `DtlsTransports.DtlsTransport.Reset` | rtc/dtls_transport.cc:780-809 | a running transport becomes new, silently; any other is left alone |
| `DtlsTransports.DtlsTransport.CheckStatus` | rtc/dtls_transport.cc:811-899 | each outcome by pending handshake, broken connection and state |
| `DtlsTransports.DtlsTransport.SetTimeout` | rtc/dtls_transport.cc:924-963 | only entered while running, so its assertion holds; fails exactly from thirty seconds on |
| `DtlsTransports.DtlsTransport.ProcessHandshake` | rtc/dtls_transport.cc:965-1004 | connects with the extracted keys iff a suite was negotiated, else fails |
| `DtlsTransports.DtlsTransport.OnSslInfo` | rtc/dtls_transport.cc:1289-1293 | a finished handshake is remembered until looked at |
| `DtlsRuns.StepReplays` | rtc/dtls_transport.cc:625-778 | every call keeps the invariant, and its callbacks lead exactly from the old to the new state |
| `DtlsRuns.EveryRunReplays` | rtc/dtls_transport.cc:625-778 | after any calls and any OpenSSL behaviour the invariant holds and the callbacks alone determine the state |
| `DtlsRuns.EveryTraceShape` | rtc/dtls_transport.cc:625-1004 | every trace is (Connecting (Connected AppData*)? (Failed or Closed)?)*, Closed only after Connected |
| `DtlsOutcomes.DataWhileConnected` | rtc/dtls_transport.cc:699-963 | a connected transport closes iff there is a shutdown or fatal error and no handshake just finished, fails iff it does not close and the timeout is 30000 ms or more, else delivers |
| `DtlsOutcomes.DataWhileConnecting` | rtc/dtls_transport.cc:699-1004 | a connecting transport connects, fails or stays, each if and only if; and what the listener is told |
| `DtlsOutcomes.DataWhileStopped` | rtc/dtls_transport.cc:699-709 | any other transport does nothing |
| `DtlsOutcomes.AnnouncedKeysAgree` | rtc/dtls_transport.cc:1174-1209 | what one side announces as local key the other announces as remote |
| `DtlsOutcomes.RunOutcome` | rtc/dtls_transport.cc:625-678 | when starting does nothing, begins a round, or fails at once |
| `DtlsOutcomes.SendOutcome` | rtc/dtls_transport.cc:747-778 | when sending does nothing, flushes, or closes |
| `DtlsOutcomes.DeliveredExactly` | rtc/dtls_transport.cc:699-745 | in every run exactly the records decrypted in datagrams that leave the transport connected are delivered, in order |
| `Connections.DtlsReactions` | rtc/webrtc_transport.cc:156-181 | what a DTLS datagram makes the transport send and create |
| `Connections.StepSafe` | rtc/webrtc_transport.cc:72-89 | one datagram keeps the state and trace invariants |
| `Connections.EveryRunSafe` | rtc/webrtc_transport.cc:72-181 | DTLS is new iff ICE is not completed; address and session set at most once; DTLS goes out only to the set address and after it; ready iff a session exists |
| `Connections.OpenedByAuthenticRequest` | rtc/webrtc_transport.cc:140-144 | in every run the address is the sender of the first complete Binding request authentic under exactly the connection's credentials, and unset as long as there is none |
| `Connections.SilentUntilAuthenticated` | rtc/webrtc_transport.cc:72-181 | in every run without such a request DTLS stays new, no session is created, and only STUN replies go out |
| `Connections.StoppedForever` | rtc/webrtc_transport.cc:170-174 | in every run Failed and Closed are final |
| `ConnectionRuns.DtlsDatagram` | rtc/webrtc_transport.cc:86-89 | a datagram of 13 octets or more starting with 20 to 63 is processed by DTLS: queued output goes out, a finished handshake creates the session |
| `ConnectionRuns.StunDatagram` | rtc/webrtc_transport.cc:76-85 | a request is answered to its sender, an opening one sets the address and starts DTLS, nothing else happens |
| `ConnectionRuns.OtherDatagram` | rtc/webrtc_transport.cc:76-89 | neither parsed STUN nor DTLS: no effect |
| `ConnectionRuns.RepliesExactly` | rtc/webrtc_transport.cc:76-85 | in every run the STUN messages sent are exactly the replies to its requests, in order |
| `ConnectionRuns.ConnectingExactly` | rtc/webrtc_transport.cc:72-181 | in every run DTLS is connecting iff it was opened and no DTLS datagram since settled anything |
| `ConnectionRuns.SessionExactly` | rtc/webrtc_transport.cc:156-169 | in every run there is a session iff a DTLS datagram behind the opening finished the handshake with a suite while connecting, and it is that one's |
| `WebRtcTransports.WebRtcTransport.constructor` | rtc/webrtc_transport.cc:7-12 | a fresh connection under a fragment and a password drawn from the seed, in either order |
| `WebRtcTransports.WebRtcTransport.OnDtlsEvent` | rtc/webrtc_transport.cc:153-186 | the reaction to each DTLS callback |
| `WebRtcTransports.WebRtcTransport.OnIceServerSelectedTuple` | rtc/webrtc_transport.cc:140-144 | sets the address, then runs DTLS as server |
| `WebRtcTransports.WebRtcTransport.OnInputDataPacket` | rtc/webrtc_transport.cc:72-89 | state and effects are those of the connection step; the datagram buffer is unchanged |
| `RtpPackets.DecodeOfWire` | rtp/rtp_packet.cc:75-143 | every packet of the layout is accepted and read back as written |
| `RtpPackets.WireOfDecode` | rtp/rtp_packet.cc:75-143 | whatever is accepted is a packet of the layout |
| `RtpPackets.Exactness` | rtp/rtp_packet.cc:75-143 | acceptance is exactly the layout as coded, and the packet is unique |
| `RtpPackets.LeadInNumbers` | rtp/rtp_packet.cc:80-93 | version, padding, extension, source count, marker and type as numbers of the first two octets |
| `RtpPackets.LayoutInNumbers` | rtp/rtp_packet.cc:91-126 | where sequence number, timestamp, source, contributing sources, extension and payload lie |
| `RtpPackets.StandardExactly` | rtp/rtp_packet.cc:128-143 | a byte string is a packet of section 5.1 of RFC 3550 iff it is accepted and is not a set padding bit with nothing behind the header |
| `RtpPackets.BarePaddingBitAccepted` | rtp/rtp_packet.cc:128-143 | twelve octets that are accepted and are no packet of that section |
| `RtpPackets.RtpPacket.ReadHeader` | rtp/rtp_packet.cc:76-126 | fixed fields and payload offset, or refusal when the header does not fit |
| `RtpPackets.RtpPacket.ParseBuffer` | rtp/rtp_packet.cc:75-143 | accepts iff the decoder does, with its fields and payload bounds |
| `RtpPackets.RtpPacket.Parse` | rtp/rtp_packet.cc:44-51 | a packet of the layout is kept whole and the payload bounds cut exactly its payload out of it; a refused one is cleared and answered with false |
| `RtpPackets.RtpPacket.Clear` | rtp/rtp_packet.cc:53-62 | all fields at their initial values |
| `H264.ParseStapAStartOffsets` | rtp/video_rtp_depacketizer_h264.cc:49-69 | accepts iff the bytes are a list of length-prefixed units, and returns where each begins |
| `H264.StartsDelimit` | rtp/video_rtp_depacketizer_h264.cc:94-101 | consecutive offsets delimit exactly the units, in order and without underflow |
| `H264.CheckUnits` | rtp/video_rtp_depacketizer_h264.cc:97-129 | accepts iff every unit is non-empty and neither an aggregate nor a fragment; reads only inside the payload |
| `H264.ProcessStapAOrSingleNalu` | rtp/video_rtp_depacketizer_h264.cc:71-132 | STAP-A accepted iff it aggregates a non-empty list of such units; single units accepted iff not fragments |
| `H264.StapAInNumbers` | rtp/video_rtp_depacketizer_h264.cc:71-132 | the accepted aggregates with their types as numbers |
| `H264.FragmentParsed` | rtp/video_rtp_depacketizer_h264.cc:134-164 | header octet, data range, frame type and first flag of one fragment |
| `H264.FuaInNumbers` | rtp/video_rtp_depacketizer_h264.cc:134-164 | start flag, restored header octet, key flag and range of every fragment in numbers |
| `H264.Reassembly` | rtp/video_rtp_depacketizer_h264.cc:134-164 | for every unit and every cut, the fragments rebuild it and agree on the frame type |
| `H264.Depacketize` | rtp/video_rtp_depacketizer_h264.cc:168-184 | which payloads are accepted, by type |
| `Sessions.Find` | session/webrtc_session.cc:11-17 | the first occurrence from a position on, or that there is none |
| `Sessions.Split` | session/webrtc_session.cc:8-23 | the pieces joined with the delimiter are the input, and no piece holds the delimiter |
| `Sessions.JoinInjective` | session/webrtc_session.cc:8-23 | for a one-octet delimiter there is only one such list of pieces |
| `Sessions.RoutingAgrees` | session/webrtc_session.cc:86-97 | a username passing a registered session's prefix check is routed to it and passes no other's |
| `Sessions.AuthenticIsRouted` | session/webrtc_session.cc:86-97 | a datagram authentic for a registered session is routed to that session |
| `Sessions.SessionFactory.CreateWebRTCSession` | session/webrtc_session.cc:40-49 | the session gets the credentials the seed gives, and is registered iff that fragment is free; no key is rebound |
| `Sessions.SessionFactory.GetWebRTCSession` | session/webrtc_session.cc:51-63 | a registered session whose fragment is the key, and none only if no registered session has that fragment |
| `Sessions.SessionFactory.HandlePacket` | session/webrtc_session.cc:78-97 | the session a parsed datagram's username names, or none |
| `SessionRuns.BoundForever` | session/webrtc_session.cc:46-46 | over any number of creations a bound key keeps its first session |
| `SessionRuns.ReachableIffFree` | session/webrtc_session.cc:40-63 | some key returns a session, then and after any further creations, iff its fragment was free when it was drawn |
| `SessionRuns.KeysAreDrawn` | session/webrtc_session.cc:40-49 | the keys of the table are exactly the fragments drawn so far |
| `SessionRuns.ReachableIffFirst` | session/webrtc_session.cc:40-63 | some key returns a session iff no earlier session drew the same fragment |
| `SessionRuns.FragmentsRepeat` | common/utils.h:170-199 | from every seed, creation i + 2^30 draws the fragment of creation i |
| `SessionRuns.LateSessionsUnreachable` | session/webrtc_session.cc:40-63 | from every seed no session numbered 2^30 or more is ever returned |
| `SessionRuns.TableBounded` | session/webrtc_session.cc:46-46 | the table never holds more than 36^4 sessions |
| `SessionRuns.SomeSessionUnreachable` | session/webrtc_session.cc:40-63 | from every seed one of the first 36^4 + 1 sessions is never returned |

## Left out

- OpenSSL certificates, contexts and BIOs, libsrtp, muduo sockets and threads: foreign code, replaced by oracles or dropped.
- The DTLS timer: it is commented out in the source and never fires.
- The RTP receive path and `EncryptAndSendRtpPacket`: mostly libsrtp calls.
- Data races on the shared STUN buffer and HMAC context: each transport is modelled as single-threaded.
- Whether a network transport is attached when a packet is sent: only the calls to `SendPacket` are recorded.
- Frame type and packet pointer on the STAP-A and single-unit path: the source does not fill them in meaningfully.
- `RtpPackets.RtpPacket.Parse`: leaves the success flag arbitrary, because the source returns no value on success.
- `StunPackets.StunPacket.Parse`: leaves out datagrams with a valid header that announce 65536 octets or more, on which the scan need not end; no UDP datagram is that long.
- NTP time conversion, settings, logging, SDP text, file checks and example programs: easy or floating-point members.
