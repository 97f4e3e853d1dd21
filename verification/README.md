# x-tunnel: a verified model of its protocol core

x-tunnel is a tunnelling proxy. Most of it moves bytes between sockets; underneath are several
hand-written state machines, codecs and indexes. This project models those in Dafny and proves what
they promise, for every input, every run and every reachable state.

`dafny verify dfyconfig.toml` checks the whole project.

## The modules

| modules | what they model |
|---|---|
| `Bytes`, `Outcomes`, `Bits`, `Crypto` | byte strings, results, machine words, and the cryptographic primitives as function values with stated laws |
| `ReplayWindow` | the 2048-bit sliding bitmap, in the style of section 2 of RFC 6479 |
| `Records`, `RecordWriter`, `RecordReader`, `Framing`, `Session`, `KeyUse` | the v3 record layer: chunking, coalescing, padding, numbering, rekeying, re-framing, opening, replay filtering, and the messages above it |
| `Tlv`, `Channel`, `ChannelFrames`, `Transcript`, `Handshake`, `ServerRuns` | the handshake codec, the transcript, the steps of client and server, and whole runs of the server |
| `Tunnel` | the handshake and the record layer together |
| `NonceCache`, `Tai64nCache` | the server's two replay caches |
| `Datagram`, `Reassembly` | datagram codec, fragmentation and reassembly |
| `DnsNames`, `DnsQuery` | the two DNS name walkers (section 4.1.4 of RFC 1035), the query builder and the query sniffer |
| `GeoIp`, `GeoSite`, `Routing` | prefix search, the domain index, and the rule engine on top of them |
| `Pacer`, `EndpointPool` | the token-bucket pacer and the round-robin pool with its circuit breaker |

Objects that the program updates in place are classes here (`Window`, `Writer`, `Reader`, the caches,
`Reassembler`, `Engine`, `PacerWriter`, `Pool`); loops are loops with invariants. Each method is proved
against a function or predicate on values, and the theorems are about those.

## How to read the results

* **Record layer.** `RecordWriter.Writer.Valid` says that the plaintext in the records plus the coalesce
  buffer is everything written, that record `i` carries counter `i + 1`, that every envelope has 3 to
  1400 bytes, that the cached AEAD belongs to its generation, and that buffered bytes on an open stream
  have a pending timer until the counter has run out. `Session.RunWriter` runs any list of writes, timer firings, closes and
  switches of the padding and coalescing options. `Session.ReceiveArrivals` runs a reader on any mix of
  authentic, repeated, reordered and forged records. `Session.Converse` joins both ends: messages come out as they went in.
* **Handshake.** `Handshake.Agree` is completeness: delivered unchanged, both sides end with the same
  keys, cipher and capabilities. `Handshake.ClientAgreesWithServer` and `ServerAgreesWithClient` are the converse. A 32-byte hash that is
  injective cannot exist, so the converse concludes "both agree, or here are two concrete inputs
  of this run on which hash, MAC or key derivation collide". `ServerRuns.ServeAll` is about any number of
  connections, in whatever order they reach the cache. `Tunnel.Connect` goes on from the agreed keys to
  messages that arrive.
* **Fast against simple.** Bitmap against set, binary search with backward scan against linear scan, suffix index
  against rule scan, map-and-list caches against the history of calls.

Where a property that the code aims at does not hold on every input, the code is modelled as it
is, and the exact condition is proved:

* the clearing loop of the replay window counts with `s <= seq` in 64 bits and never ends for the
  number 2^64-1 (`ReplayWindow.ClearingLoopEnds`; `Stuck` says when that branch is taken, and a reader
  gets there only with an authentic record);
* a write on an open stream leaves buffered bytes without a timer exactly when no timer was pending and
  `counter + n > 2^64 - 1`, where `n` is the number of records the coalescing loop sends
  (`Sends(|coalesceBuf| + |p|)`), or on the direct path the number the flush before it sends
  (`Chunks(|coalesceBuf|)`); the timer itself does so exactly when `counter + Chunks(|coalesceBuf|) > 2^64 - 1`
  (`RecordWriter.Writer.Write` and `OnTimer`, with `RecordWriter.TimerLostAtOverflow` as a witness);
* an authentic init that comes again, and can be answered, is answered again exactly when the last storing
  of its triple has expired or at least as many triples as the cache holds were stored after it
  (`ServerRuns.RepeatIff`). Both happen: `ServerRuns.AnsweredTwiceAhead`, for stamps ahead of the clock, and
  `ServerRuns.AnsweredTwiceEvicted`. If a stamp is not ahead of the clock, only the second can
  (`ServerRuns.NeverAnsweredAgain`);
* a time stamp survives its codec exactly outside the 2^62 seconds before the epoch (`Tai64nCache.StampRoundTrip`);
* the two DNS walkers part at 128 pointers (`DnsNames.WalkersPart`, `DnsNames.WalkersAgree`);
* a payload survives the datagram codec if and only if it has at most 65535 bytes, and fragmentation if and
  only if 255 pieces can hold it (`Datagram.PayloadSurvivesIff`, `Datagram.FragmentsHoldPayloadIff`);
* a reject with code zero is sent with code 8 (`Channel.RejectRoundTrip`).

## Model

| member | source | states |
|---|---|---|
| ReplayWindow.IdxInjective | internal/wire/cipher_stream.go:47-88 | numbers less than 2048 apart share a bitmap bit only when they are equal |
| ReplayWindow.Window.Advance | internal/wire/cipher_stream.go:53-67 | moving the maximum up clears stale bits so that every number inside the new window is marked exactly when it was accepted |
| ReplayWindow.Window.CheckAndAdd | internal/wire/cipher_stream.go:47-88 | the bitmap accepts exactly what the plain set of accepted numbers accepts, and adds exactly that number |
| ReplayWindow.VerdictIff | internal/wire/cipher_stream.go:47-88 | over any run, a number is accepted iff it is positive, was not accepted before, and no accepted number is 2048 or more above it |
| ReplayWindow.NeverTwice | internal/wire/cipher_stream.go:47-88 | no run accepts a number twice |
| ReplayWindow.Window.StuckIff | internal/wire/cipher_stream.go:61-66 | a call gets stuck exactly when the largest number arrives, fresh, less than 2048 above an accepted one |
| ReplayWindow.Run | internal/wire/cipher_stream.go:47-88 | the bitmap driven through any run whose calls all return gives exactly the verdicts of the set |
| ReplayWindow.ClearingLoopEnds | internal/wire/cipher_stream.go:61-66 | the wrapping loop variable gets past its bound iff the bound is not 2^64-1 |
| Records.FramesOfConcat | internal/wire/cipher_stream.go:371-415 | cutting the inner stream into records undoes their concatenation |
| Records.HeaderDecides | internal/wire/cipher_stream.go:371-387 | a positive counter and a payload of 3 to 1400 bytes make a record of that length; any other header is consumed alone and refused |
| Records.SupportedHasKeyLen | internal/wire/protocol_v3.go:55-85 | exactly the supported ciphers have a key length |
| Records.StreamKeySize | internal/wire/protocol_v3.go:74-85 | a stream's keys have the 16 or 32 bytes its cipher needs |
| Records.JudgeSealed | internal/wire/cipher_stream.go:357-451 | an authentic record is delivered with its own plaintext when its number is fresh, refused otherwise |
| Records.ReaderDelivers | internal/wire/cipher_stream.go:357-451 | from any mix of authentic, repeated, reordered (across rekeys) and forged or malformed records, whatever counters these name, exactly the plaintexts of the authentic ones fresh on arrival are delivered; the others change nothing and stall nothing |
| Records.FlowsBelow | internal/wire/cipher_stream.go:435-439 | only an authentic record with the largest counter can keep a read from returning; a forged header counter cannot |
| Records.WriterStream | internal/wire/cipher_stream.go:184-262 | what a writer emitted, unchanged, is delivered entirely and in order, with no record refused |
| Session.NewStream | internal/wire/cipher_stream.go:151-182 | a stream is made iff the cipher is supported and both nonce prefixes have 4 bytes; its halves use opposite lanes and start empty |
| RecordWriter.Writer.FillEnvelope | internal/wire/cipher_stream.go:247-255 | the reused payload buffer holds length, plaintext and padding, whatever earlier records left in it |
| RecordWriter.Writer.UseGeneration | internal/wire/cipher_stream.go:199-215 | the AEAD used is the one of the generation computed from the counter, cached or not |
| RecordWriter.Writer.WriteRecord | internal/wire/cipher_stream.go:184-262 | one more record with exactly this plaintext under the next number, padded as the switch says, or nothing and the right error; the counter fails rather than wrapping |
| RecordWriter.Writer.Flush | internal/wire/cipher_stream.go:264-277 | nothing lost or reordered; it fails iff the numbers left are fewer than the records the buffer needs, and empties the buffer otherwise |
| RecordWriter.Writer.OnTimer | internal/wire/cipher_stream.go:279-288 | the timer leaves a closed stream alone and flushes an open one, which stays without a timer iff the numbers run out on its buffer |
| RecordWriter.Writer.WriteChunks | internal/wire/cipher_stream.go:309-322 | the chunk loop takes a prefix of the input, all of it iff there are numbers enough for its records |
| RecordWriter.Writer.WriteDirect | internal/wire/cipher_stream.go:303-322 | the direct path with its flush: when it fails, how much it takes, and when the buffer stays |
| RecordWriter.Writer.Drain | internal/wire/cipher_stream.go:329-340 | the loop sends record after record while 1024 bytes or more are buffered, and holds back exactly the last bytes; it fails iff the numbers run out |
| RecordWriter.Figures | internal/wire/cipher_stream.go:24-34 | the sizes in figures: 1398 bytes to a record, nothing sent of fewer than 1024 buffered bytes, and how many of n are held back |
| RecordWriter.Writer.Buffer | internal/wire/cipher_stream.go:326-340 | all bytes are taken; what is held back is the end of the buffer and the new bytes, everything if that is fewer than 1024 |
| RecordWriter.Writer.WriteCoalesced | internal/wire/cipher_stream.go:326-354 | a small write sends no record, is appended to the buffer and leaves a timer; the timer is pending iff something is held back, and untouched on failure |
| RecordWriter.Writer.Write | internal/wire/cipher_stream.go:291-354 | invariant kept; count, error, bytes taken, bytes held back and records sent in every case, the error and a lost timer each iff a condition on the state before the call |
| RecordWriter.Writer.Close | internal/wire/cipher_stream.go:454-466 | closing stops the timer and empties the buffer iff there are numbers enough for it |
| RecordWriter.TimerLostAtOverflow | internal/wire/cipher_stream.go:326-354 | witness: with the counter exhausted a large write stays buffered with no timer |
| RecordReader.Reader.TakeFrame | internal/wire/cipher_stream.go:371-415 | exactly the next record is taken off the inner stream |
| RecordReader.Reader.OpenInto | internal/wire/cipher_stream.go:389-433 | authentication with the key of the record's generation, into a reused buffer that holds nothing undelivered |
| RecordReader.Reader.Admit | internal/wire/cipher_stream.go:389-439 | a record is admitted iff the reference judgement does not refuse it; only then does the window change |
| RecordReader.Reader.NextRecord | internal/wire/cipher_stream.go:371-447 | everything still to be delivered is unchanged by bringing in a record, whatever it is |
| RecordReader.Reader.Read | internal/wire/cipher_stream.go:357-451 | bytes handed out followed by bytes still to come equal what was to come before: no byte lost, repeated, invented or overwritten |
| Framing.RoundTrip | internal/wire/protocol.go:102-225 | each framed message reads back equal and leaves exactly the bytes after it |
| Session.RunWriter | internal/wire/cipher_stream.go:184-466 | over any run of writes, timer firings, option changes and close the writer holds exactly what was written, and after close a reader gets all of it |
| Session.FlushedStream | internal/wire/cipher_stream.go:264-277 | with an empty buffer, the reader's stream of the emitted bytes is every byte taken |
| Session.RunReader | internal/wire/cipher_stream.go:357-451 | any sequence of reads with buffers of any size, going on after errors, hands out the stream in order |
| Session.ReadToEnd | internal/wire/cipher_stream.go:357-451 | reading until the end of the stream terminates and hands out all of it |
| Session.ReceiveArrivals | internal/wire/cipher_stream.go:357-451 | the reader itself, on any mix of authentic, repeated, reordered and forged records, hands out exactly the fresh plaintexts |
| Session.ReadFull | internal/wire/protocol.go:253-260 | a full read succeeds iff it got all its bytes, which it does when that many are ahead and no record ahead is refused |
| Session.ReadMessage | internal/wire/protocol.go:115-325 | a message that is read is the one the stream will deliver next, whatever follows it; with no refused record ahead, failing means the stream holds none |
| Session.Send | internal/wire/protocol.go:102-225 | sending a message appends its wire form to what the writer took |
| Session.Converse | internal/wire/cipher_stream.go:184-466 | messages framed, written, coalesced, padded, sealed, carried, opened, filtered and parsed arrive as they were sent |
| KeyUse.KeyInfoInjective | internal/wire/protocol_v3.go:809-838 | equal key-derivation info means the same direction, stream, cipher and generation |
| KeyUse.GenerationIsRun | internal/wire/cipher_stream.go:199-203 | the generation of a record is the run of an interval's length that its number falls into |
| KeyUse.RekeyIff | internal/wire/cipher_stream.go:199-215 | two records of a lane share key-derivation info iff their numbers fall into the same run |
| KeyUse.RekeyedInTime | internal/wire/cipher_stream.go:199-215 | records an interval or more apart never share it |
| KeyUse.StreamKeyBinds | internal/wire/protocol_v3.go:809-838 | equal stream keys come from the same seed and derivation info, or HKDF collides on them |
| KeyUse.NonceInjective | internal/wire/cipher_stream.go:240-242 | equal nonces mean equal counters, and the same direction unless the two prefixes are equal |
| KeyUse.NoPairReused | internal/wire/cipher_stream.go:193-260 | any two records emitted by the writers of a session are sealed under their own numbers and differ in key-derivation info or nonce |
| KeyUse.RunSession | internal/wire/cipher_stream.go:184-466 | any number of streams, in both directions and across rekeys, driven through any interleaving of writes, timers, option changes and closes: no two records share key-derivation info and nonce |
| Tlv.SplitIff | internal/wire/protocol_v2.go:189-215 | a body decomposes into complete records in at most one way |
| Tlv.ParseIff | internal/wire/protocol_v2.go:189-215 | parsing succeeds iff the body is a concatenation of complete records with no known type twice and no unknown critical type; the result is exactly its known records |
| Tlv.Parse | internal/wire/protocol_v2.go:189-215 | the loop that shrinks the body computes the reference parse, error cases included |
| Tlv.Encode | internal/wire/protocol_v2.go:217-233 | the buffer loop yields the concatenation of the records, or the first oversized record's error |
| Tlv.RoundTrip | internal/wire/protocol_v2.go:189-233 | parsing undoes encoding on distinct known types |
| Channel.InitRoundTripV3 | internal/wire/protocol_v3.go:228-378 | every ChannelInit the v3 encoder accepts decodes to itself |
| Channel.DecodedInitIsValid | internal/wire/protocol_v3.go:280-378 | whatever the v3 decoder accepts is a valid init |
| Channel.V3BodyRefusedByV2 | internal/wire/protocol_v2.go:280-343 | the v2 decoder refuses every v3 init body |
| Channel.V2BodyRefusedByV3 | internal/wire/protocol_v3.go:280-378 | the v3 decoder refuses every v2 init body |
| Channel.AcceptRoundTripV3 | internal/wire/protocol_v3.go:388-504 | every ChannelAccept the v3 encoder accepts decodes to itself, with any of its optional records |
| Channel.DecodedAcceptIsValid | internal/wire/protocol_v3.go:434-504 | whatever the accept decoder accepts is valid, and an optional record of a wrong length is refused |
| Channel.RejectRoundTrip | internal/wire/protocol_v2.go:455-486 | a reject decodes to itself, except that code 0 becomes "malformed frame" |
| ChannelFrames.FrameRoundTrip | internal/wire/protocol_v3.go:159-207 | a written frame reads back equal, exactly its bytes are consumed, and a reader of another version refuses it |
| ChannelFrames.FrameReadIff | internal/wire/protocol_v3.go:180-207 | a frame and a rest are read iff the bytes are that frame's header and body, of the reader's version and within its limit, followed by the rest |
| ChannelFrames.TypeDecides | internal/wire/protocol_v3.go:217-226 | the type byte decides what a message is read as, and any other type is refused |
| ChannelFrames.InitMessage | internal/wire/protocol_v3.go:209-226 | a written ChannelInit message reads back equal, consuming exactly its bytes |
| ChannelFrames.AcceptMessage | internal/wire/protocol_v3.go:380-521 | the same for ChannelAccept |
| ChannelFrames.RejectMessage | internal/wire/protocol_v3.go:506-529 | the same for ChannelReject with a non-zero code |
| Transcript.Check | internal/wire/protocol_v3.go:572-613 | the checks accept exactly the valid fields |
| Transcript.Fill | internal/wire/protocol_v3.go:571-651 | the buffer filled by offsets is the transcript layout, or an error exactly for an invalid field |
| Transcript.LayoutInjective | internal/wire/protocol_v3.go:571-651 | the transcript determines every field it covers, and an init transcript never equals a full one |
| Handshake.AuthKeyBinds | internal/wire/protocol_v3.go:676-717 | the proof key depends on the token: equal keys for a server name mean equal tokens, or a step of HKDF collides on them |
| Handshake.ProofBinds | internal/wire/protocol_v3.go:676-729 | equal proofs are over the same token and transcript, unless hash, MAC or a step of HKDF collides on the values used |
| Handshake.AllZero | internal/wire/protocol_v3.go:800-806 | the loop finds exactly the all-zero string |
| Handshake.SharedSecretIff | internal/wire/protocol_v3.go:130-149 | a shared secret is accepted iff both keys have 32 bytes and it is not all zeros |
| Handshake.DeriveBinds | internal/wire/protocol_v3.go:739-789 | equal session seeds come from the same token, transcript hash and shared secret, unless a step of HKDF collides on them |
| Handshake.PrefixesFromSeed | internal/wire/protocol_v3.go:739-789 | each direction's nonce prefix is expanded from the seed under that direction's label |
| Handshake.FirstSupported | internal/wire/protocol_v3.go:103-113 | the negotiated cipher is the first supported one of the preference list, none iff there is none |
| Handshake.NegotiateCipher | internal/wire/protocol_v3.go:103-113 | the loop finds that cipher |
| Handshake.HelloArrives | internal/app/client.go:522-556 | every well-formed hello can be sent, is read back as sent and carries a proof that verifies, whatever its padding |
| Handshake.HelloFields | internal/app/client.go:522-552 | the init that goes out carries the hello's own values, the current capabilities bit by bit, and the padding |
| Handshake.RequiredBits | internal/wire/protocol_v2.go:120-125 | which capabilities are required, bit by bit |
| Handshake.ServerAnswers | internal/app/server.go:814-931 | the server answers an init iff it has the required capabilities, with an accept it can send, whose proof and keys are over the same transcript |
| Handshake.ServerOffers | internal/app/server.go:814-931 | the accept offers exactly the capabilities both sides have, the client's first supported cipher, and the server's own nonce, time and limits |
| Handshake.ClientFollows | internal/app/client.go:557-601 | the client derives from that accept what the server derived |
| Handshake.ClientFinishesIff | internal/app/client.go:557-601 | a client finishes iff it reads an accept with every required capability, a secret that is not zero and a valid proof, and ends with that accept's capabilities and cipher |
| Handshake.Serve | internal/app/server.go:753-931 | the server answers iff every check passes, and refuses as a replay iff an authentic init's triple is held; an unauthenticated init leaves both caches unchanged, an authentic one is remembered |
| Handshake.Agree | internal/app/server.go:753-931 | both sides finish with equal keys, cipher and capabilities, fit for the record layer, when messages arrive unchanged and freshness checks pass |
| Handshake.ClientAgreesWithServer | internal/app/client.go:557-601 | a client that accepts a proof made by a server run agrees with it on configuration, every transcript field, cipher and keys, or a primitive collides |
| Handshake.ServerAgreesWithClient | internal/app/server.go:787-787 | a server that finds valid a proof which a client made agrees with it on token, name, path and every covered field of the init, or a primitive collides |
| Handshake.SeedBinds | internal/wire/protocol_v3.go:739-789 | two finished handshakes with the same seed have the same token, shared secret and transcript, field by field, or a primitive collides |
| Handshake.SameSeedSameHandshake | internal/wire/protocol_v3.go:739-789 | the same for a client run and a server run |
| Tunnel.OverAgreedKeys | internal/wire/cipher_stream.go:151-466 | ends made from equal keys use the same lane in each direction, for any stream ID, so messages sent by either side arrive as they were sent |
| Tunnel.Connect | internal/app/client.go:522-601 | from the hello to the last message: the handshake succeeds and messages over the agreed keys arrive, in either direction, unless the counter has run out |
| NonceCache.AfterKeeps | internal/app/server.go:52-82 | only a call that stores a triple makes a live entry older, and by one place |
| ServerRuns.ServeAll | internal/app/server.go:753-931 | the server driven from any state through any requests and clock readings: each result is a refusal as a replay, or an answer, iff the reference run says so, and the nonce cache holds just what that run holds |
| ServerRuns.RepeatRefused | internal/app/server.go:52-82 | whatever the clock does, a repeat is refused while its triple has not expired at any authentic request in between and fewer triples than the bound were stored since; unauthenticated requests and refused replays count for nothing |
| ServerRuns.ReplayIff | internal/app/server.go:753-804 | since the server started, under a clock that does not go back for authentic requests, one is refused as a replay iff an earlier one stored its triple, that has not expired, and fewer triples than the bound were stored since |
| ServerRuns.RepeatIff | internal/app/server.go:753-931 | the same for one repeat: refused iff the last storing of its triple has not expired and fewer than the bound were stored since, and otherwise answered like a new init |
| ServerRuns.AnsweredIsFresh | internal/app/server.go:762-812 | whatever is answered carries a valid proof and two stamps at most a skew away from the clock |
| ServerRuns.NeverAnsweredAgain | internal/app/server.go:753-812 | an init with a stamp not ahead of the clock when it is answered is not answered again, however late, until as many triples as the bound were stored after it |
| ServerRuns.PresentTwice | internal/app/server.go:753-931 | a hello presented twice in a row is answered twice iff its triple has expired and its stamps are still on time, which takes stamps ahead of the clock |
| ServerRuns.AnsweredTwiceAhead | internal/app/server.go:753-931 | witness: an init made a skew ahead of the clock is answered again once its triple has expired |
| ServerRuns.AnsweredTwiceEvicted | internal/app/server.go:75-80 | witness: with room for one triple, inits A, B, A at one clock reading are all answered |
| NonceCache.Cache.Purge | internal/app/server.go:55-68 | the filter that writes over the list it is reading drops exactly the expired triples from list and map |
| NonceCache.Cache.SeenOrStore | internal/app/server.go:52-82 | list duplicate-free, equal to the map's keys, within its bound; "seen" iff an unexpired entry is held; new contents in full |
| NonceCache.ReportsIff | internal/app/server.go:52-82 | over any run with a clock that does not go back, "seen" iff the triple was stored, has not expired, and fewer than the bound were stored since |
| NonceCache.ReportsByCall | internal/app/server.go:52-82 | the same in terms of the calls that stored |
| NonceCache.SeenOnlyIfStored | internal/app/server.go:52-82 | whatever the clock does, "seen" is reported only for a triple that an earlier call stored |
| NonceCache.SeenWhileLive | internal/app/server.go:52-82 | whatever the clock does, a stored triple is reported while it has not expired at any call and fewer than the bound were stored since |
| NonceCache.HeldIff | internal/app/server.go:52-82 | a triple just stored is held at another time iff it has not expired by then |
| NonceCache.Run | internal/app/server.go:52-82 | the cache driven through any run reports just that |
| Tai64nCache.Cache.CheckAndStore | internal/app/tai64n_cache.go:45-89 | accepted iff the session has 16 bytes and the stamp is timely; list and map stay in bijection; a rejected call changes nothing |
| Tai64nCache.Cache.Refresh | internal/app/tai64n_cache.go:65-69 | a known session moves to the front with its new stamp, the others keep their order |
| Tai64nCache.StampRoundTrip | internal/wire/protocol_tai64n.go:16-43 | a stamp is decoded to the time it was made from iff that is not in the 2^62 seconds before the epoch |
| Tai64nCache.DecodedIsStamp | internal/wire/protocol_tai64n.go:29-43 | only stamps of times are decoded, each to its own time |
| Tai64nCache.StampTimelyIff | internal/app/tai64n_cache.go:45-60 | a stamp is timely iff its time is at most a skew away from the clock, either way |
| Tai64nCache.HoldsMostRecent | internal/app/tai64n_cache.go:45-89 | after any calls the cache is the most recently accepted distinct sessions, newest first, up to its capacity |
| Tai64nCache.Run | internal/app/tai64n_cache.go:45-89 | the linked list and map driven through any run hold just that |
| Datagram.EncodesIff | internal/transport/datagram.go:43-93 | a frame encodes iff its address has the size of its kind, with the right error otherwise |
| Datagram.DecodeEncode | internal/transport/datagram.go:43-154 | every frame that encodes decodes to itself, with its payload cut to the 16-bit length and a fragment total of 0 read as 1 |
| Datagram.PayloadSurvivesIff | internal/transport/datagram.go:43-154 | the payload survives the codec iff it has at most 65535 bytes |
| Datagram.EncodeDatagram | internal/transport/datagram.go:43-93 | the buffer filled by offsets is the encoding, or its error |
| Datagram.Fragment | internal/transport/datagram.go:157-185 | the loop yields the pieces of the payload, at most 255 |
| Datagram.FragmentsFit | internal/transport/datagram.go:157-185 | a split payload goes into pieces of one to max bytes, numbered in order, that differ in nothing else |
| Datagram.KeyIff | internal/transport/datagram.go:229-229 | the queue tells packets apart by association and packet number, and by nothing else |
| Datagram.FragmentsHoldPayloadIff | internal/transport/datagram.go:157-185 | the pieces concatenate to the payload iff 255 of them can hold it |
| Datagram.Reassembler.Cleanup | internal/transport/datagram.go:269-276 | exactly the expired entries are deleted |
| Datagram.Reassembler.StitchAll | internal/transport/datagram.go:248-262 | the fragments are joined in order of their numbers |
| Datagram.Reassembler.Add | internal/transport/datagram.go:219-267 | queue and outcome of a call in every case, with the queue within its bound |
| Reassembly.ReachableSound | internal/transport/datagram.go:219-276 | in every reachable queue each entry holds at least one and fewer than its total of fragments, and the queue keeps its bound |
| Reassembly.CleanupStep | internal/transport/datagram.go:269-276 | a cleanup takes the packet's entry iff it has expired |
| Reassembly.OwnStep | internal/transport/datagram.go:219-267 | a piece is refused iff it has neither a live entry nor room for one, and otherwise completes its packet iff it is the last one missing |
| Reassembly.OtherStep | internal/transport/datagram.go:219-276 | anything else leaves the packet's progress alone, unless it cleans up an entry that has expired |
| Reassembly.RunTracks | internal/transport/datagram.go:219-276 | over any run, from any queue and with any clock, whatever expires or is refused, the queue holds exactly the packet's progress |
| Reassembly.ReassembledExactlyWhenComplete | internal/transport/datagram.go:219-276 | from any queue, among any other traffic and with any clock: the original frame is returned exactly by a call with the last piece missing from a live entry, and refusal and waiting exactly otherwise |
| Reassembly.UndisturbedOutcome | internal/transport/datagram.go:219-276 | with the pieces within one ttl of the first since the last completion and room for that one, the frame is returned exactly by the call with the last missing piece |
| Reassembly.AloneIsUndisturbed | internal/transport/datagram.go:219-276 | every packet meets that condition when its pieces reach an empty reassembler within one ttl, in any order and repeated |
| Reassembly.RoomWhenFewPackets | internal/transport/datagram.go:232-246 | there is room whenever fewer packets than the bound queued something in the last ttl |
| Reassembly.Run | internal/transport/datagram.go:219-276 | the reassembler driven from any state through any traffic returns the outcomes and holds the queue of the reference run |
| Reassembly.Carry | internal/transport/datagram.go:43-276 | fragmented, encoded, carried in any order and repeatedly among other packets, decoded and added to a reassembler in use: each piece gets the outcome that is due, and undisturbed the original frame comes back exactly with each last missing piece |
| Reassembly.PieceSurvivesWire | internal/transport/datagram.go:43-185 | every piece that encodes decodes to itself |
| DnsNames.ParseName | internal/app/dnssniff.go:129-176 | the loop with its hop count terminates and yields labels and length of the reference walk |
| DnsNames.SkipName | internal/app/tls_ech_dns.go:383-429 | the loop with its visited set terminates and yields the in-place end, iff the walk repeats no offset |
| DnsNames.EndsUnique | internal/app/tls_ech_dns.go:383-429 | a walk has one length and one number of pointers |
| DnsNames.WalkersAgree | internal/app/dnssniff.go:129-176 | the skipper succeeds iff the walk ends, the parser iff it ends with fewer than 128 pointers, and then both name the same end |
| DnsNames.WalkersPart | internal/app/dnssniff.go:129-176 | a message on which with 128 pointers the skipper succeeds and the parser fails, and with 127 both succeed |
| DnsQuery.BuildQuery | internal/app/tls_ech_dns.go:271-316 | a query is built iff the normalised name is valid, and it is sniffed back as that name |
| DnsQuery.JoinSplit | internal/app/tls_ech_dns.go:271-285 | joining undoes splitting at dots |
| DnsQuery.LabelsReadBack | internal/app/dnssniff.go:129-176 | labels written in sequence are read back without any pointer |
| DnsQuery.SniffUndoesBuild | internal/app/dnssniff.go:34-55 | sniffing a built query gives back the name it was built for |
| DnsQuery.SniffQuery | internal/app/dnssniff.go:34-55 | the code sniffs exactly what the reference does: short messages, responses, empty questions and the root name give nothing |
| DnsQuery.ValidateName | internal/app/tls_ech_dns.go:291-316 | the loops over labels and characters accept exactly the valid names |
| DnsQuery.QuestionReadBack | internal/app/tls_ech_dns.go:271-285 | behind the name a built query holds the type it was built for and class 1, and then it ends |
| GeoIp.MaskedIsLeast | internal/route/geodata.go:145-159 | masking keeps a prefix's addresses and gives the least of them, itself one of them |
| GeoIp.CidrCoversIff | internal/route/geodata.go:145-159 | a CIDR covers an address iff both have the same family, its length fits and the bits it names are the same, bit by bit |
| GeoIp.UpperBound | internal/route/geodata.go:180-195 | binary search finds the boundary between addresses not above and above |
| GeoIp.FamilyFirst | internal/route/geodata.go:163-163 | a sorted list holds all IPv4 prefixes before all IPv6 ones |
| GeoIp.Contains | internal/route/geodata.go:180-195 | search and backward scan answer iff some stored prefix contains the address, both families mixed |
| GeoIp.MaskAll | internal/route/geodata.go:145-159 | the loop keeps every valid prefix, masked, in order |
| GeoIp.Sort | internal/route/geodata.go:163-163 | a sorted permutation in the family-first order |
| GeoIp.SortKeepsCover | internal/route/geodata.go:163-164 | any sort of masked prefixes covers the same addresses |
| GeoIp.Load | internal/route/geodata.go:129-167 | the loaded maps represent the file |
| GeoIp.Lookup | internal/route/geodata.go:180-195 | the answer for a category and address, in terms of the file alone |
| GeoSite.SuffixMatchIff | internal/route/matcher.go:151-162 | a suffix matches iff it is the host or what follows one of its dots |
| GeoSite.Build | internal/route/geoindex.go:33-53 | the index holds exactly the rules, by kind |
| GeoSite.SuffixHit | internal/route/geoindex.go:59-94 | walking the host's dots finds a suffix iff some stored suffix matches |
| GeoSite.Match | internal/route/geoindex.go:59-94 | the index answers exactly as a linear scan of the rules |
| Routing.KeepAll | internal/route/geodata.go:54-84 | the loop keeps every domain with a value, in lower case |
| Routing.LoadSites | internal/route/geodata.go:54-84 | the loaded categories represent the file |
| Routing.Engine.Test | internal/route/matcher.go:78-122 | a rule is found to apply iff it does, by kind and data files |
| Routing.Engine.Hit | internal/route/matcher.go:136-146 | exactly one counter goes up, the one of the rule's action |
| Routing.TrailingDot | internal/route/matcher.go:61-61 | one trailing dot of the host makes no difference |
| Routing.LiteralHost | internal/route/matcher.go:63-67 | a host that is an address literal is matched by that address and by address rules alone |
| Routing.Engine.Match | internal/route/matcher.go:60-133 | the first applicable rule in file order, or else the default; exactly one counter goes up, and which; the four always sum to the number of calls |
| Pacer.PacerWriter.Write | internal/app/pacer.go:47-84 | tokens, clock and release time after a write |
| Pacer.Step | internal/app/pacer.go:47-84 | one write keeps tokens in the bucket and the budget, even behind a future release |
| Pacer.ReleaseIsLeast | internal/app/pacer.go:47-84 | a write is released exactly at the first time when the bucket holds its bytes, and takes just those |
| Pacer.RunIsSane | internal/app/pacer.go:47-84 | the same over every run |
| Pacer.ReleasesInOrder | internal/app/pacer.go:47-84 | release times never go backwards |
| Pacer.BudgetKept | internal/app/pacer.go:47-84 | bytes released by any time t are at most burst + rate * (t - start) |
| Pacer.Run | internal/app/pacer.go:47-84 | the pacer driven through any run releases at just those times |
| EndpointPool.Pool.constructor | internal/transport/rotation.go:34-58 | defaults, and a healthy endpoint for each non-empty address |
| EndpointPool.Pool.AddEndpoint | internal/transport/rotation.go:61-77 | a new address is appended, an empty or known one changes nothing |
| EndpointPool.Pool.SelectNext | internal/transport/rotation.go:80-120 | the next available endpoint in turn, or else the one whose failure is oldest; the new state in full |
| EndpointPool.Pool.RecordResult | internal/transport/rotation.go:123-147 | only the first endpoint with the address changes; unhealthy still implies failures at or above the threshold |
| EndpointPool.Pool.HealthyCount | internal/transport/rotation.go:150-162 | the number of available endpoints |
| EndpointPool.Apply | internal/transport/rotation.go:61-147 | every call does to the pool what the reference step does to its endpoints and index |
| EndpointPool.CountersAreLedger | internal/transport/rotation.go:61-147 | over any run of calls an endpoint's counters, last failure and round-trip time are just what was recorded for its address |
| EndpointPool.BreaksAtThreshold | internal/transport/rotation.go:123-147 | fewer than the threshold of failures in a row never take an endpoint out; right after a failure it is out iff there were that many |
| EndpointPool.ProbationStays | internal/transport/rotation.go:61-147 | no call but a recorded success ends an endpoint's probation |
| EndpointPool.RetryThenFail | internal/transport/rotation.go:80-147 | an endpoint that was out is selected again; after any calls short of a success for it, one failure makes it unavailable for a whole cooldown |
| EndpointPool.RoundIsFair | internal/transport/rotation.go:80-120 | with the k available endpoints fixed, any k turns pick k different ones, all available |
| EndpointPool.SelectRound | internal/transport/rotation.go:80-147 | the pool itself, with any results recorded between selections: k selections among k available endpoints return k different available addresses |

## Left out

- The insides of SHA-256, HMAC, HKDF, X25519, AES-GCM and ChaCha20-Poly1305, and randomness: the primitives are function values with the laws in `Crypto`, random choices are parameters.
- ReplayWindow.Run: excludes exactly the calls that do not return (see ReplayWindow.Window.StuckIff); CheckAndAdd does the same.
- RecordReader.Reader.Read: excludes exactly the read that does not return, of an authentic record whose number the window gets stuck on; errors of the inner stream other than its end are not modelled.
- Records.ReaderDelivers: a forged record is one that is malformed or does not open under the key and nonce its header names, which is the integrity assumption on AEAD.
- RecordWriter.Writer.WriteRecord: a failing or partial write on the inner stream (`writeAllCount`, `writeAllString`) is not modelled.
- KeyUse.NoPairReused: streams are told apart by direction and stream ID, as the key-derivation info does; that distinct streams get distinct IDs is the multiplexer's promise.
- Session.NewStream: session keys have a 32-byte seed, as DeriveV3SessionSeed makes it; StreamKey's error for other sizes is not modelled.
- Handshake.ClientAgreesWithServer: capabilities, server time, limits and message of the accept are not in the transcript, so the client's agreement covers none of them.
- Handshake.HelloArrives: first-packet padding is any string of at most 1400 bytes; how its length is drawn is not modelled.
- Handshake.Serve: admission of a new client session is a parameter, and error texts, metrics and closing of the connection are not modelled.
- NonceCache.Cache.SeenOrStore: the key is the triple itself and not its formatted text.
- v2 ChannelAccept and the v2 proofs, and the capability negotiation of v2: they repeat the v3 shape with fewer fields.
- DnsQuery.BuildQuery: the library's TrimSpace and ToLower are function values.
- sniffDNSAnswers, parseDNSResponse and parseHTTPSRecord: record loops over the name walkers that are modelled.
- IP addresses in text form and IPv6 zones: addresses are bytes, or a width and a value.
- GeoIp.Sort: an insertion sort stands for the library sort; only "sorted permutation" is used of it.
- GeoSite.Match: regular expressions are a pair of function values (compiles, matches).
- Routing.Engine.Match: case folding, the LAN test and the built-in country test are function values; loading and watching of the data files is not modelled.
- Pacer.PacerWriter.Write: numbers and times are reals, so rounding of floats and truncation of durations are not captured.
- Times are unbounded integers (nanoseconds), so overflow of the library's time type is not captured.
- Reassembly.ReassembledExactlyWhenComplete: payloads beyond 65535 bytes or 255 pieces are excluded, as the codec and fragmenter do not carry them (see the two "iff" lemmas), and so are other frames with the packet's own key.
- Locks and concurrency: each call on a stream, cache, queue, pool or engine is one atomic step, as its mutex makes it. A handshake is not one: the server reads its clock before it takes the caches' locks, so of the ServerRuns results only the two exact ones (ReplayIff, RepeatIff) assume that authentic requests reach the cache in the order of their clock readings.
- Sockets, WebSocket, smux, QUIC, TLS and ECH setup, SOCKS and HTTP front ends, configuration, control API, status, metrics, downloads and the system-resolver DNS cache.
