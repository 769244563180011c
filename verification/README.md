# Verification of the anonymity layer

A Dafny model of the wire protocol and of the stateful parts of the programs in this repository, with
proofs of what they promise. `dafny verify dfyconfig.toml` checks the whole project.

## What is modelled

One module per component:

- `Relay`: RELAY cells, layered encryption, counter nonces and the running digest, both directions.
- `Fragment`: cutting handshake messages into headed fragments, and reassembly.
- `ExitPolicy`: the policy codec, first-match evaluation, redundant rules.
- `Consensus`: the consensus format down to the relays, the signed-bytes view, acceptance by a majority of
  authorities.
- `Link`: LINK_HELLO and LINK_AUTH over a network that drops, replays, reorders and injects.
- `Replay`: the v0.1 receive path and its replay log. `RateLimit`: the three forward windows.
- `Bridge`: the per-host connection cache of the GUI bridge. `Proxy`: its single-service cousin.
- `Url`, `Entities`, `Uri`, `Ssr`: URL resolution, HTML escaping, percent-encoding, and the two-pass
  server-side rendering built from them.
- `Wrap`: the word wrapper. `History`: back and forward in both browsers.
- `SelfHeal`: the install-directory placeholder. `ConnectUi`: the launcher's connect page.
- `Ipv4`, `Decimals`: dotted quads, ports and six-byte addresses. `Bytes`: big-endian integers, exclusive or.

Code that changes state is modelled as a class whose methods are proved against step functions on
values; what holds over whole runs is then proved about those functions. ChaCha20 and BLAKE2b are
arbitrary functions with fixed output lengths; AEAD decryption, Ed25519 verification of consensus
documents and lower-casing are arbitrary functions; LINK_AUTH signatures are ideal, and the local
descriptor index answers with the host's own descriptor (HSDir lookups may answer with any). Clocks are
parameters that do not go back. Handshake outcomes, lookups, evictions and network deliveries are events
that may come in any order.

## Where the sources disagree with themselves

Where code and text differ, the model follows the code.

- Section 5.4 of the v0.2 draft says "layered AEAD" in places; the code has a stream cipher without tags, as
  5.4.2 and 5.4.3 need. Section 6.3 and the code wrap every cell for all hops. The digest rule of 5.4.2 speaks
  of cells for any hop, which then only the last one can read (`Relay.CellArrivesIff`); earlier ones are
  addressed while they are the last, when the circuit is built. 5.4.2 has the final hop destroy a circuit on a
  mismatch; the code drops the cell, and destroys on a match that does not parse.
- Section 6.2.1 has receivers drop a fragment with a repeated index. The code gives up the whole handshake
  (`Fragment.RepetitionLoses`), makes room at the cap by dropping the oldest, refuses messages over 65536
  bytes, insists on full fragments and zero padding, and expires in sweeps only.
- Section 11.3 (2) has the verifier substitute its own values for `*_self`. Read literally an honest peer's
  signature would not verify (`Link.VerifierMustSwapRoles`); the model uses the signer's vantage, as 11.2.2
  says and the code does.
- Section 10.3a counts signature pairs. The code counts each fingerprint once, by its first pair; a failing
  first pair hides a good one behind it (`Consensus.CountedUnlessHidden`).
- Section 11.2 speaks of mutual proof of possession. A side that hears its own cells completes with itself
  and roles are not signed: `Link.PeerIsAuthentic`, `Link.ReflectionIff` and `Link.RolesAreOpen` give what
  holds and when.
- Section 5.6 of the v0.1 specification demands the most recent 8192 entries to be kept and also allows
  evicting old ones before that. Both readings are modelled, and the code has the strict one; under the
  lenient one only the 300 seconds remain (`Replay.LenientReadingForgets`).
- The forward limits are said to hold in any 60 seconds. The limiter's clock is rounded to seconds, so they
  hold in any 59.001 (`RateLimit.SafeLengthIff`).
- The connect page's comment says that Finish does nothing after Fail. That holds for a nonempty message
  that is not taken back by an empty one (`ConnectUi.FinishedIff`, `ConnectUi.EmptyFailureReopens`).
- The server-side renderer says that it mirrors the client's resolver. It does exactly for pages whose texts
  and targets do not hold the marker and whose relative targets have no apostrophe (`Ssr.TwoPassesAreOne`).
  The page it is compared with has its resolved addresses encoded and not HTML-escaped, so an apostrophe in the
  URL of the page itself stands raw on both sides; escaping would spell it as an entity. Strings hold no lone
  surrogates, on which `encodeURIComponent` throws.
- The generator's description of the exit-policy vectors leaves out the two-byte rule count that the bytes
  start with.

## Model

| member | source | states |
|---|---|---|
| Relay.SignedIsRecognized | modules/v2/relay.mjs:144-237 | a cell signed for an end is recognized there and parses back to command, stream and data |
| Relay.ParsedIsCanonical | modules/v2/relay.mjs:186-237 | whatever payload parses is, digest aside, the one encoding of what it parses to |
| Relay.HelloVector | bench/generate-test-vectors.mjs:324-330 | the byte layout on the published "hello" cell, the digest left abstract |
| Relay.CellLayout | modules/v2/relay.mjs:144-179 | where command, stream, digest, length, data and padding stand |
| Relay.LayerIsKeyStream | modules/v2/cells.mjs:62-86 | a layer is the exclusive or, bit by bit, with the key stream for the key and the 16-byte nonce of the counter; of zeros it makes the key stream |
| Relay.PeelUndoesLayer | modules/v2/cells.mjs:71-86 | a layer and its peeling are one operation and cancel |
| Relay.PeelAllUndoesOnion | modules/v2/circuit.mjs:120-168 | taking off the layers of all hops gives back what was wrapped for all hops |
| Relay.CellArrivesIff | modules/v2/circuit.mjs:120-196 | from ends in step and without a chance match, a cell for or from a hop is delivered as the sender's plaintext with both sides in step again exactly if that hop is the last one; for the last hop, exactly if nothing matches by chance |
| Relay.IntendedParses | modules/v2/relay.mjs:186-237 | what is delivered parses to the sender's cell |
| Relay.RunNeverFallsOutOfStep | modules/v2/circuit.mjs:79-479 | over any interleaving of forward cells, backward cells and extensions, for circuits being built and of any length: without chance matches all outcomes are the intended ones exactly if every cell is for or from the last hop at its time, and for such runs exactly if nothing matches by chance; then both sides end in step |
| Relay.HopAfterRun | modules/v2/circuit.mjs:84-196 | after such a run a hop has counted every cell of each direction and absorbed exactly those it was the last hop for |
| Relay.DigestAfterRun | modules/v2/relay.mjs:109-203 | after such a run the next cell for a hop, in either direction, carries the digest of the digest key, of all cells it was the last hop for, and of the cell; and a payload is recognized exactly by that |
| Relay.PeelsByDigest | modules/v2/relay.mjs:186-209 | a hop passes a cell on exactly if what its layer leaves has not the digest over everything absorbed |
| Relay.GrownEnds | modules/v2/circuit.mjs:84-118 | a new hop starts at count zero with its digest seeded by its digest key, on both sides and in both directions |
| Relay.DispatchFirst | modules/v2/circuit.mjs:443-479 | the first hop whose digest matches is the one, and a match that does not parse is no delivery |
| Relay.NonceNotReused | modules/v2/cells.mjs:62-69 | a hop's nonces differ until 2^64 cells have passed |
| Relay.BlocksDisjoint | modules/v2/cells.mjs:58-86 | no two of a hop's first 2^56 cells share a block of the key stream, the counter half of the nonce being read as ChaCha20 reads it |
| Relay.ClientCircuit.Send | modules/v2/circuit.mjs:302-340 | the wire is the signed cell under the key streams of all hops at their counters, bit by bit; the addressed hop absorbs it and every counter advances |
| Relay.ClientCircuit.EncryptOutbound | modules/v2/circuit.mjs:120-143 | the layering loop wraps for all hops, last one first, and advances every counter |
| Relay.ClientCircuit.Receive | modules/v2/circuit.mjs:145-168 | all layers off, all counters on, and the first hop whose digest matches |
| Relay.ClientCircuit.AddHop | modules/v2/circuit.mjs:84-100 | a fresh end in each direction |
| Relay.RelayHop.Receive | modules/v2/circuit.mjs:352-362 | the speculative digest is kept on a match and dropped otherwise, the counter advances either way, and a match that does not parse destroys the circuit |
| Relay.RelayHop.WrapBackward | modules/v2/circuit.mjs:184-196 | one layer more, one cell counted |
| Relay.RelayHop.Reply | modules/v2/circuit.mjs:403-430 | a cell signed with the backward digest and wrapped |
| Fragment.DecodeEncode | modules/v2/fragment.mjs:51-131 | a fragment survives the padded buffer |
| Fragment.EncodeDecoded | modules/v2/fragment.mjs:100-131 | whatever buffer parses is the one encoding of its fragment: full unless last, zero padding |
| Fragment.FragmentLayout | modules/v2/fragment.mjs:76-90 | where index, count, handshake id, length, data and padding stand |
| Fragment.SingleByteVector | bench/generate-test-vectors.mjs:244-249 | the published bytes of the one-byte message |
| Fragment.PiecesCut | modules/v2/fragment.mjs:69-90 | the count is the ceiling of length over capacity, all but the last piece are full, and together they are the message |
| Fragment.Sendable | modules/v2/fragment.mjs:62-74 | a message can be cut exactly if it is not empty and needs at most 255 fragments |
| Fragment.StepKeepsValid | modules/v2/fragment.mjs:153-247 | in every run at most 16 handshakes are in progress, each once, and their counters count |
| Fragment.OneStep | modules/v2/fragment.mjs:153-247 | one arrival or sweep, exactly: a handshake is lost by a repeated index, by an opening at the cap with it the oldest, or by a late sweep; else it holds one piece more or comes out whole, unless over 65536 bytes |
| Fragment.MismatchIsRefused | modules/v2/fragment.mjs:189-194 | another count or buffer size, and whatever does not parse, is refused and changes nothing |
| Fragment.ReassembledExactly | modules/v2/fragment.mjs:153-247 | in every run, mixed with anything, the message comes out at the end exactly if it has at most 65536 bytes and, from some point where the handshake is not in progress, every piece comes once and nothing takes it away; nothing else comes out under its id |
| Fragment.SteadyIff | modules/v2/fragment.mjs:153-247 | that is: the last piece comes last, no index comes twice, nothing takes it away |
| Fragment.InAnyOrder | modules/v2/fragment.mjs:133-226 | each index at most once, in any order: the message comes out at its last missing index exactly if it has at most 65536 bytes and was never crowded out or swept |
| Fragment.RepetitionLoses | modules/v2/fragment.mjs:196-203 | a fragment sent twice and then all others in any order never complete a message of two or more |
| Fragment.FewOpeningsKeep | modules/v2/fragment.mjs:161-176 | with fewer than 16 openings of other handshakes nothing is crowded out |
| Fragment.SixteenNewerIff | modules/v2/fragment.mjs:161-176 | in a row of openings the handshake is kept exactly while fewer than 16 are newer |
| Fragment.Reassembler.IngestBuffer | modules/v2/fragment.mjs:153-232 | the loops over the table and the fragments do the specified step |
| Fragment.Reassembler.SweepOld | modules/v2/fragment.mjs:234-246 | what is older than 30 seconds goes, and is counted |
| ExitPolicy.ParseBuiltPolicy | modules/v2/exit_policy.mjs:147-247 | parsing a built policy gives the rule list back, rules being 6, 11 or 23 bytes long with the upper port not below the lower |
| ExitPolicy.BuildParsedPolicy | modules/v2/exit_policy.mjs:184-247 | whatever parses is the encoding of what it parses to, so encodings are unique and nothing trails |
| ExitPolicy.RuleLayout | modules/v2/exit_policy.mjs:161-178 | where action, address type, network, mask and ports stand |
| ExitPolicy.MixedVector | test-vectors/exit-policy.json:563-586 | the published bytes of the last vector |
| ExitPolicy.AcceptedIffFirstMatchAccepts | modules/v2/exit_policy.mjs:249-300 | a destination is accepted exactly if an accepting rule matches it and no rule before does |
| ExitPolicy.MatchesIff | modules/v2/exit_policy.mjs:251-297 | a rule matches exactly the destinations in its port range and of its address type that agree with the network in all whole bytes of the mask and in the high bits of the next |
| ExitPolicy.SameVerdictBothSides | docs/SPEC-v0.2-draft.md:810-822 | the advertised bytes decide like the operator's list |
| ExitPolicy.CoversIsExact | docs/SPEC-v0.2-draft.md:796-811 | the syntactic cover test holds exactly if every destination of the second rule is one of the first |
| ExitPolicy.CoveredRuleIsRedundant | docs/SPEC-v0.2-draft.md:810-811 | deleting a rule that an earlier one covers changes no verdict |
| Consensus.ParseEncoded | modules/v2/consensus.mjs:87-313 | a document survives its encoding, signature block and relays with their exit policies included |
| Consensus.EncodeParsed | modules/v2/consensus.mjs:109-313 | whatever parses is the encoding of what it parses to |
| Consensus.DocumentLayout | modules/v2/consensus.mjs:178-231 | where version, times, counts, signatures and relays stand |
| Consensus.RelayLayout | modules/v2/consensus.mjs:89-108 | where keys, addresses, flags and policy stand |
| Consensus.PairLayout | modules/v2/consensus.mjs:205-213 | a fingerprint, then its signature |
| Consensus.ParsedRelaysAreValid | modules/v2/consensus.mjs:111-146 | no relay of a readable document has an address of zeros or a policy that does not parse |
| Consensus.SignedBytesDetermine | modules/v2/consensus.mjs:150-168 | the signed bytes fix everything but the signatures, their number included |
| Consensus.SignedBytesAreRest | modules/v2/consensus.mjs:262-275 | the signed bytes are the document without its signature block |
| Consensus.CountSignatures | modules/v2/consensus.mjs:277-293 | the loop with its set of fingerprints seen counts the first pair of each authority, if it verifies |
| Consensus.CountIsSigners | modules/v2/consensus.mjs:277-296 | that count is the number of distinct authorities, whatever is repeated |
| Consensus.AcceptsIffMajority | modules/v2/consensus.mjs:258-296 | a document is accepted exactly in its time and with more than half of the trusted authorities counted |
| Consensus.ConsensusIff | modules/v2/consensus.mjs:245-313 | bytes are taken for a document exactly if they are its encoding and that holds |
| Consensus.MajorityIsAccepted | modules/v2/consensus.mjs:258-296 | what more than half of the authorities signed is accepted in its time if no pair hides another |
| Consensus.AcceptedShareASigner | modules/v2/consensus.mjs:277-296 | any two documents accepted under one trust set share an authority that signed both |
| Consensus.AtMostOneAcceptable | docs/SPEC-v0.2-draft.md:1247-1270 | if no authority signs two documents with overlapping validity, at most one content is acceptable at any time |
| Consensus.StuffingIsRefused | modules/v2/consensus.mjs:279-296 | a document that names fewer authorities than a quorum is refused, however often |
| Consensus.CopiesAreRefused | modules/v2/tests-consensus.mjs:246-262 | copies of one pair are refused for every trust set of two or more |
| Consensus.CountedUnlessHidden | modules/v2/consensus.mjs:279-293 | whoever is counted has signed; whoever has signed is counted, exactly unless a failing pair in its name comes before every verifying one |
| Consensus.AllCountedIff | modules/v2/consensus.mjs:279-293 | all signers are counted exactly if no failing pair hides a later one |
| Link.HelloRoundTrip | modules/v2/link.mjs:74-97 | the 68 bytes of a hello, padded to a cell or not, give it back |
| Link.TranscriptDetermines | modules/v2/link.mjs:105-111 | a transcript fixes both nonces and both keys in their roles |
| Link.TranscriptBytes | modules/v2/link.mjs:48-111 | the label, the own nonce and key, the peer's nonce and key, at their places |
| Link.HelloBytes | modules/v2/link.mjs:74-86 | version 2, flag 1 for the dialer and 0 for the acceptor, two zeros, nonce, key |
| Link.RefusedCloses | modules/v2/link.mjs:204-266 | exactly a second or wrong hello, an early, second or bad LINK_AUTH and an early circuit cell close the link, and a closed one takes nothing |
| Link.ClosedForGood | modules/v2/link.mjs:179-206 | in every run a closed link stays as it is |
| Link.VerifierMustSwapRoles | docs/SPEC-v0.2-draft.md:1392-1399 | checking one's own vantage accepts an honest peer only if both hellos are the same |
| Link.EventKeepsInv | docs/SPEC-v0.2-draft.md:1343-1407 | every step of any session, network or key holder keeps: authenticated means signed, signed by an honest key means a session of it, cells only after both AUTHs |
| Link.PeerIsAuthentic | docs/SPEC-v0.2-draft.md:1323-1407 | whoever verified an honest key, dialer or acceptor, has exactly one matching session of its owner, and that one matches no other; it is another session exactly if the peer's nonce differs from the own one, and all of the peer's hello but the flags is that session's |
| Link.ReflectionIff | docs/SPEC-v0.2-draft.md:1323-1345 | a side can be made to complete with itself exactly if it was not told to dial another's key |
| Link.RolesAreOpen | docs/SPEC-v0.2-draft.md:1323-1407 | two sides in any roles can complete with each other exactly if each dialer among them was told the other's key |
| Link.FlagsTellRoles | docs/SPEC-v0.2-draft.md:1349-1357 | flags that arrive unaltered tell exactly whether one side dials and the other accepts |
| Link.DialerReachesExpected | modules/v2/link.mjs:219-226 | a dialer that completes for an honest expected key has that key's signature over its own nonce and key |
| Link.NoEarlyCircuitCell | docs/SPEC-v0.2-draft.md:1343-1347 | no circuit cell is taken before both LINK_AUTHs and no AUTH before a hello of the right version |
| Link.HonestPairCompletes | docs/SPEC-v0.2-draft.md:1334-1347 | an honest pair completes over a faithful network whichever side speaks first |
| Link.Endpoint.SayAuth | docs/SPEC-v0.2-draft.md:1343-1345 | LINK_AUTH leaves only after the peer's hello came and the own one went out |
| Link.Endpoint.Receive | modules/v2/link.mjs:204-266 | each cell does the specified step: record, authenticate, accept, or fail, a circuit cell too early included |
| Replay.StepKeepsInv | modules/wire/replay.mjs:37-78 | every reception and every allowed eviction keeps: what is forgotten may be forgotten, and equal keys lie apart |
| Replay.NoReplayInWindow | modules/wire/replay.mjs:37-78 | in every run one key is accepted twice only with 300 seconds and, on the strict reading, 8192 other packets between |
| Replay.NewKeyAccepted | modules/wire/replay.mjs:46-54 | a key never accepted before is always accepted and recorded |
| Replay.LenientReadingForgets | docs/THREAT_MODEL.md:377-383 | under the lenient reading a three-event run accepts a key twice with nothing between |
| Replay.NothingDeliveredTwice | modules/wire/packet.mjs:143-250 | in every run of the whole receive path packets of one key get through twice only with 300 seconds and, on the strict reading, 8192 other deliveries between |
| Replay.SameKeyIff | modules/wire/replay.mjs:22-35 | packets have one key exactly if ephemeral key and nonce are the same, whatever else they hold |
| Replay.OuterOkIff | modules/wire/packet.mjs:143-183 | steps 1 to 4 let through exactly version 1, a bucket of its size and the own prefix |
| Replay.InnerIff | modules/wire/packet.mjs:185-222 | steps 5 to 7 dispatch exactly what was sealed: kind, sender, payload as long as it says, zeros |
| Replay.FailuresLeaveNoTrace | modules/wire/packet.mjs:143-250 | leaving every packet that fails a check before the replay step out of a run changes neither a delivery nor the log |
| Replay.ForgeryDoesNotBurnKey | modules/wire/packet.mjs:186-236 | after any run, a packet that passes those checks and differs in ephemeral key or nonce from every delivered one gets through |
| Replay.RetransmissionDropped | modules/wire/packet.mjs:220-236 | anywhere in a run, a packet with the key of a delivered one is dropped without a trace for 300 seconds and, on the strict reading, until 8192 newer deliveries |
| Replay.ReplayLog.Check | modules/wire/replay.mjs:46-54 | looking up and inserting over the retained entries is the specified step |
| Replay.ReplayLog.Trim | modules/wire/replay.mjs:56-73 | evicting oldest first drops only what the strict reading allows, and all of it from the old end |
| Replay.ReplayLog.CheckAndInsert | modules/wire/packet.mjs:220-236 | look up, insert and evict in one, as the receive path does |
| RateLimit.EveryWindowBounded | modules/wire/forward_rate_limit.mjs:71-98 | in every run every 60 seconds of the limiter's clock, in every scope and wherever they start, stay within the limit |
| RateLimit.PublishedLimits | modules/wire/forward_rate_limit.mjs:22-45 | 32 a source, 64 a destination and 4096 in all, in any 60 seconds of that clock and in any 59001 milliseconds |
| RateLimit.SafeLengthIff | modules/wire/forward_rate_limit.mjs:40-45 | the clock being rounded to seconds, intervals of a length keep the limits exactly if it is at most 59001 milliseconds |
| RateLimit.LimitsAreReached | modules/wire/forward_rate_limit.mjs:22-24 | bursts of exactly 32 from a source, 64 to a destination and 4096 in all are accepted whole, and nothing more of that scope for the rest of the minute |
| RateLimit.RefusedCostsNothing | modules/wire/forward_rate_limit.mjs:68-86 | leaving a refused request out of a run changes nothing that is accepted |
| RateLimit.LiveIsLoad | modules/wire/forward_rate_limit.mjs:27-35 | the time stamps left in a pruned window are as many as the requests it must count |
| RateLimit.Limiter.CheckAndCount | modules/wire/forward_rate_limit.mjs:71-98 | accepted exactly when all three windows have room, recorded in all three; a refusal only drops old stamps |
| RateLimit.CleanedFaithful | modules/wire/forward_rate_limit.mjs:52-66 | dropping old stamps and empty buckets changes no budget |
| Bridge.CacheIsSound | bin/anon-browse-gui.mjs:436-521 | in every interleaving what is cached is open, unclosed and the host's own, what is in flight is unfinished, and no request is answered with another host's |
| Bridge.OwnDescriptorIff | bin/anon-browse-gui.mjs:441-503 | every handshake of a run is with its own host's descriptor exactly if no lookup was answered with another host's |
| Bridge.LostByOverwriting | bin/anon-browse-gui.mjs:503-516 | exactly a handshake that finishes for a host already cached loses a connection, and exactly the cached one |
| Bridge.NothingLostIff | bin/anon-browse-gui.mjs:436-564 | every connection ever opened ends cached or closed exactly if no handshake of the run finishes for a cached host |
| Bridge.CalmKeepsTracked | bin/anon-browse-gui.mjs:436-564 | exactly evictions during a handshake and late lookup answers break the link from running handshakes to the in-flight table |
| Bridge.OneHandshakeAHost | bin/anon-browse-gui.mjs:411-518 | in every state of a run each host has at most one handshake running exactly if no request or lookup answer starts one while the host has one |
| Bridge.CalmIsEnough | bin/anon-browse-gui.mjs:411-412 | so it is in every run without such evictions and late answers, and then nothing is lost |
| Bridge.LocalRunCalmIff | bin/anon-browse-gui.mjs:441-449 | with local descriptors the only way out is an eviction during a handshake |
| Bridge.EvictionMidHandshakeLoses | bin/anon-browse-gui.mjs:554-634 | a nine-event run: two fetches over one connection fail one after the other, the second failure evicts in the middle of a new handshake, and in the end a connection is neither cached nor closed |
| Bridge.OverlappingLookupsRace | bin/anon-browse-gui.mjs:441-447 | a four-event run in which overlapping lookups start two handshakes for one host |
| Bridge.WaitersHear | bin/anon-browse-gui.mjs:503-516 | whoever waits for a handshake hears how it ended, and nobody else |
| Bridge.WaitersWaitRightly | bin/anon-browse-gui.mjs:436-521 | in every run whoever waits does so for a running handshake of its own host |
| Bridge.CleanupCloses | bin/anon-browse-gui.mjs:532-537 | after a cleanup nothing is cached, and what was is closed |
| Bridge.ConnCache.EnsureConnFor | bin/anon-browse-gui.mjs:436-521 | cached, joined, started, looked up or refused, with the tables changed accordingly |
| Bridge.ConnCache.OnLookup | bin/anon-browse-gui.mjs:443-518 | the continuation after the lookup starts a handshake without looking at the tables again |
| Bridge.ConnCache.OnHandshake | bin/anon-browse-gui.mjs:503-517 | success caches and clears the in-flight entry, failure only clears it |
| Bridge.ConnCache.EvictConn | bin/anon-browse-gui.mjs:554-564 | closes and forgets the cached connection and the in-flight entry of one host |
| Bridge.ConnCache.FailedFetch | bin/anon-browse-gui.mjs:590-634 | a request that failed, or whose fetch failed, evicts its host |
| Bridge.ConnCache.CloseEverything | bin/anon-browse-gui.mjs:532-539 | closes all cached connections and leaves handshakes in flight |
| Proxy.OneConnectionForAll | bin/anon-rendezvous-proxy.mjs:173-191 | at most one handshake runs and at most one ever succeeds, and all clients that get a connection get that one |
| Proxy.FailureIsRetried | bin/anon-rendezvous-proxy.mjs:177-190 | after a failure the next request starts a new attempt |
| Proxy.RendezvousConn.OnClient | bin/anon-rendezvous-proxy.mjs:177-191 | a client gets the connection, the attempt in progress, or a new attempt |
| Proxy.RendezvousConn.OnHandshake | bin/anon-rendezvous-proxy.mjs:188-188 | success is kept, failure clears the way |
| Url.ResolutionStaysOnHost | bin/anon-browse-gui.mjs:1248-1264 | resolving a link never leaves the host the bridge reads from the page's URL |
| Url.OwnHost | bin/anon-browse-gui.mjs:219-229 | the bridge's host of a page is the resolver's host cut at the first `#` |
| Url.ResolveFixes | bin/anon-browse.mjs:510-540 | a target is left alone exactly if it is absolute or there is no anon:// page, and results on such a page are absolute |
| Url.ResolveOnce | bin/anon-browse.mjs:510-540 | resolving twice, from any page, is resolving once |
| Url.ResolvesOnPage | bin/anon-browse.mjs:510-540 | on host, directory, last segment and optional query: a `/` target follows the host, a `?` target the whole path, any other the directory |
| Url.ResolvesOnHost | bin/anon-browse.mjs:510-540 | on a host alone path and directory are the root |
| Url.ResolvesOnQuery | bin/anon-browse.mjs:510-540 | on a host with a query too, but for a `?` target where a slash stands in the query |
| Entities.EscapeIsOnePass | bin/anon-browse-gui.mjs:698-700 | five replacements in that order are one character map |
| Entities.EscapedIsInert | bin/anon-browse-gui.mjs:698-700 | escaped text has no raw angle bracket or quote |
| Entities.UnescapeEscaped | bin/anon-browse-gui.mjs:698-700 | reading the five entities gives the string back |
| Uri.DecodeEncoded | bin/anon-browse-gui.mjs:784-796 | decoding an encoded component gives every string back, over the whole of UTF-8 |
| Uri.EncodeFixesIff | bin/anon-browse-gui.mjs:736-748 | text is left as it is exactly if it has letters, digits and the unreserved marks only |
| Uri.Utf8Iff | bin/anon-browse-gui.mjs:784-796 | octets are read as a character exactly if they are its shortest form |
| Uri.DecodeEscapedEncoded | bin/anon-browse-gui.mjs:736-748 | with HTML escaping in between, exactly the apostrophes come back as their entity |
| Ssr.SsrRenderLines | bin/anon-browse-gui.mjs:702-763 | the rendering loop with its link counter writes the specified page with placeholders |
| Ssr.PageSnoc | bin/anon-browse-gui.mjs:702-763 | a page is its lines in order, each link under its number |
| Ssr.MarkedIsRewritten | bin/anon-browse-gui.mjs:784-796 | the second pass rewrites a marked address up to the next quote and goes on after it |
| Ssr.RewriteIsResolve | bin/anon-browse-gui.mjs:767-798 | the rewriter's result for any target that is not absolute is the client's resolver's |
| Ssr.PageResolves | bin/anon-browse-gui.mjs:702-798 | for every page without the marker in its texts the two passes render each relative link resolved |
| Ssr.TwoPassesAreOne | bin/anon-browse-gui.mjs:702-798 | for every page the two passes give the page with links resolved first exactly if no text, hint or target holds the marker and no relative target has an apostrophe |
| Ssr.LinkLeadsToResolved | bin/anon-browse-gui.mjs:767-798 | a rendered link decodes to the client's URL exactly if its target has no apostrophe, and stays on the page's host always |
| Ssr.MarkerInTextCostsATag | bin/anon-browse-gui.mjs:784-796 | a page with the marker in any text, hint or target comes out with fewer tags than it should have |
| Wrap.WrapLine | bin/anon-browse.mjs:214-249 | ends, fills rows greedily as specified, no row is empty or too long, non-space characters are kept in order, and every word that fits a row stands unbroken in one |
| Wrap.ShortStays | bin/anon-browse.mjs:214-249 | a text that fits one row stays as it is |
| Wrap.OpensRowIff | bin/anon-browse.mjs:219-245 | a token opens a new row exactly if the row before cannot take it |
| Wrap.HardBreak | bin/anon-browse.mjs:227-236 | an over-long token is cut into rows and a shorter rest that make it up |
| Wrap.SplitKeepsAll | bin/anon-browse.mjs:218-218 | the tokens make up the text |
| Wrap.WordIsToken | bin/anon-browse.mjs:218-218 | every maximal run without white space is one token |
| Wrap.TokensTakeTurns | bin/anon-browse.mjs:218-218 | words and gaps take turns, gaps are never empty, words at most at the ends |
| Wrap.HardBreakEnds | bin/anon-browse.mjs:230-235 | the cutting loop ends exactly for a positive width |
| History.TuiIsTimeline | bin/anon-browse.mjs:542-568 | one step of the two stacks is one step of a list with a cursor |
| History.StacksAreTimeline | bin/anon-browse.mjs:542-568 | the same over every run |
| History.BackAndForwardUndo | bin/anon-browse.mjs:552-568 | back and forward undo each other where they do anything |
| History.GuiStepIff | bin/anon-browse-gui.mjs:1310-1384 | the GUI's step differs exactly when it takes a relative entry from a stack on an anon:// page |
| History.SameStatesIff | bin/anon-browse-gui.mjs:1310-1384 | a GUI run goes through the terminal browser's states exactly if that never happens |
| History.GuiIsTimeline | bin/anon-browse-gui.mjs:1310-1384 | a session opened on an absolute page is a list with a cursor over every run |
| History.RelativeFirstPageMoves | bin/anon-browse-gui.mjs:1370-1381 | a session opened on anything else is not |
| History.Browser.NavigateTo | bin/anon-browse.mjs:542-550 | pushes the current page, drops what lay ahead, resolves the target |
| History.Browser.GoBack | bin/anon-browse-gui.mjs:1370-1375 | moves one page between the stacks, through the resolver in the GUI |
| History.Browser.GoForward | bin/anon-browse-gui.mjs:1376-1381 | the same the other way |
| SelfHeal.OnlyOccurrencesChange | browser-fork/launcher-go/internal/selfheal/policies.go:43-47 | old and new content are the same segments glued by placeholder and directory |
| SelfHeal.SegmentsAreFree | browser-fork/launcher-go/internal/selfheal/policies.go:43-47 | no kept segment holds a placeholder |
| SelfHeal.HealsEverythingIff | browser-fork/launcher-go/internal/selfheal/policies.go:43-47 | for a directory starting with `/`, no content keeps or gets a placeholder exactly if the directory neither holds one nor ends in a beginning of one |
| SelfHeal.HealedContent | browser-fork/launcher-go/internal/selfheal/policies.go:32-61 | after a launch the file holds its old segments in order with the directory's URI path between |
| SelfHeal.NoAtSettles | browser-fork/launcher-go/internal/selfheal/policies.go:46-47 | a directory without `@` is such a directory |
| SelfHeal.HealedOnce | browser-fork/launcher-go/internal/selfheal/policies.go:32-61 | a second launch changes nothing, and a missing or unreadable file stays so |
| SelfHeal.ToFileUriPath | browser-fork/launcher-go/internal/selfheal/policies.go:67-80 | on Windows the flipped path with a slash put in front if it has none, elsewhere the path as it is |
| SelfHeal.FlipsEverySlash | browser-fork/launcher-go/internal/selfheal/policies.go:69-69 | every backslash is flipped and nothing else |
| ConnectUi.NamedIffUpdated | browser-fork/launcher-go/internal/connectui/server.go:104-111 | a bar exists exactly for the names updated |
| ConnectUi.NamesAreInFirstSeenOrder | browser-fork/launcher-go/internal/connectui/server.go:104-111 | bars are distinct and in the order their names were first seen |
| ConnectUi.HoldsIff | browser-fork/launcher-go/internal/connectui/server.go:104-111 | a bar shows label and clamped percentage of the last update of its name |
| ConnectUi.ClampPct | browser-fork/launcher-go/internal/connectui/server.go:199-207 | the nearest percentage between 0 and 100 |
| ConnectUi.FinishedIsFinal | browser-fork/launcher-go/internal/connectui/server.go:116-134 | finished and failed never hold together and finished is permanent |
| ConnectUi.FinishedIff | browser-fork/launcher-go/internal/connectui/server.go:116-134 | finished exactly if Finish came while the last failure message, if any, was empty; until then the last message shows |
| ConnectUi.EmptyFailureReopens | browser-fork/launcher-go/internal/connectui/server.go:113-134 | a nonempty failure stops Finish and an empty one after it lets it through |
| ConnectUi.Server.Update | browser-fork/launcher-go/internal/connectui/server.go:104-111 | state and order stay those of the call log |
| ConnectUi.Server.Fail | browser-fork/launcher-go/internal/connectui/server.go:116-123 | the outcome stays that of the call log |
| ConnectUi.Server.Finish | browser-fork/launcher-go/internal/connectui/server.go:127-134 | the outcome stays that of the call log |
| ConnectUi.Server.Render | browser-fork/launcher-go/internal/connectui/server.go:152-190 | one bar a distinct name with its last label and clamped percentage, or the three seeded ones, and the matching title |
| Ipv4.OctetIff | bin/anon-node.mjs:86-88 | an octet parses exactly if it is printed the one canonical way |
| Ipv4.QuadIff | bin/anon-node.mjs:79-93 | exactly the printed quads parse, each to the quad it prints |
| Ipv4.ParseIPv4 | bin/anon-node.mjs:79-93 | the array-filling loop yields that quad or nothing |
| Ipv4.SharedIsDialled | bin/anon-node.mjs:103-106 | packing and picking give host and port back for every port |
| Ipv4.DialledIsShared | bin/anon-node.mjs:190-204 | picking and packing give all six bytes back |
| Ipv4.PickDialAddresses | bin/anon-node.mjs:190-204 | the loop keeps what can be dialled |
| Ipv4.DialableInOrder | bin/anon-node.mjs:190-204 | that is each usable transport's host and port, at the place the usable ones before it leave it |
| Ipv4.OneMoreTransport | bin/anon-node.mjs:190-204 | a transport is dialled exactly if it is a WebSocket one over IPv4 with six bytes, at the host and port they hold |
| Ipv4.ParsersAgree | bin/anon-mkconsensus.mjs:215-237 | for ports from 1 the consensus builder takes exactly these hosts and those with leading zeros, and packs the same bytes |
| Ipv4.PortIff | bin/anon-mkconsensus.mjs:228-232 | a port is refused exactly if it is not one of 1 to 65535 |
| Ipv4.HostPortBytes | bin/anon-mkconsensus.mjs:215-237 | the array-filling loop yields the six bytes or nothing |

## Left out

- X25519, ML-KEM, ChaCha20, BLAKE2b, Ed25519 and HKDF inside; key derivation and the ntor handshake.
- Relay.HelloVector: the published digest bytes are not pinned, because BLAKE2b is an arbitrary function here.
- Relay: no tampered or dropped cells; runs are of honest cells in order, and a chance digest match is a condition. The messages of an extension are cells like others, and both sides grow by a hop in one event. Rendezvous splices.
- Fragment: destroying the circuit when a fragment is refused, which its callers do. Payload capacities are those a 16-bit length can state.
- ExitPolicy: name resolution and the presets.
- Consensus: the voting protocol, the choice of flags, path selection, and the loss of precision of times above 2^53.
- Link: a LINK_AUTH after the handshake, which the model refuses and the code leaves to the circuit layer. The set of keys the adversary holds does not grow during a run; TLS and link timeouts.
- Replay: steps 10 and following, and everything about timing; the AEAD key agreement.
- Bridge: path selection, the topology records behind `/api/circuit`, and an `openHiddenService` that throws before it returns a promise.
- Wrap: the rest of `layoutDocument`, which adds fixed prefixes and styles.
- Ssr: result kinds other than documents; the page shell.
- SelfHeal: the temporary file and its renaming; directories that do not start with a slash where the launcher does not run on Windows.
- ConnectUi: the template and the HTTP server.
- History: fetching, scrolling and status lines; the mouse and keys.
- Sockets, HTTP, WebSocket, process supervision, configuration, PAC rendering, extension wiring and branding.
- The HSDir responsible-set ring and SENDME windows, which the node guide calls unimplemented or unused.
