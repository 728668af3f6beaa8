# AkurAI VPN: model and proofs

This project models the parts of the AkurAI VPN where a mistake would be silent, and proves what they are for:

- **Cryptography** (`akurai-crypto`): X25519 on five 51-bit limbs, Poly1305 on five 26-bit limbs, ChaCha20, the AEAD, and
  BLAKE2s with its lazily flushed buffer. Limbs are `u64`/`u128` newtypes, so every sum and product in the code carries a
  proof that it does not overflow; results are stated against integers modulo the primes.
- **Transport** (`akurai-transport`): the Noise_IK handshake on those primitives, and the session with its 64-bit replay
  window.
- **Tunnel** (`akurai-node`): the lock-holding blocks of the two packet pumps as atomic steps, a world of nodes over a network
  that drops, repeats, reorders and forges, and the ICMP echo reply.
- **Control plane** (`akurai-control`): the hand-written JSON store; overlay address allocation; and the registry that enrols,
  revokes, rotates tokens, saves (which may fail) and reads its file back at every restart.
- **Codecs**: DNS messages (`akurai-dns`) and Base64 (`akurai-common`).

One module per source file or component:

| module | source |
|---|---|
| `Words`, `ByteStrings`, `Bits`, `Modular`, `Radix`, `Words32`, `Options` | machine words, little-endian strings, bitwise operators on naturals, congruence, five-limb products modulo b^5 - c, optional results |
| `Field25519`, `Inversion`, `Canonical`, `X25519` | `crates/akurai-crypto/src/x25519.rs` |
| `Poly1305`, `ChaCha20`, `Aead` | `crates/akurai-crypto/src/chacha20poly1305.rs` |
| `Blake2s` | `crates/akurai-crypto/src/blake2s.rs` |
| `Session`, `Noise` | `crates/akurai-transport/src/session.rs`, `noise.rs` |
| `Tunnel`, `TunnelRuns`, `Icmp` | `crates/akurai-node/src/tunnel.rs` |
| `Dns` | `crates/akurai-dns/src/wire.rs` |
| `JsonText`, `Endpoints`, `EndpointJson`, `EndpointCuts`, `KeyCounts`, `EndpointList` | `crates/akurai-control/src/auth.rs`, `vpn_endpoint.rs` |
| `OverlayAddress`, `Ipam`, `EndpointIndices` | `crates/akurai-control/src/ipam.rs`, `crates/akurai-common/src/overlay.rs` |
| `Registry`, `RegistryLosses` | `crates/akurai-control/src/listener.rs`, `state.rs` |
| `Base64` | `crates/akurai-common/src/b64.rs` |

`dafny verify dfyconfig.toml` checks everything.

## How the code is represented

- Masks and shifts by constants are written with `%` and `/`; `|`, `^` and `&` between variables are recursive bitwise functions
  on naturals (`Words.Bitwise`). Wrapping operations are written out.
- Loops are methods with invariants, proved equal to a function of their inputs; arrays the code changes in place are arrays;
  `State` and `Session` are classes with the fields of the originals. `Node` and `Registry` are classes the source does not
  have: `Node` stands for the peer table that the two pumps share and the key and address they close over, `Registry` for the
  endpoint list and heartbeats of the shared application state together with the text of the file they are saved to: a save
  prints the list, a restart parses whatever text is there. A peer's state leaves out its direct and candidate addresses.
- Keys, entropy, clocks, freshly drawn identifiers and the success of a save are parameters. Missing entropy is `None`; a retry
  timer is a flag that says whether it is due.

## Assumptions

- The handshake theorems take X25519 commutativity as the instances `Agree(a, b)` in their preconditions.
- In `Tunnel` and `TunnelRuns` the cryptography is ideal: a message opens only for its addressee and a packet only under the
  session, direction and counter that sealed it; a party whose secret is not a node's can make any message its own secrets
  allow; ephemerals are not reused. Peer tables may change at any time and a step may use an older one.
- A session encrypts fewer than 2^64 - 1 packets.

## Findings

- `crates/akurai-crypto/src/chacha20poly1305.rs:89-90` bounds the products of Poly1305 by 5 * 2^52 and forgets the factor 5 in
  `s1..s4`; the sums stay below 2^58, which still fits.
- The test at `crates/akurai-transport/src/session.rs:100` can never succeed: line 73 has refused the same packets.
- An answered handshake leaves mirrored sessions exactly when it is still the one in flight at its initiator
  (`AnswerMirrorsExactly`). Two handshakes that cross clear each other and do not mirror; the next packet that arrives does not
  open and starts the repair (`CrossedHandshakesAreRepaired`).
- A node recovers from a packet that does not open exactly when it knows the peer, has entropy, and has no handshake in flight
  that is not yet due, and each end's table gives the other's key for its address (`RecoveryMirrorsExactly`). Peer tables are
  refreshed independently, so the last condition can fail: the handshake is then sent and refused. Between nodes that list each
  other, one that lost its sessions in a restart recovers at once (`RestartedNodeRecovers`).
- A revocation holds in memory until the next restart. It outlives that restart exactly when some save since then succeeded, its
  own or a later one of any enrolment, revocation or rotation, and no value printed before the revocation is taken for that
  field's name; this is for files whose records are enclosed, each in its own braces (`RevocationOutlivesRestartExactly`). A node named `revoked_at` is therefore active again after a restart although
  its revocation was saved (`LostRevocation`). When what is enrolled is clean, that is, without braces, line breaks and field
  names and with plain address entries, only the save matters, and a revocation in the file is for ever (`RevocationIsForever`).
- From a file where no two endpoints share an index, none ever do, with any values enrolled and with files that come back
  damaged (`IndicesStayDisjoint`). That an
  endpoint keeps its addresses is another matter: a node named `allowed_ips` comes back with a different one (`ChangedAddress`).
  `AddressesReadExactly` says when entries survive a restart; with clean values they always do (`AddressesAreStable`).
- A name with an unmatched opening brace loses its endpoint and every later one at the next restart (`LostEndpoints`).
- A DNS name of at most 255 bytes comes back from the wire exactly when each label does: 1 to 63 ASCII bytes, or one of the
  few longer labels whose cut to 63 bytes grows back to it when bytes above 127 are read as two-byte characters (`Readable`).
- A stored text that equals a later field name, or ends in a quote followed by one, hides that field from the parser; line
  breaks come back as two characters; an address entry with list punctuation or an escape is lost or changed.
  `RecordRoundTrip` says exactly when a record survives, `ListRoundTrip` when a whole list loads back.
- Base64 decoding accepts padding at the end of any quad and ignores stray bits; `EncodeUndoesDecode` says exactly which texts
  are the ones encoding writes.

## Model

| member | source | states |
|---|---|---|
| Field25519.FAdd | crates/akurai-crypto/src/x25519.rs:36-44 | the sum as integers, limbs within the bound that multiplication accepts, no overflow |
| Field25519.FSub | crates/akurai-crypto/src/x25519.rs:49-58 | the difference plus 2p as integers, with no limb underflowing |
| Field25519.CarryReduce | crates/akurai-crypto/src/x25519.rs:63-91 | five 128-bit column sums become reduced limbs congruent to what they denote |
| Field25519.FMul | crates/akurai-crypto/src/x25519.rs:95-120 | the product modulo p for all loose operands, reduced, without overflow in any column |
| Field25519.FSquare | crates/akurai-crypto/src/x25519.rs:124-126 | the square modulo p |
| Field25519.FMul121665 | crates/akurai-crypto/src/x25519.rs:130-138 | 121665 times the value modulo p, reduced |
| Inversion.ShiftAndMultiply | crates/akurai-crypto/src/x25519.rs:193-238 | exponents 2^a - 1 and 2^b - 1 combine to 2^(a+b) - 1, one loop of the chain |
| Inversion.FInvert | crates/akurai-crypto/src/x25519.rs:184-240 | the addition chain yields z^(2^255 - 21) modulo p through all its squaring loops |
| X25519.ExponentIsPMinusTwo | crates/akurai-crypto/src/x25519.rs:184-240 | that exponent is p - 2 |
| Canonical.CarryPropagate | crates/akurai-crypto/src/x25519.rs:142-155 | for any five 64-bit limbs: congruent result, explicit limb bounds |
| Canonical.ReduceCanonical | crates/akurai-crypto/src/x25519.rs:158-181 | for any five 64-bit limbs: the unique representative in [0, p) |
| Canonical.Load64Le | crates/akurai-crypto/src/x25519.rs:23-32 | eight bytes read as their little-endian integer |
| Canonical.DecodeU | crates/akurai-crypto/src/x25519.rs:257-267 | the u-coordinate modulo 2^255, in limbs below 2^51 |
| Canonical.DecodeScalar | crates/akurai-crypto/src/x25519.rs:270-276 | clamping as an integer: a multiple of 8 in [2^254, 2^255) |
| Canonical.Encode | crates/akurai-crypto/src/x25519.rs:279-295 | writes the little-endian bytes of the value modulo p, for any limbs |
| Canonical.DecodeThenEncode | crates/akurai-crypto/src/x25519.rs:257-295 | decoding then encoding is (u mod 2^255) mod p, the identity exactly on canonical input, and encodings are canonical |
| Radix.RowsFold | crates/akurai-crypto/src/x25519.rs:95-120 | in any radix b and modulus b^5 - c: schoolbook rows with high products folded back by c denote the product |
| X25519.CSwap | crates/akurai-crypto/src/x25519.rs:244-253 | in place: exchanges the operands exactly when the low bit of the flag is set |
| X25519.ScalarBit | crates/akurai-crypto/src/x25519.rs:307 | the byte-and-shift expression is bit t of the scalar |
| X25519.DiffAddSymmetric | crates/akurai-crypto/src/x25519.rs:313-325 | differential addition is symmetric, which is why swapping the pair is sound |
| X25519.StepDoubles | crates/akurai-crypto/src/x25519.rs:313-325 | the limb step doubles the first point |
| X25519.StepAdds | crates/akurai-crypto/src/x25519.rs:313-325 | the limb step adds the two points with the given difference |
| X25519.IterationKeepsPair | crates/akurai-crypto/src/x25519.rs:306-326 | one iteration keeps the ladder's pair, on one more bit of the scalar |
| X25519.SwapPoints | crates/akurai-crypto/src/x25519.rs:307-311 | the delayed swaps: what was held under the old flag is held under the new bit |
| X25519.LadderLimbs | crates/akurai-crypto/src/x25519.rs:298-332 | all 255 iterations compute the integer ladder of section 5 of RFC 7748 and divide |
| X25519.X25519 | crates/akurai-crypto/src/x25519.rs:335-339 | for every scalar and u-coordinate the bytes are those of X25519 on integers modulo 2^255 - 19 |
| Poly1305.ClampBytes | crates/akurai-crypto/src/chacha20poly1305.rs:93-101 | byte-wise clamping is AND with the mask of section 2.5 of RFC 8439 |
| Poly1305.BlockLimbs | crates/akurai-crypto/src/chacha20poly1305.rs:131-140 | splitting three words by mask, shift and OR keeps their integer |
| Poly1305.LoadBlock | crates/akurai-crypto/src/chacha20poly1305.rs:125-140 | a block of up to 16 bytes with its high bit, as five limbs below 2^26 |
| Poly1305.MulR | crates/akurai-crypto/src/chacha20poly1305.rs:145-166 | h * r modulo 2^130 - 5 under the loop's limb bounds, no overflow |
| Poly1305.CarryRow | crates/akurai-crypto/src/chacha20poly1305.rs:152-166 | carries keep the value modulo p; h1 stays below 2^26 + 2^7, the others below 2^26 |
| Poly1305.AbsorbValue | crates/akurai-crypto/src/chacha20poly1305.rs:121-168 | one round is (h + block) * r modulo p |
| Poly1305.FinalCarry | crates/akurai-crypto/src/chacha20poly1305.rs:172-183 | the last pass leaves every limb below 2^26, the bumped h1 included |
| Poly1305.SubtractP | crates/akurai-crypto/src/chacha20poly1305.rs:186-207 | the masked selection gives the value modulo p |
| Poly1305.Reassemble | crates/akurai-crypto/src/chacha20poly1305.rs:210-214 | OR-ing the shifted limbs gives the value modulo 2^128 |
| Poly1305.HornerIsPolynomial | crates/akurai-crypto/src/chacha20poly1305.rs:120-169 | accumulating block by block evaluates the polynomial with the blocks as coefficients |
| Poly1305.Poly1305Mac | crates/akurai-crypto/src/chacha20poly1305.rs:91-219 | for every key and message: ((polynomial mod p) + s) mod 2^128, little-endian |
| ChaCha20.QuarterRound | crates/akurai-crypto/src/chacha20poly1305.rs:30-43 | in place on the array, the quarter round on four positions |
| ChaCha20.DoubleRoundInPlace | crates/akurai-crypto/src/chacha20poly1305.rs:48-59 | columns then diagonals |
| ChaCha20.Block | crates/akurai-crypto/src/chacha20poly1305.rs:46-67 | ten double rounds, the feed-forward sum, little-endian words |
| ChaCha20.ChaCha20Xor | crates/akurai-crypto/src/chacha20poly1305.rs:70-82 | in place: byte i is XORed with byte i mod 64 of the block of counter + i / 64 mod 2^32 |
| ChaCha20.XorStreamInvolution | crates/akurai-crypto/src/chacha20poly1305.rs:70-82 | applying it twice gives the data back |
| Aead.Pad16Len | crates/akurai-crypto/src/chacha20poly1305.rs:223-230 | the padding completes a block of 16, with fewer than 16 bytes |
| Aead.MacDataInjective | crates/akurai-crypto/src/chacha20poly1305.rs:232-243 | the authenticated text determines both the associated data and the ciphertext |
| Aead.Difference | crates/akurai-crypto/src/chacha20poly1305.rs:288-294 | the OR-fold over the tags is zero exactly when they are equal |
| Aead.ComputeTag | crates/akurai-crypto/src/chacha20poly1305.rs:248-265 | one-time key from block 0, tag over the authenticated text |
| Aead.Seal | crates/akurai-crypto/src/chacha20poly1305.rs:248-265 | the sealed form of section 2.8 of RFC 8439 |
| Aead.Open | crates/akurai-crypto/src/chacha20poly1305.rs:268-300 | opens as the specification function, short input and bad tag refused |
| Aead.OpenExactlySealed | crates/akurai-crypto/src/chacha20poly1305.rs:248-300 | opening returns p exactly on the sealed form of p: round trip and rejection of everything else |
| Aead.SealInjective | crates/akurai-crypto/src/chacha20poly1305.rs:248-265 | two plaintexts never seal alike under one key and nonce |
| Blake2s.State.constructor | crates/akurai-crypto/src/blake2s.rs:51-80 | parameter block into the first word; a key becomes a full buffered block |
| Blake2s.State.IncrementCounter | crates/akurai-crypto/src/blake2s.rs:83-88 | the two words hold the total count after the addition, carry included |
| Blake2s.CounterCarry | crates/akurai-crypto/src/blake2s.rs:83-88 | the carry test on the low word is right for every count |
| Blake2s.G | crates/akurai-crypto/src/blake2s.rs:39-48 | the mixing function on four positions of the work vector, in place |
| Blake2s.State.CompressBlock | crates/akurai-crypto/src/blake2s.rs:91-123 | the compression function of section 3.2 of RFC 7693 with the counter pair and final flag |
| Blake2s.State.Update | crates/akurai-crypto/src/blake2s.rs:126-141 | feeding appends; hash value, counter and buffer always account for everything fed |
| Blake2s.State.Finalize | crates/akurai-crypto/src/blake2s.rs:144-166 | the digest is the one-shot fold of everything fed, exactly the last block final |
| Blake2s.FoldAfterChain | crates/akurai-crypto/src/blake2s.rs:126-166 | compressing full blocks early and the rest at the end is the one-shot fold |
| Blake2s.ChainAppend | crates/akurai-crypto/src/blake2s.rs:126-141 | full blocks may be compressed in any grouping |
| Blake2s.Hash | crates/akurai-crypto/src/blake2s.rs:172-176 | BLAKE2s-256 of section 3.3 of RFC 7693, empty input included |
| Blake2s.Keyed | crates/akurai-crypto/src/blake2s.rs:179-183 | the keyed hash, empty input included |
| Blake2s.HashInPieces | crates/akurai-crypto/src/blake2s.rs:126-166 | however the input is split over updates, the digest is that of the whole |
| Blake2s.Hmac | crates/akurai-crypto/src/blake2s.rs:188-219 | HMAC over BLAKE2s: long keys hashed, inner and outer pads |
| Session.PacketCounter | crates/akurai-transport/src/session.rs:52-61 | a packet claims its counter in full and seals under that counter's nonce |
| Session.NonceInjective | crates/akurai-transport/src/session.rs:32-36 | distinct counters never share a nonce |
| Session.WindowDecides | crates/akurai-transport/src/session.rs:73-106 | the tests on mask, maximum and started flag decide exactly: unseen and within 64 of the maximum, or above it |
| Session.SlideKeeps | crates/akurai-transport/src/session.rs:89-97 | sliding the mask to a new maximum represents the old set with the new counter |
| Session.SetBitKeeps | crates/akurai-transport/src/session.rs:98-108 | setting a bit represents the old set with the late counter |
| Session.FirstKeeps | crates/akurai-transport/src/session.rs:85-88 | the first packet starts the window |
| Session.Session.constructor | crates/akurai-transport/src/session.rs:40-49 | nothing sent, nothing accepted |
| Session.Session.Encrypt | crates/akurai-transport/src/session.rs:52-61 | sends under the next counter, which is never used again |
| Session.Session.Decrypt | crates/akurai-transport/src/session.rs:65-111 | delivers exactly the authentic packets whose counter may still be accepted; a refusal changes nothing |
| Session.AuthenticIsDelivered | crates/akurai-transport/src/session.rs:65-111 | an authentic, unseen counter inside the window is always delivered with its plaintext |
| Session.RunNeverRepeats | crates/akurai-transport/src/session.rs:65-111 | over any sequence of packets no counter is accepted twice |
| Session.RunDeliversWhatWasSent | crates/akurai-transport/src/session.rs:52-111 | with mirrored keys over a network that drops, repeats and reorders: what is delivered was sent, each at most once |
| Noise.RespondAcceptsExactly | crates/akurai-transport/src/noise.rs:134-167 | the responder accepts, naming a static key, exactly the message 1 its own secret determines for that key |
| Noise.FinalizeAcceptsExactly | crates/akurai-transport/src/noise.rs:204-237 | the initiator accepts exactly one message 2 per responder ephemeral |
| Noise.InitiateIsExpected | crates/akurai-transport/src/noise.rs:87-125 | message 1 is the one the responder's secret determines, given agreement on es and ss |
| Noise.InitiatorCalls | crates/akurai-transport/src/noise.rs:87-125 | the key and hash of each AEAD call of the initiator, tied to its messages |
| Noise.ResponderCalls | crates/akurai-transport/src/noise.rs:134-198 | the same for the responder |
| Noise.TranscriptsAgree | crates/akurai-transport/src/noise.rs:87-237 | both ends enter each AEAD call with the same key and transcript hash |
| Noise.HandshakeCompletes | crates/akurai-transport/src/noise.rs:64-237 | for all secrets: message 1 accepted, the initiator's static key recovered, message 2 accepted, transport keys mirrored |
| Tunnel.Node.OnTunRead | crates/akurai-node/src/tunnel.rs:769-805 | the locked block of the TUN pump: encrypt, start a handshake, or do neither |
| Tunnel.Node.OnHandshakeInit | crates/akurai-node/src/tunnel.rs:878-890 | a message 1 from the peer whose key the table gives replaces session and pending; anything else changes nothing |
| Tunnel.Node.OnHandshakeResp | crates/akurai-node/src/tunnel.rs:891-899 | any answer consumes the pending handshake; a good one leaves a session |
| Tunnel.Node.OnData | crates/akurai-node/src/tunnel.rs:900-910 | first lock scope: decrypt under the live session |
| Tunnel.Node.OnUndecryptable | crates/akurai-node/src/tunnel.rs:915-934 | second lock scope: drop the session and start a handshake unless one is in flight and not due |
| Tunnel.StepsKeepExclusive | crates/akurai-node/src/tunnel.rs:123-133 | no step leaves a session beside a pending handshake |
| Tunnel.ReadsKeepLive | crates/akurai-node/src/tunnel.rs:769-805 | TUN reads between the two scopes keep the session and start no handshake |
| Tunnel.RecoveryMirrorsExactly | crates/akurai-node/src/tunnel.rs:900-941 | whatever both ends hold: recovery sends its one message exactly when the peer is known, entropy is there and no handshake is in flight that is not due; delivery of it and its answer mirrors exactly when moreover each end lists the other under its key |
| Tunnel.RestartedNodeRecovers | crates/akurai-node/src/tunnel.rs:912-934 | between nodes that list each other: one whose table is empty after a restart opens nothing and recovers at once |
| Tunnel.OneBadFrameRestoresMirror | crates/akurai-node/src/tunnel.rs:878-941 | from any mismatched pair of sessions, one undecryptable packet, with TUN reads between the two lock scopes, and delivery of the resulting two messages leaves mirrored sessions |
| Tunnel.AnswerMirrorsExactly | crates/akurai-node/src/tunnel.rs:878-899 | an accepted and answered handshake mirrors exactly when it is still the one in flight at the initiator |
| Tunnel.InFlightStillMirrors | crates/akurai-node/src/tunnel.rs:891-934 | a handshake in flight that is not due is left alone by recovery, and its answer still mirrors |
| Tunnel.CrossedHandshakesAreRepaired | crates/akurai-node/src/tunnel.rs:878-941 | simultaneous initiation ends with sessions that do not mirror and do not open each other's packets; the first such packet starts a recovery whose delivery mirrors |
| TunnelRuns.StepKeeps | crates/akurai-node/src/tunnel.rs:769-941 | every enabled step of any node, the network, a forger or a restart keeps the invariant of states and logs |
| TunnelRuns.EveryWriteIsJustifiedOnce | crates/akurai-node/src/tunnel.rs:101-119 | over every run, a packet written to a TUN was read by the peer whose key was checked for that address, and each read is written at most once |
| TunnelRuns.RecoveryInRuns | crates/akurai-node/src/tunnel.rs:769-941 | in every reachable world: a packet that does not open, any TUN reads, the recovery and its delivery are a possible run after which the next packet read at the sender is written at the receiver |
| TunnelRuns.LiveExcludesPending | crates/akurai-node/src/tunnel.rs:121-133 | in every reachable state a live session excludes a pending handshake |
| Icmp.Checksum16 | crates/akurai-node/src/tunnel.rs:687-701 | the complement of the one's-complement word sum, odd lengths padded; the folding loop ends |
| Icmp.FoldKeeps | crates/akurai-node/src/tunnel.rs:697-699 | one fold keeps the one's-complement value |
| Icmp.StoredChecksumVerifies | crates/akurai-node/src/tunnel.rs:678-682 | a sum with its complement stored folds to all ones |
| Icmp.HeaderSumKept | crates/akurai-node/src/tunnel.rs:674-676 | swapping source and destination keeps the header checksum |
| Icmp.EchoReply | crates/akurai-node/src/tunnel.rs:665-684 | accepts exactly echo requests; addresses swapped, type 0, ICMP checksum verifies to 0, header checksum unchanged, all else equal |
| Dns.ParseQuery | crates/akurai-dns/src/wire.rs:61-109 | the loop over labels computes the recursive reading, every malformed message refused |
| Dns.EncodeName | crates/akurai-dns/src/wire.rs:182-193 | length-prefixed labels, empty ones skipped, long ones cut to 63 bytes, closing zero |
| Dns.BuildQuery | crates/akurai-dns/src/wire.rs:112-124 | header with the recursion bit, and one question |
| Dns.BuildResponse | crates/akurai-dns/src/wire.rs:138-177 | NXDOMAIN exactly when unresolved, an answer exactly for a resolved A query, the question echoed |
| Dns.JoinSplit | crates/akurai-dns/src/wire.rs:182-191 | joining the labels of a name with dots gives the name |
| Dns.LabelReadsBack | crates/akurai-dns/src/wire.rs:82-96 | a label cut to 63 bytes and read back byte by byte as characters is itself exactly on a condition on its bytes |
| Dns.ReadBackExactly | crates/akurai-dns/src/wire.rs:61-193 | for every byte string: the name comes back exactly when it is empty or each of its labels does |
| Dns.AsciiNameReads | crates/akurai-dns/src/wire.rs:182-191 | for ASCII names that condition is labels of 1 to 63 bytes |
| Dns.QueryRoundTrip | crates/akurai-dns/src/wire.rs:61-124 | for every name, reading back a built query gives it exactly when the name comes back and has at most 255 bytes |
| Dns.ResponseRoundTrip | crates/akurai-dns/src/wire.rs:61-177 | the same for the query inside any response |
| Dns.ResponseReads | crates/akurai-dns/src/wire.rs:138-177 | field by field: flags, counts, the question echoed, one answer with a pointer to offset 12, the TTL and the address |
| Dns.ResponseFits | crates/akurai-dns/src/wire.rs:138-193 | the response to any parsed query has at most 289 bytes |
| OverlayAddress.CidrReads | crates/akurai-control/src/ipam.rs:38-46 | the entry written for an index parses as that index, for the whole range |
| Ipam.Allocate | crates/akurai-control/src/ipam.rs:76-80 | the lowest index in 2..65535 that is not used, or none exactly when all are |
| Ipam.ChooseForEnrollment | crates/akurai-control/src/ipam.rs:89-99 | a valid free supplied index is kept, otherwise the lowest free one; none exactly when the pool is exhausted |
| Ipam.AssignMissing | crates/akurai-control/src/ipam.rs:119-133 | in place: the backfill of the list, with the number of endpoints changed |
| Ipam.BackfillAt | crates/akurai-control/src/ipam.rs:119-133 | position by position: who lacks an index gets the lowest free among all and those given before it, others are unchanged |
| Ipam.BackfillKeepsDisjoint | crates/akurai-control/src/ipam.rs:119-133 | a disjoint list stays disjoint |
| Ipam.BackfillIdempotent | crates/akurai-control/src/ipam.rs:115-133 | a second backfill changes nothing, for every list |
| JsonText.EscapesEachCharacter | crates/akurai-control/src/vpn_endpoint.rs:81-86 | the four replacements escape character by character |
| JsonText.UnescapeUndoesEsc | crates/akurai-control/src/auth.rs:535 | the two-pass unescape undoes the escape exactly on text without line breaks |
| JsonText.JsonStrEnd | crates/akurai-control/src/auth.rs:538-548 | the end of a string: the first quote not taken by a backslash |
| JsonText.DecimalRoundTrip | crates/akurai-control/src/vpn_endpoint.rs:231-246 | a printed number reads back |
| EndpointJson.SkipText | crates/akurai-control/src/auth.rs:529-530 | a key search passes over a quoted value unless the value equals the key or ends in a quote followed by it |
| EndpointJson.Lookup | crates/akurai-control/src/auth.rs:528-534 | a key search in a printed record finds that field's value unless an earlier value is taken for the key |
| EndpointJson.ReadText | crates/akurai-control/src/auth.rs:528-536 | the text extracted for a field of a printed record |
| EndpointJson.ReadItems | crates/akurai-control/src/auth.rs:553-573 | the string array extracted for a field of a printed record |
| EndpointJson.ReadNumber | crates/akurai-control/src/vpn_endpoint.rs:231-246 | the number extracted for a field of a printed record |
| EndpointJson.ListReadsBack | crates/akurai-control/src/auth.rs:553-573 | a printed string array comes back exactly when no entry has a comma, quote, closing bracket, backslash or line break |
| EndpointJson.FieldsRead | crates/akurai-control/src/vpn_endpoint.rs:208-229 | the revocation and the address entries that a printed record reads back with |
| EndpointJson.RecordRoundTrip | crates/akurai-control/src/vpn_endpoint.rs:50-79 | for every record: printing and parsing returns it exactly when its id is not empty and every field holds its default, or is unshadowed and without line breaks or list punctuation |
| EndpointCuts.PrefixNotRead | crates/akurai-control/src/vpn_endpoint.rs:208-229 | a printed record cut at any earlier closing brace does not parse to that record |
| KeyCounts.HitsRecord | crates/akurai-control/src/vpn_endpoint.rs:50-79 | whatever its values hold, a printed record has one place at most where a field's name is followed by what a given test wants behind it, and that place is the field |
| KeyCounts.IdsRecord | crates/akurai-control/src/vpn_endpoint.rs:50-79 | a printed record adds one identifier key at most |
| EndpointList.SplitObjects | crates/akurai-control/src/vpn_endpoint.rs:182-206 | the brace-depth loop computes the scan of the text |
| EndpointList.ScanFrom | crates/akurai-control/src/vpn_endpoint.rs:182-206 | an open object ends at the first position where the depth falls to zero, or nothing more is found |
| EndpointList.ScanList | crates/akurai-control/src/vpn_endpoint.rs:182-206 | the scan splits enclosed objects apart exactly |
| EndpointList.LoadedAtMostIds | crates/akurai-control/src/vpn_endpoint.rs:175-206 | no text loads as more records than it holds identifier keys |
| EndpointList.WantedAtMostHits | crates/akurai-control/src/vpn_endpoint.rs:175-206 | no text, however it splits, loads as more records of any kind than it has places that such a record needs |
| EndpointList.ParseArray | crates/akurai-control/src/vpn_endpoint.rs:175-180 | the records of all objects that parse, in order |
| EndpointList.ListRoundTrip | crates/akurai-control/src/vpn_endpoint.rs:102-133 | for every list: loading what was saved returns it exactly when each printed record is enclosed in its own braces and survives |
| EndpointList.SafeListLoads | crates/akurai-control/src/vpn_endpoint.rs:102-133 | a condition on values alone under which it always does |
| EndpointList.LoadsEach | crates/akurai-control/src/vpn_endpoint.rs:175-206 | when every printed record has an identifier and is enclosed, the list loads record by record |
| EndpointIndices.IndicesRead | crates/akurai-control/src/auth.rs:553-573 | what is extracted from a printed address list, whatever it holds and wherever it is cut, carries no overlay index that the list did not |
| EndpointIndices.FirstEntryReads | crates/akurai-control/src/auth.rs:553-573 | a plain entry in front comes back in front, whatever the other entries hold |
| EndpointIndices.NoIndexMultiplies | crates/akurai-control/src/vpn_endpoint.rs:102-133 | for every list of records: after saving and loading, each index is carried by at most as many endpoints as before |
| EndpointIndices.LoadKeepsDisjoint | crates/akurai-control/src/vpn_endpoint.rs:102-133 | for every list of records: saving and loading keeps indices disjoint, whatever else is lost |
| Registry.EnrolledIndex | crates/akurai-control/src/listener.rs:862-875 | a new endpoint has at most one overlay index, first, free and chosen by the rule; its other entries keep their order |
| Registry.EnrollAgain | crates/akurai-control/src/listener.rs:845-856 | enrolling again with the same key and tenant changes nothing and answers the same |
| Registry.Registry.Enroll | crates/akurai-control/src/listener.rs:826-912 | answers an existing node, or appends and saves; a failed save restores the list |
| Registry.Registry.Revoke | crates/akurai-control/src/listener.rs:914-948 | stamps the matching active endpoint and drops its heartbeat; a failed save leaves the file behind |
| Registry.Registry.Rotate | crates/akurai-control/src/listener.rs:955-988 | a new token and its time for the matching active endpoint; a failed save leaves the file behind |
| Registry.Registry.constructor | crates/akurai-control/src/state.rs:30-63 | start-up on any text: parse, backfill, save, draw missing tokens, save |
| Registry.IndicesStayDisjoint | crates/akurai-control/src/ipam.rs:56-133 | over every run of restart, enrolment, revocation and rotation, with any values and with saves failing anywhere, no index belongs to two endpoints in memory or in what the file loads as, revoked ones included |
| Registry.RecordLoadsExactly | crates/akurai-control/src/vpn_endpoint.rs:102-133 | among records kept apart: a revocation loads exactly when its field is not shadowed, entries exactly when theirs is kept |
| Registry.RevocationReadsExactly | crates/akurai-control/src/state.rs:30-63 | the same for a revocation after start-up, with its backfills |
| Registry.AddressesReadExactly | crates/akurai-control/src/state.rs:30-44 | for an endpoint with an address, after start-up: its entries are there exactly when they load, or when it lost them and the one it is given happens to be all it had; a shadowed list is replaced by the lowest free address |
| Registry.RevocationOutlivesRestartExactly | crates/akurai-control/src/listener.rs:938-947 | over every run up to the next restart, with any values as long as the last written list keeps its records apart, from a state whose file claims no revocation that memory lacks: a revocation holds in memory, and survives that restart exactly when a write followed it and its field is not shadowed |
| Registry.StepKeepsLag | crates/akurai-control/src/listener.rs:826-988 | the file never claims a revocation that memory does not know, as long as written lists keep their records apart |
| Registry.DrawnIsClean | crates/akurai-control/src/vpn_endpoint.rs:140-161 | identifiers and tokens that the program draws are clean |
| Registry.RestartKeeps | crates/akurai-control/src/state.rs:30-63 | start-up on a file of clean disjoint records establishes the invariant of the guarded runs |
| Registry.OpKeeps | crates/akurai-control/src/listener.rs:826-988 | every clean operation and restart keeps memory what the file would load and fill in, up to revocations and tokens; places, identities and addresses stay; revocations in the file stay |
| Registry.AddressesAreStable | crates/akurai-control/src/listener.rs:826-988 | over every run with clean values no endpoint loses or changes its place, identity or addresses, restarts through the file included |
| Registry.RevocationOutlivesRestartIffWritten | crates/akurai-control/src/listener.rs:938-947 | over every run with clean values up to the next restart, a revocation survives it exactly when its own save or a later one succeeded |
| Registry.RevocationIsForever | crates/akurai-control/src/listener.rs:914-948 | with clean values: once in the file, a revocation holds over every later run, restarts included |
| RegistryLosses.NameShadows | crates/akurai-control/src/auth.rs:528-534 | a name equal to a later field's name, or ending in a quote and that name, shadows the field |
| RegistryLosses.LostRevocation | crates/akurai-control/src/listener.rs:938-947 | a node named revoked_at: its saved revocation is gone after a restart |
| RegistryLosses.ChangedAddress | crates/akurai-control/src/state.rs:30-44 | a node named allowed_ips: its address is another one after a restart |
| RegistryLosses.UnclosedLoads | crates/akurai-control/src/vpn_endpoint.rs:182-206 | a record whose braces never close is lost with all after it; those before it load |
| RegistryLosses.LostEndpoints | crates/akurai-control/src/vpn_endpoint.rs:182-206 | for every list: a node named with an opening brace and all that enrolled after it are gone after a restart |
| Base64.Encode | crates/akurai-common/src/b64.rs:11-32 | the loop over chunks of three computes the encoding |
| Base64.Decode | crates/akurai-common/src/b64.rs:36-70 | the loops over quads compute the decoding or refuse |
| Base64.DecodeArray | crates/akurai-common/src/b64.rs:74-82 | exactly n bytes or nothing |
| Base64.DecodesExactly | crates/akurai-common/src/b64.rs:36-70 | decoding succeeds exactly on non-empty whole quads over the alphabet, each padded at its end by at most two |
| Base64.DecodeUndoesEncode | crates/akurai-common/src/b64.rs:11-70 | decoding the encoding of any non-empty string gives it back |
| Base64.EncodeUndoesDecode | crates/akurai-common/src/b64.rs:11-70 | encoding what was decoded gives the text back exactly when it is canonical |

## Left out

- Sockets, threads, TUN devices, files, clocks, HTTP, HTML and OIDC: input, output and foreign calls.
- The curve's group law, commutativity of X25519 and primality of 2^255 - 19; the inversion theorem is about the exponent.
- Cryptographic strength, timing and entropy.
- Direct and candidate paths, PeerAddr and Keepalive frames, access lists and the frame codec: established packets always go
  to the relay, and no path is claimed to be authenticated.
- The checks on a request before it enrols (session, tenant, non-empty name and key); the registry takes any values.
- The other listener routes, sessions, and heartbeats beyond their removal on revocation. A file that cannot be read counts as
  an empty one; a save writes all of its text or none.
- `crates/akurai-crypto/src/hkdf.rs` beyond the one- and two-output forms the handshake uses.
- Session.Session.Encrypt: requires a send counter below 2^64 - 1, where the code's increment would overflow.
- Icmp.Checksum16: requires at most 131074 bytes, the exact length up to which the 32-bit sum cannot overflow.
- Icmp.EchoReply: requires at most 65535 bytes, the largest IPv4 packet.
- EndpointList.SplitObjects: the depth is unbounded, where the code's 32-bit depth would need 2^31 braces to overflow.
