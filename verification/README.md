# awg-proxy, modelled and proved in Dafny

awg-proxy re-dresses WireGuard datagrams as AmneziaWG and carries them between
two sockets with three threads: c2s (client to server), s2c (server to client)
and the main loop. This project models the parts of it where a mistake is easy
to make and hard to see, and proves what they promise for every input, every
run or every reachable state.

How it is laid out. What an operation does to a packet, a table or a protocol
state is a function on values (`Wire`, `Sessions`, `Roaming`, `Rotation`,
`LagRing.Serviced`, `Watchdog.Fires`, the one-shot hash of `Blake2s`). The code
as it runs, over byte arrays, ring buffers, counters and fields changed step by
step, is a method or a class proved against that function (`Transform`,
`Receive`, `SessionTable`, `RotationProxy`, `LagRing.Ring`,
`Watchdog.Counters`, `Blake2s.State`). The theorems are about the functions, and
so hold of the code.

| file | what it holds |
|---|---|
| `Bytes`, `BitLaws`, `FastRand`, `ChaCha20`, `Csprng`, `Blake2s` | bytes, words and their operations bit by bit; xorshift and mix64; the keystream; the generator on it; the streaming hash |
| `Profiles`, `Wire`, `RoundTrip`, `WireLaws` | obfuscation profiles; the packet transform as functions; what the far end gets back; what exactly leaves and what exactly is taken in |
| `Transform`, `Receive` | the transform in place; the inline transport path and the walk over fallback profiles |
| `PortSet`, `PortSpelling`, `Schedule`, `Rotation`, `RotationLaws`, `RotationFine`, `RotationRaces`, `RotationProxy` | the set of server ports; when a port falls due; the rotation protocol, at two grains, and what each of its steps does; the two runs that end badly; its code |
| `LagRing`, `Offload` | the delayed copies for the old port; segmentation offload, the batch sender, the split of coalesced reads |
| `Addresses`, `Sessions`, `Roaming`, `SessionTable` | the server-mode session table, its index, roaming |
| `Watchdog` | the silence watchdog |

What the code does not meet, and when it does. Five promises hold only under a
condition. Each condition is stated as an if-and-only-if, next to an input or a
run that fails it:

- A datagram comes back as the message it was made from unless a dispatch test
  that runs earlier claims it (`HandshakeRoundTrip`, `TransportRoundTrip`).
  `HandshakeCollision` finds, for every draw, a profile under which a response
  is taken for an init; `TransportCollision` is a transport packet taken for
  one. Sizes that differ rule it out when trailers are off
  (`HandshakeDeliveredBySize`, `TransportDeliveredBySize`).
- The inline transport path agrees with the transform alone unless it takes a
  datagram that a handshake test would have claimed (`FastPathExact`;
  `FastPathDisagrees` is one); with trailers off that cannot happen
  (`FastPathAgrees`).
- The comment at src/transform.c:194-197 says a bijection makes the nonces
  fresh. One pair of draws does share its padding, the two whose mixed values
  are 0 and 1, because `fastrand_init` replaces 0 by 1 (`PaddingFresh`;
  `FoldedPairExists` exhibits the pair).
- The stores behind the compare-and-swap of `rot_answered` leave the flags of a
  move right exactly when no move that they concern started in between
  (`MoveExactKeptIff`). One can start when the move that was answered had no old
  socket to keep (`MoveSlipsIn`, a run from the start).
- `rot_main_tick` holds no lock. Its raising of the due flag is right exactly
  when no reconnect and no answer told its news, or half of it, since the tick
  looked (`FlagExactKeptIff`). Otherwise the flag stays up although the fresh
  schedule is not due, and the next quiet spell moves the port early
  (`RaiseComesLate`, a run from the start).

Neither of the last two touches the rest: in every run, these included, no
socket is leaked, every move ends once, the port stays in the set and no wake-up
is lost (`EveryFineRunKeepsCore`).

Assumptions about the world. The kernel, DNS, the clock and the random
generators contribute values: which sockets they return, how many packets they
take, which port was drawn. These come in as parameters, constrained only by
what the caller relies on (a new descriptor is not one already open, the
monotonic clock does not run backwards, a plain send takes at least one packet
or fails, a draw lies in its span). In `Rotation` each function
of the three threads is one step; that is an assumption, not a fact of the C.
`RotationFine` drops it: every store that another thread can come in front of is
a step of its own there, that is the stamp, the compare-and-swap and the four
stores of `rot_answered` (src/proxy.c:2424-2436), the news of a reconnect
(src/proxy.c:3256-3257) and the raising of the flag by a tick
(src/proxy.c:2484), and the unlocked snapshot of the poll
(src/proxy.c:3530-3541) may be arbitrarily stale. What it still takes as one
step runs under `remote_mu`, but for the first half of a tick, where the order
of its two exchanges against another thread's stores makes no difference: only
the main loop itself writes `rot_failed` and `rot_force`. The
BLAKE2s compression, the ChaCha20 rounds and, in the transform, the MAC are
function-valued parameters, so the theorems hold for any.

## Model

| member | source | states |
|---|---|---|
| BitLaws.XorAtBit | src/fastrand.c:10-12 | exclusive or adds bits without carrying |
| BitLaws.ShiftRightIsQuotient | src/fastrand.c:11 | a right shift divides by a power of two |
| BitLaws.ShiftRightAtBit | src/fastrand.c:11 | bit i of x >> k is bit i + k of x |
| BitLaws.ShiftLeftAtBit | src/fastrand.c:10-12 | bit i of x << k is 0 below k and bit i - k of x from there on |
| BitLaws.XorWidths | src/chacha20.h:28-31 | the same for the exclusive or of bytes, 32-bit and 64-bit words |
| BitLaws.Read32Bytes | src/transform.c:184-188 | a word is read little-endian, byte by byte |
| BitLaws.WordsAreBytes | src/transform.c:184-192 | writing a word that was read gives back its bytes |
| FastRand.StepInjective | src/fastrand.c:9-14 | one xorshift step loses nothing: two 64-bit states with the same successor are equal |
| FastRand.StepNeverZero | src/fastrand.c:5-14 | from a nonzero state, which initialisation guarantees, the generator never reaches 0 |
| FastRand.StepBits | src/fastrand.c:9-14 | a step bit by bit: each bit takes in the one 13 below it, then the one 7 above, then the one 17 below |
| FastRand.StreamAt | src/fastrand.c:20-31 | byte i of a stream is byte i % 8 of the word drawn i / 8 steps on |
| FastRand.PaddingAt | src/transform.c:214-218 | the same of a padding, from the mixed seed, or from 1 where that is 0 |
| FastRand.Le64Value | src/fastrand.c:24-25 | a word's bytes spell its value, lowest first |
| FastRand.Mix64Injective | src/transform.c:207-212 | the seed mixer is injective on 64-bit words |
| FastRand.Mix64Onto | src/transform.c:207-212 | every 64-bit word is a mixed value, so the mixer is a permutation |
| FastRand.Mix64Inverse | src/transform.c:207-212 | y is the mixed value of exactly one word, given in closed form: the shifts undone, the inverse multipliers and the increment written out |
| FastRand.MixedToZero | src/transform.c:207-212 | one value in full: 0x61C8864680B583EB is mixed to 0 |
| FastRand.PaddingFresh | src/transform.c:194-218 | two paddings agree on their first 8 bytes if and only if they were drawn for the same seed or for the one pair of seeds whose mixed values are 0 and 1 |
| FastRand.FoldedPairExists | src/fastrand.c:5-7 | there are two different seeds whose paddings agree at every length |
| FastRand.SaltedPaddingFresh | src/transform.c:303-349 | the same in terms of the draw, for any constant a message kind salts it with |
| FastRand.PaddingApartFromCaller | src/transform.c:199-206 | unmixed, a padding would start with the bytes its caller emits next; mixed, it does so only if the mixer maps the caller's state to itself |
| FastRand.PaddingIsNoClone | src/transform.c:199-206 | for that state the padding does not start with the caller's next bytes |
| FastRand.Generator.constructor | src/fastrand.c:5-7 | a zero seed becomes state 1 |
| FastRand.Generator.U64 | src/fastrand.c:9-14 | the output is the new state, one step on |
| FastRand.Generator.Fill | src/fastrand.c:20-31 | the bytes written are the generator's stream, word by word and the head of one more; nothing else in the buffer changes; the state has advanced one step per word begun |
| ChaCha20.FillKeystream | src/chacha20.c:62-78 | the output is the keystream from the given counter at every length, in place and nowhere else, the counter wrapping at 32 bits |
| ChaCha20.XorBlock | src/chacha20.h:28-31 | text in place becomes its XOR with the block |
| ChaCha20.XorInPlace | src/chacha20.c:80-94 | text in place becomes its XOR with the keystream from counter 0, at every length, nothing else touched |
| ChaCha20.SetupBytes | src/chacha20.c:44-53 | the input state as bytes is "expand 32-byte k", the key, the counter and the nonce, one behind the other (section 2.3 of RFC 8439) |
| ChaCha20.SetupInjective | src/chacha20.c:44-53 | two input states are equal if and only if key, nonce and counter are |
| ChaCha20.ProtectAt | src/chacha20.c:80-94 | text byte i meets byte i % 64 of the block with counter i / 64 |
| ChaCha20.ProtectInvolution | src/chacha20.c:80-94 | protecting twice under one key and nonce gives the text back, at every length |
| ChaCha20.KeystreamPrefix | src/chacha20.c:62-78 | a shorter keystream is a prefix of a longer one |
| ChaCha20.KeystreamSplit | src/chacha20.c:62-78 | the keystream splits at every block boundary, the counter moved on by the blocks before it |
| ChaCha20.BlockIsHead | src/chacha20.c:55-60 | one block is the head of the keystream at its counter |
| Csprng.Generator.constructor | src/fastrand.c:33-38 | counter 0 and the stream number as the nonce's first byte |
| Csprng.Generator.Fill | src/fastrand.c:40-44 | the bytes are the keystream from the current counter, which moves on by the blocks taken up |
| Csprng.CounterIsBlocksDrawn | src/fastrand.c:40-44 | over any run of requests the counter is the number of blocks drawn so far, modulo 2^32 |
| Csprng.SameCounterIff | src/fastrand.c:40-44 | two blocks of a run share a counter if and only if they lie a multiple of 2^32 blocks apart |
| Csprng.RequestsDisjoint | src/fastrand.c:40-44 | until 2^32 blocks are drawn no two requests read the same block |
| Blake2s.State.constructor | src/blake2s.c:84-95 | the hash starts from the parameter block, with the padded key as its first block when there is one |
| Blake2s.State.AddToCounter | src/blake2s.c:106-129 | the counter's two halves, with the carry, stand for the byte count |
| Blake2s.State.CompressBlock | src/blake2s.c:105-116 | one more block that is not the last is behind the chaining value, with its byte count |
| Blake2s.State.Update | src/blake2s.c:97-124 | the message hashed so far grows by the data, whatever was buffered |
| Blake2s.State.Final | src/blake2s.c:126-134 | the digest is the one-shot hash of section 3.3 of RFC 7693 over everything fed in |
| Blake2s.HashParts | src/blake2s.c:84-134 | however a message is split over updates, keyed or not, empty or an exact multiple of 64, the digest is the one-shot hash of the whole |
| Blake2s.IvIsRoots | src/blake2s.c:4-7 | the initial words are the first 32 bits of the fractional parts of the square roots of the first eight primes (section 2.6 of RFC 7693) |
| Blake2s.InitChainParameters | src/blake2s.c:84-86 | the parameter block in the first word is digest length, key length, 1, 1; the other words are untouched |
| Blake2s.MessageParts | src/blake2s.c:90-94 | a keyed message is the key, zeros up to a block, the data; an unkeyed one the data |
| Blake2s.CounterWords | src/blake2s.c:106-107 | the two counter words spell the byte count |
| Blake2s.ImageWords | src/blake2s.c:132-133 | the digest is the chaining value's words in order, little-endian |
| Blake2s.MacInFull | src/blake2s.c:143-150 | MAC1's hash compression by compression, with byte counts and last-block flag, for an init and for a response |
| Blake2s.ChainedSnoc | src/blake2s.c:113-119 | compressing one more block at the end is one more step of the chain |
| Blake2s.AbsorbIsChained | src/blake2s.c:97-134 | the one-shot definition is the chained whole blocks followed by the padded last block with the total and the final flag |
| Blake2s.CounterCarry | src/blake2s.c:106-107 | a low half below what was added is exactly a carry into the high half |
| Blake2s.ComputeMac128 | src/blake2s.c:143-150 | the first 16 bytes of the keyed one-shot hash |
| Blake2s.ComputeHash256 | src/blake2s.c:136-141 | the unkeyed one-shot hash |
| Profiles.Pick | src/transform.h:55-59 | a header drawn from a range lies in it |
| Profiles.PickOnto | src/transform.h:55-59 | every header of a range is drawn |
| Profiles.OverlapsIff | src/transform.c:11-13 | two ranges overlap if and only if some header belongs to both |
| Profiles.ValidateExact | src/transform.c:15-64 | validation accepts exactly the profiles whose paddings fit, carry a nonce under header protection, and whose ranges give every type word at most one meaning |
| Profiles.ReadyMeans | src/transform.c:81-94 | what a validated, computed profile guarantees for each kind of message |
| Profiles.AmbiguityExact | src/transform.c:89-93 | the ambiguity flag is clear if and only if no datagram long enough for transport has a handshake's length |
| Wire.TrailerLen | src/transform.c:224-231 | a trailer exists only with trailers on, and then stays strictly inside both the window and the 1500-byte buffer |
| WireLaws.TrailerLenOnto | src/transform.c:224-231 | every trailer length short of window and buffer is drawn for some seed |
| WireLaws.HandshakeLayout | src/transform.c:263-335 | a handshake datagram is its padding, the message protected under the padding's first 12 bytes, and its trailer |
| WireLaws.RestampedBytes | src/blake2s.c:159-169 | a retyped message holds MAC1 over its own first 116 bytes (init) or 60 (response), and is otherwise as it was |
| WireLaws.InitSent | src/transform.c:265-289 | an init leaves with S1 bytes of padding, a type of H1, MAC1 under the given key or else the configured one over the 116 bytes as they leave, and the junk decision |
| WireLaws.ResponseSent | src/transform.c:291-310 | a response leaves with S2, H2, MAC1 over 60 bytes and the padding of its own salt |
| WireLaws.CookieSent | src/transform.c:312-335 | a cookie reply leaves with S3 and H3, otherwise unchanged, or not at all with cookies disabled |
| WireLaws.TransportSent | src/transform.c:337-355 | a transport packet is untouched under an identity profile; else it has a type of H4, and with headroom S4 bytes of padding and 16 bytes of protected header |
| WireLaws.OtherSent | src/transform.c:255-258 | anything else passes as it is |
| WireLaws.ClaimsExact | src/transform.c:449-475 | a handshake test claims exactly the datagrams a sender could have made of its kind |
| WireLaws.TransportClaimsExact | src/transform.c:484-486 | so does the transport test |
| WireLaws.InboundExact | src/transform.c:419-496 | every datagram is taken by the first form it has, in the order identity, init, response, cookie, transport, with type and MAC1 restored, and dropped when it has none |
| WireLaws.MaskedByte | src/transform.c:283 | byte i of a protected message meets a byte of the block for the datagram's first 12 bytes and counter i / 64 |
| WireLaws.MaskedApart | src/transform.c:194-197 | datagrams that differ in their first 12 bytes are never masked from the same block input |
| RoundTrip.UndressDelivers | src/transform.c:265-268 | retyping and re-stamping a handshake at one end and undoing it at the other keeps every byte outside MAC1, and MAC1 is good under the receiver's key |
| RoundTrip.HandshakeReceived | src/transform.c:449-481 | whatever padding and trailer surround it, a dressed message is claimed by its own test and decodes to its undressed form, trailer cut |
| RoundTrip.HandshakeRoundTrip | src/transform.c:245-496 | for every ready profile, draw, key and handshake message the far end delivers the message if and only if no earlier dispatch test claims the datagram |
| RoundTrip.OutboundHandshakeRoundTrip | src/transform.c:245-335 | the same of the outbound transform as a whole, with the junk decision and the dropped cookie reply |
| RoundTrip.HandshakeDeliveredBySize | src/transform.c:445-481 | without trailers, totals that differ from those tried earlier and a quiet identity test are enough for delivery |
| RoundTrip.HandshakeCollision | src/transform.c:449-471 | for every draw and every response some ready profile makes the far end take it for an init: the condition is not idle |
| RoundTrip.TransportReceived | src/transform.c:484-493 | whatever the padding and whatever header of the range was drawn, a transport packet is recognised and its body restored |
| RoundTrip.InboundFromTransport | src/transform.c:419-496 | every way a datagram is taken in, split by which test claims it |
| RoundTrip.TransportRoundTrip | src/transform.c:337-355 | the exact message comes back if and only if the transform is the identity, or there was headroom for S4 and no handshake test claims the datagram |
| RoundTrip.OutboundTransportRoundTrip | src/transform.c:245-360 | the same of the outbound transform as a whole; no junk goes with it |
| RoundTrip.TransportDeliveredBySize | src/transform.c:445-493 | without trailers, headroom and a length that is no handshake's are enough for delivery |
| RoundTrip.TransportCollision | src/transform.c:449-459 | a transport packet that comes out as a handshake init: the condition is not idle |
| RoundTrip.HandshakeNonceFresh | src/transform.c:282-330 | two handshake datagrams of one kind start with the same 8 bytes if and only if they were made from the same draw or the one folded pair |
| RoundTrip.TransportNonceFresh | src/transform.c:346-349 | the same for transport datagrams |
| Transform.FillPadding | src/transform.c:214-218 | the padding drawn for the seed stands at its place, the rest of the buffer unchanged |
| Transform.AppendTrailer | src/transform.c:236-242 | the trailer stands behind the packet, and padding, message and trailer fit 1500 bytes |
| Transform.Dress | src/transform.c:263-268 | the message in place has its AWG type and then its MAC1 |
| Transform.StampInPlace | src/blake2s.c:159-169 | MAC1 over everything before it, at its offset; a cookie reply is left alone |
| Transform.Wrap | src/transform.c:282-285 | the dressed message is padded, protected and trailed in place, the nonce being the padding's first 12 bytes |
| Transform.WrapCopy | src/transform.c:278-284 | the same on a copy in the static buffer |
| Transform.WrapSomewhere | src/transform.c:273-288 | the same wherever there is room: headroom, static buffer, or no padding at all |
| Transform.SendHandshake | src/transform.c:265-335 | a handshake leaves as its wire form, every write inside the buffers |
| Transform.WrapTransport | src/transform.c:346-352 | padding and a protected 16-byte header in front of an untouched body |
| Transform.SendTransport | src/transform.c:337-355 | a transport packet leaves as its wire form |
| Transform.TransformOutbound | src/transform.c:245-360 | whatever the message, headroom and profile, what leaves is what the outbound function says, with the junk flag and the drop |
| Transform.KeystreamCache.Get | src/transform.h:280-287 | the cached block is the block of this packet's first 12 bytes, and is computed once |
| Transform.PeekType | src/transform.c:438-450 | the word at an offset, unmasked by the one block at hand |
| Transform.OpenHandshake | src/transform.c:452-457 | the matched branch leaves the decoded message at its offset |
| Receive.TryHandshake | src/transform.c:449-481 | one test: claimed, the message is decoded in place; not claimed, no byte changes |
| Receive.OpenTransport | src/transform.c:486-491 | the header undone with the block at hand and the type restored give the decoded packet |
| Receive.TryTransport | src/transform.c:484-493 | the transport test: claimed, decoded in place; not claimed, no byte changes |
| Receive.TransformInbound | src/transform.c:419-496 | the datagram decodes in place as the inbound function says, a rejected one changes no byte, and the cache is good for this packet afterwards |
| Receive.ReceiveFast | src/proxy.c:2992-3029 | the inline transport path followed by the transform gives the combined result |
| Receive.FastPathExact | src/proxy.c:2859-2910 | inline path plus fallback equals the transform alone, in bytes, place and drop, if and only if the inline test does not take a datagram a handshake test claims |
| Receive.FastPathDisagrees | src/proxy.c:2859-2898 | a ready profile with trailers and a datagram on which inline path and transform differ |
| Receive.FastPathAgrees | src/proxy.c:2992-3029 | with trailers off they are equal for every datagram and profile |
| Receive.ChainOfPlainDecodes | src/proxy.c:2909-2932 | so each stage of the walk counts as the plain transform when its trailers are off |
| Receive.ReceiveChain | src/proxy.c:2856-2933 | walking the profiles in place over one buffer and one cache gives what the first accepting profile gives on a copy of its own, and nothing changes when none accepts |
| PortSet.ParsePort | src/proxy.c:274-285 | the run of digits is accepted exactly when it spells a port from 1 to 65535 |
| PortSet.SeenExact | src/proxy.c:292-295 | what the parser goes by decides the token: it has no other reading |
| PortSet.ParseRange | src/proxy.c:291-302 | a token is taken exactly when it spells one port or an ordered range, and the range is the only one it spells |
| PortSet.Parse | src/proxy.c:287-305 | exactly the comma lists of one to 32 ordered ranges are accepted, with the ranges they spell and the sum of their sizes |
| PortSpelling.PrintDigits | src/proxy.c:274-285 | a number written in decimal is worth that number |
| PortSpelling.RenderedIsSpelled | src/proxy.c:271-305 | a list of ordered ranges written out spells that list |
| PortSpelling.ParseRendered | src/proxy.c:287-305 | the parser gives back every set of one to 32 ordered ranges |
| PortSet.PortsCount | src/proxy.c:300-321 | the set has as many ports as its total says |
| PortSet.PortsAt | src/proxy.c:314-321 | each range contributes its ports in order right behind those of the ranges before |
| PortSet.PortAt | src/proxy.c:314-321 | the idx-th port of the ranges in order; the line behind the loop is unreachable |
| PortSet.InPortsIff | src/proxy.c:332-336 | a port is enumerated if and only if some range spans it |
| PortSet.TotalBounded | src/proxy.c:323-328 | the total is at most 65535 per range, so that of 32 ranges fits the int it is cast to |
| PortSet.Pick | src/proxy.c:323-330 | the drawn port belongs to the set, and is the one the generator's state picks, with one redraw off the port to avoid |
| PortSet.RotatePick | src/proxy.c:2272-2281 | the current port, or a port of the set that is not written off: the first such of four picks |
| PortSet.PickMeans | src/proxy.c:323-330 | a pick is the first draw unless that is the port to avoid and there are others, and then the second |
| PortSet.RotateTakesFirst | src/proxy.c:2272-2281 | the rotation takes the first pick that is neither the current port nor written off, and stays only when none is |
| Schedule.MakeCfgExact | src/proxy.c:369-382 | an ordered span of seconds becomes an ordered span of ticks, rounded up, if and only if rounding does not pass 2^32 (or the timer is off) |
| Schedule.MakeCfgMeans | src/proxy.c:369-382 | the configuration in seconds: spans rounded up to ticks, 30 s of quiet, 900 s to force, 60 ticks of back-off, each cut to the span's start |
| Schedule.ParsedSpanFits | src/proxy.c:338-356 | every span the parser lets through stays below that edge |
| Schedule.Draw | src/proxy.c:384-386 | a draw lies in its span |
| Schedule.DrawOnto | src/proxy.c:384-386 | every value of a span is drawn |
| Schedule.NotBeforeExact | src/proxy.c:395-397 | within half the range, wrapped ticks compare as unbounded ones do |
| Rotation.InitialInv | src/proxy.c:388-393 | the starting state is consistent |
| Rotation.SocketsKept | src/proxy.c:2330-2370 | after any step exactly the sockets the fields name are open, all different: none leaked, none closed twice, at most one kept for an old port |
| Rotation.MovesKept | src/proxy.c:3216-3261 | after any step a pending move is at its target with the main socket open, no Happy Eyeballs socket, doubled exactly when the old socket is held; every move ended once; the port in use is in the set |
| Rotation.WakeUpsKept | src/proxy.c:2454-2491 | after any step the due flag is up only while the main loop thinks so and no news waits, and a lowered flag has news waiting |
| Rotation.ScheduleKept | src/proxy.c:388-399 | after any step the wrapped schedule stands for an unwrapped one drawn from its spans |
| Rotation.StepKeepsInv | src/proxy.c:2330-2491 | every step of every thread keeps all of it |
| Rotation.EveryRunKeepsInv | src/proxy.c:2330-2491 | so does every run, in every interleaving |
| Rotation.ReachableIsConsistent | src/proxy.c:3529-3589 | every state reachable from the start is consistent |
| Rotation.IsDueExact | src/proxy.c:395-399 | due by wrapped ticks if and only if due by unbounded ones, within half the range of the last reset |
| Rotation.FlagRisesExactly | src/proxy.c:2454-2491 | only a tick raises the flag; after each tick flag and main loop agree; and a port not yet due becomes due if and only if the unwrapped schedule says so |
| Rotation.FlagTimely | src/proxy.c:2465-2484 | the flag never rises inside a back-off or before the lower bound unless on volume, and is up from the upper bound on |
| RotationLaws.MoveStarts | src/proxy.c:2330-2370 | a move starts exactly when none is under way, the endpoint is single and connected, the port is another one, and the old socket can be had if the tunnel is busy; and what it then sets |
| RotationLaws.AnswerEnds | src/proxy.c:2421-2436 | an answer ends a pending move: won, no more copies, flag lowered, news told, its time kept |
| RotationLaws.SilentMoveGoesBack | src/proxy.c:3529-3578 | a pending move refused, or unanswered for 2 s (3 s with both ports carrying), goes back to its old port and writes the new one off unless it ran beside the old one; a younger one is left alone |
| RotationLaws.OldSocketCloses | src/proxy.c:3539-3558 | with no move pending the old socket is closed exactly from 3 s past the answer on |
| RotationLaws.NoMoveOutlivesItsTime | src/proxy.c:3529-3578 | after any run no move outlives a poll made when its time is up |
| RotationLaws.ReconnectReplaces | src/proxy.c:3216-3257 | a reconnect closes both sockets, ends a pending move, takes port and sockets of the dial and tells the main loop; a failed dial leaves none and tells nobody |
| RotationLaws.ProbeSettles | src/proxy.c:1232-1255 | the family that answered is kept, the other socket closed |
| RotationLaws.RefusalIsNoted | src/proxy.c:1945-1954 | a refusal is noted on a pending move and only there |
| RotationLaws.ChangeStartsOver | src/proxy.c:388-393 | news of a changed port resets deadline, volume, traffic and back-off to fresh draws |
| RotationLaws.FailureBacksOff | src/proxy.c:2465-2469 | news of a silent port puts the next try off by the back-off and leaves the schedule alone |
| RotationLaws.QuietTickCounts | src/proxy.c:2454-2483 | without news a tick only counts time and traffic |
| RotationLaws.ForceComesLast | src/proxy.c:2470-2478 | a move under load is allowed exactly once the port has been due for the forcing time with no news; a tick touches only flags and schedule |
| RotationLaws.StalePollActs | src/proxy.c:3543-3578 | on any snapshot a move goes back only if it was seen and is still pending; otherwise the old socket is closed |
| RotationFine.FineStepKeepsCore | src/proxy.c:2330-2491 | every store of every thread, in every state it can be made in, keeps the sockets, the moves, the port, the wake-ups and the schedule accounted for |
| RotationFine.EveryFineRunKeepsCore | src/proxy.c:3216-3261 | so does every run of such stores, without exception |
| RotationFine.FineFlagRises | src/proxy.c:2454-2484 | only the second half of a tick raises the flag, and the first half calls for it exactly by the unwrapped schedule |
| RotationFine.MoveExactKeptIff | src/proxy.c:2424-2436 | a store keeps a pending move doubled exactly while its old socket is held and not called won, if and only if it is not a move slipping in before the late stores of an answer |
| RotationFine.FlagExactKeptIff | src/proxy.c:2460-2484 | a store keeps the flag up only while the main loop thinks so with no news waiting, if and only if it is not a raise that comes after news |
| RotationFine.SettledIff | src/proxy.c:2421-2491 | between stores those two and the core are the invariant of the whole steps |
| RotationFine.UndisturbedRunIsExact | src/proxy.c:2421-2491 | a run with neither late store keeps all of it at every point |
| RotationFine.FineReachable | src/proxy.c:3529-3589 | every state reached from the start satisfies the core, and every settled one reached without a late store the whole invariant |
| RotationFine.AnswerIsItsStores | src/proxy.c:2421-2436 | the six stores of rot_answered in a row are the whole step |
| RotationFine.ReconnectIsItsStores | src/proxy.c:3216-3257 | the two parts of a reconnect in a row are the whole step |
| RotationFine.TickIsItsStores | src/proxy.c:2454-2484 | the two parts of a tick in a row are the whole step |
| RotationFine.CoarseStepIsFine | src/proxy.c:3529-3578 | every whole step, the poll on a fresh snapshot included, is a run of stores |
| RotationFine.CoarseRunIsFine | src/proxy.c:2330-2491 | so every run of whole steps is a run of stores |
| RotationRaces.MoveSlipsIn | src/proxy.c:2679-2682 | a run from the start in which a move starts between the compare-and-swap and the stores behind it, and ends up pending, called won and without its copies |
| RotationRaces.RaiseComesLate | src/proxy.c:3254-3257 | a run from the start in which a reconnect lands inside a tick, and the flag stays up after the next tick although the fresh schedule is not due |
| RotationProxy.Proxy.Move | src/proxy.c:2330-2380 | the fields change as the protocol step says, and the result tells whether a move began |
| RotationProxy.Proxy.Answered | src/proxy.c:2421-2443 | the fields change as the protocol step says |
| RotationProxy.Proxy.Reconnect | src/proxy.c:3216-3261 | the same for a reconnect, failed dial included |
| RotationProxy.Proxy.MainTick | src/proxy.c:2454-2491 | the same for a tick, after which flag and main loop agree |
| RotationProxy.Proxy.MainPoll | src/proxy.c:3529-3589 | the same for going back and for closing the old socket |
| RotationProxy.Proxy.FinishHappyEyeballs | src/proxy.c:1232-1255 | the same for the family swap |
| RotationProxy.Proxy.RefusedNow | src/proxy.c:1945-1954 | a refusal is the move's exactly while one is pending or its old socket is held, and marks a pending one |
| LagRing.DuePrefixExact | src/proxy.c:2200-2203 | with a monotone clock the due prefix is exactly the set of copies due |
| LagRing.ServicedConserves | src/proxy.c:2192-2208 | nothing is lost or reordered; copies are discarded unsent only because the new port won or the old socket is gone; a lost move sends them all |
| LagRing.ServicedTimely | src/proxy.c:2200-2204 | while both ports carry, exactly the copies already due are attempted, in order |
| LagRing.ServicedSettles | src/proxy.c:2196-2204 | once the new port won or the old socket is gone nothing more is sent; a move that lost sends all |
| LagRing.PutWaits | src/proxy.c:2174-2187 | a copy is due 50 ms on, behind all that wait; over 1600 bytes, with 256 waiting or without memory it goes at once |
| LagRing.OthersAct | src/proxy.c:2192-2208 | a service moves exactly what the queue's rules say, a new move discards all that waits |
| LagRing.WaitMs | src/proxy.c:2206-2207 | the wait is the least number of milliseconds after which the copy is due |
| LagRing.DoConserves | src/proxy.c:2174-2208 | one put, service or new move keeps every copy ever queued in exactly one place, in the order of queueing |
| LagRing.EveryRunConserves | src/proxy.c:2153-2208 | so does any sequence of them: each queued copy is sent, discarded or still waiting, once and in order |
| LagRing.Ring.SendBatch | src/proxy.c:2157-2170 | the batch leaves the head of the queue, in order, sent or not |
| LagRing.Ring.SendHead | src/proxy.c:2153-2172 | the first k copies leave in order, 32 per call |
| LagRing.Ring.Put | src/proxy.c:2174-2187 | a copy joins the end of the queue with its lag, or goes at once exactly when it is too long, the ring is full or there is no memory; the ring is the timed queue one operation on |
| LagRing.Ring.CountDue | src/proxy.c:2200-2203 | the scan counts the due prefix |
| LagRing.Ring.Service | src/proxy.c:2192-2208 | the ring behaves as the timed queue, and the returned wait is exact for the new head |
| LagRing.Ring.Clear | src/proxy.c:2366 | a new move discards what was queued |
| Offload.RunLen | src/proxy.c:1503-1526 | the longest run one segmented send may carry, 0 when that is shorter than two |
| Offload.CutUndoesJoin | src/proxy.c:1531-1568 | cutting a run's bytes every segment size gives the run back if and only if its last packet is not empty |
| Offload.RunIsCutBack | src/proxy.c:1531-1568 | the run RunLen returns fits one datagram and is cut back into its very packets, if and only if its last packet is not empty |
| Offload.SendBatch | src/proxy.c:2088-2144 | against any kernel: every system call, failed ones included, is the one right at its place and carries the kernel's answer to it; `sent` is what the answers add up to; no error if and only if all went, else the error of the last call; the offload is off at the end exactly if it was off or a segmented call was refused as unsupported |
| Offload.PlainLen | src/proxy.c:2122-2130 | exactly the packets up to the next one that heads a run |
| Offload.HandedInOrder | src/proxy.c:2088-2144 | the calls of a batch hand over exactly its first packets, once each and in order |
| Offload.PlainOnlyAfterFailure | src/proxy.c:2098-2131 | until the kernel disowns the offload, a packet that heads a coalescable run is offered one by one only right after the segmented send of that very run took nothing |
| Offload.TraceUnique | src/proxy.c:2094-2141 | batch, kernel and switch determine every system call |
| Offload.SplitTurn | src/proxy.c:3385-3399 | one turn takes the next packets of the read in order and leaves exactly the rest, fills at most 32 places of the send batch, and stops early only when they are full |
| Offload.SplitCopy | src/proxy.c:2595-2619 | the segments stand in the packet buffers in order, at most 32, fewer only when the read is used up; it gives up exactly on a segment too large for a buffer |
| Offload.DrainRead | src/proxy.c:3352-3399 | over all turns every packet of the read is taken once and in order, and every turn but the last fills the batch |
| Sessions.LookupIsScan | src/proxy.h:482-491 | four probes find an index if and only if some slot anywhere holds it |
| Sessions.PutKeepsPlaced | src/proxy.h:493-520 | every valid entry stays within the probes of its index |
| Sessions.PutThenFind | src/proxy.h:493-520 | a lookup right after a put returns the entry just written |
| Sessions.ProbesAre | src/proxy.h:495-497 | an index's probes are its low 12 bits and the three slots behind, round the end |
| Sessions.PutWrites | src/proxy.h:500-519 | a put writes one slot: address and profile as given, server index and peer kept only for the very same session |
| Sessions.PutTakesFirst | src/proxy.h:496-511 | the first probe that is free or holds the index is taken |
| Sessions.PutKeepsOthers | src/proxy.h:493-520 | every other index keeps its lookup unless its entry was the one overwritten |
| Sessions.EvictsOnlyWhenFull | src/proxy.h:513-519 | an entry of another index is overwritten only at the first probe and only when all four are taken |
| Roaming.BySidx | src/proxy.h:614-625 | what the advisory index returns is a valid entry of that very session |
| Roaming.RecordedIsFound | src/proxy.h:606-625 | a recorded server index is found again in its entry |
| Roaming.PassedChangesNothing | src/proxy.h:660-662 | a packet already passed, or leaping too far, leaves the whole table unchanged |
| Roaming.FollowMovesExactly | src/proxy.h:660-669 | exactly the entries at the session's address move, to where the packet came from; every other client stays |
| Roaming.SessionStands | src/proxy.h:652-671 | over any trace the session stands where it stood or where some packet came from |
| Roaming.OthersStay | src/proxy.h:665-669 | over any trace a client elsewhere, from whose address no packet came, keeps its entry unchanged |
| Roaming.FollowKeepsTogether | src/proxy.h:665-669 | entries at one address stay at one address |
| Roaming.FollowKeepsOneClient | src/proxy.h:541-553 | a table that looks like one client still does |
| Roaming.FollowKeepsShape | src/proxy.h:652-671 | following changes addresses and one counter, nothing else |
| Roaming.FollowKeepsPlaced | src/proxy.h:652-671 | following keeps every entry within the probes of its index |
| Roaming.FollowIsAdvance | src/proxy.h:652-671 | seen from its entry, a packet moves the session or leaves it |
| Roaming.FollowAllIsAdvanceAll | src/proxy.h:652-671 | the same over any trace |
| Roaming.BelievedIncrease | src/proxy.h:635-645 | believed counters strictly increase in bounded leaps, and the session stands at the source of the last |
| Roaming.RoamsToBelieved | src/proxy.h:635-671 | after any trace of one session the table's entry stands at the source of the highest counter believed |
| Roaming.EndsAtHighest | src/proxy.h:635-640 | in whatever order copies arrive, with no leap beyond the bound, the session ends at the source of the highest counter |
| Roaming.RoamsToHighest | src/proxy.h:652-671 | the same of the table's entry |
| Roaming.DropExact | src/proxy.h:586-599 | exactly the named peer's entries at other addresses are retired |
| Roaming.HandshakeSettles | src/proxy.c:3165-3189 | a handshake that names its peer leaves it at one address with the destination alive, and touches nobody else |
| Roaming.DropKeepsPlaced | src/proxy.h:586-599 | retiring keeps every entry within the probes of its index |
| Roaming.OpsAct | src/proxy.h:493-612 | in a sequence of operations a put is found again, a recorded index leads to its entry, a named peer is noted there |
| Roaming.AnyRunLookupIsScan | src/proxy.h:482-671 | after any sequence of table operations four probes still find what a full scan would |
| SessionTable.Store.GetEntry | src/proxy.h:482-491 | the slot found, if and only if some slot anywhere holds the index |
| SessionTable.Store.PutProf | src/proxy.h:493-520 | the table after a put, and the slot a lookup now finds |
| SessionTable.Store.FindSole | src/proxy.h:541-553 | the first valid entry exactly when all valid entries are at one address |
| SessionTable.Store.FindByPeer | src/proxy.h:563-573 | the first valid entry of the peer, none exactly when there is none |
| SessionTable.Store.DropMovedPeer | src/proxy.h:586-599 | the table with the peer's moved entries retired |
| SessionTable.Store.SetServerIndex | src/proxy.h:606-612 | entry and index both name the session, which a lookup then finds |
| SessionTable.Store.GetByServerIndex | src/proxy.h:614-625 | the slot the index leads to |
| SessionTable.Store.FollowClient | src/proxy.h:652-671 | the table after following, and whether an address changed |
| SessionTable.Store.MoveAddress | src/proxy.h:665-669 | every valid entry at one address is at the other |
| Watchdog.LimitsFor | src/proxy.c:3827-3839 | the limits always leave at least one tick |
| Watchdog.LimitsMean | src/proxy.c:3827-3839 | AWG_TIMEOUT, 180 s when unset, in whole 5-second ticks but at least one; 3 ticks a port when there are several |
| Watchdog.Counters.Tick | src/proxy.c:3981-4019 | a reconnect is triggered at a tick if and only if the silence since the last remote packet or trigger has reached the threshold and carried a client init; the family reset exactly when the history calls for it |
| Watchdog.SilenceExists | src/proxy.c:3981-4018 | every history ends in a silence that began at the start, after a remote packet or after a trigger |
| Watchdog.SilenceIsUnique | src/proxy.c:3981-4018 | and in only one |
| Watchdog.FiresExactly | src/proxy.c:3986-4006 | a tick triggers if and only if nothing came in it and that silence has lasted hop_checks (when 0 < hop_checks <= checks_needed, else checks_needed) and saw a client init |
| Watchdog.SilenceIsNoticed | src/proxy.c:3981-4019 | once an init has gone unanswered for the threshold with nothing from the remote, some tick triggered, however sparse the traffic |
| Watchdog.QuietStarts | src/proxy.c:3981-4019 | a silence starts at the beginning, after a remote packet or after a trigger |
| Watchdog.HopsStayBelow | src/proxy.c:3994-3997 | hops in a row never add up to the timeout without a reset |
| Watchdog.HopsCountTriggers | src/proxy.c:3984-4018 | the hop counter is the number of triggers since the last remote packet, modulo the hops that cover the timeout |
| Watchdog.ResetsEveryTimeout | src/proxy.c:3990-4009 | while hopping, a trigger resets the family if and only if it is a k-th one since the last remote packet, k being the hops that cover the timeout; otherwise every trigger does |

## Left out

- C11 memory orders and torn reads (such as the address update noted at src/proxy.h:647-649): threads are interleaved steps.
- Socket set-up, epoll and poll, timers, DNS, CPU affinity and /proc parsing: only their results enter, as parameters.
- The rounds of ChaCha20 and the compression of BLAKE2s: parameters of the model.
- config_compute_profile and config_validate_profile are modelled on values: that the C function writes its result into the same struct is not captured. config_apply_profile, config_snapshot_profile and config_compute copy fields and are not modelled.
- The outbound inline fast path of c2s draws padding and header in its own way; TransportReceived covers the receiving side for any padding and any header of the range, the drawing itself is not modelled.
- A null keystream cache passed to transform_inbound_profile: the code then uses a fresh one of its own, which is the fresh KeystreamCache here.
- Agreement of the inline path and the transform with random trailers on: it fails in general, and FastPathExact says exactly when.
- Rotation.Step: rot_try's choice of the moment (rot_window and the scan of the batch) is left open, so the invariants hold whatever it decides.
- RotationFine.UndisturbedRunIsExact: excludes runs with a late store, because the two facts it adds to the core do not survive those (MoveSlipsIn, RaiseComesLate).
- Rotation.FlagTimely: speaks of ticks within 2^31 of the last reset; beyond that the C comparison itself wraps.
- The 64-bit count of bytes carried is unbounded here; it would take 2^64 bytes to tell.
- LagRing.Ring.SendBatch: what the kernel does with a copy is not modelled; the code treats a copy as gone either way.
- Offload.RunLen: an empty packet may end a run, as in gso_run_len, and would be lost in the cut; the threads skip empty packets before they are batched (src/proxy.c:2694, 2847, 3450), so it is no input that occurs. What follows after the c2s loop gives up coalescing is not modelled.
- Uniqueness of an index in the session table: the code does not keep it, so it is not claimed.
- Fields of a client address that cliaddr_eq does not compare are not part of the model's addresses.
- Roaming.BelievedIncrease: counters at 2^64-1 are excluded, since the expected next counter would wrap to 0, which means "none yet".
- Watchdog.Counters.Tick: one profile; probing of fallback profiles in the same block is not modelled.
- Happy Eyeballs probing, the state file, spin tuning, receive-buffer sizing, the per-address profile cache, junk sizes and the window note: timing, I/O or easy members.
- src/cps.c, src/base64.c, src/log.c, src/main.c and the tools around the proxy: parsing, logging and start-up.
