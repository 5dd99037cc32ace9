# P2PFileSync: verified model

A Dafny model of the parts of the P2PFileSync daemon whose correctness is not visible from
one function at a time, with proofs of what they are for:

- **Rabin fingerprint** (`Polynomials`, `Words`, `BitPos`, `RabinChecksum`, `RabinLaws`).
  Polynomials over GF(2) are finite sets of exponents; machine words are numbers with explicit
  truncation, and `Words.Bits` reads a word as a polynomial. The loops of the source are
  methods proved against remainder and product of polynomials; on top of that stand the laws of
  the checksum: rolling agrees with recomputing, checksums concatenate and are linear, short
  bursts are always detected, and where each of these stops holding.
- **Peer overlay** (`FifoCache`, `RoutingTable`, `InstancePool`, `PeerTypes`, `HelloHandler`,
  `ServerContext`, `Overlay`). The classes are modelled as classes; concurrent calls are step
  systems, and the laws hold for every run: double-checked locking is linearizable, routed peers
  have accepted sessions, flooding terminates within an explicit bound, the cache keeps a node
  from accepting a packet twice, packets do arrive within 9 hops, and nobody but the receiver
  handles them.
- **Base64** (`Base64`), **block replacement** (`FileNode`) and **command lines**
  (`CommandParser`): loops proved against specifications, with round trips in both directions.
  `Options` is the missing-value type they share.

Results where code and expectation part ways, each with the exact condition:

- The window of `rolling_checksum` is 256 bytes, although the header documents a length
  parameter; `RabinLaws.RollingAgreesIff` says for which windows a roll agrees, and
  `RabinLaws.RollingNeedsFullWindow` that near-256 windows roll correctly only for a departing
  byte 0.
- A difference inside at most eight consecutive bytes goes unnoticed if and only if it is the
  polynomial P itself (`RabinLaws.EightByteBurst`), which seven bytes cannot hold
  (`RabinLaws.SevenByteBurst`) and eight can (`RabinLaws.EightByteCollision`).
- A fresh `FIFOCache` is full of default values; for the default id the first-in first-out
  promise holds for all histories exactly at capacity 1 (`FifoCache.DefaultHitsIff`). History by
  history, an id is cached if and only if some miss cached it and no later miss evicted an equal
  value, a placeholder included (`FifoCache.CachedIff`).
- `encode` reads its table out of bounds exactly when plain `char` is signed and the text has a
  byte of 128 or more (`Base64.EncodeText`); all other Base64 laws hold for all bytes.
- The quoting branch of `parse_command` does not consume its input. The argument loop runs
  forever if and only if `Parse` says `Diverges`: the first argument that opens with a quote, the
  last one aside, has another quote somewhere behind it (`CommandParser.DivergesIff`). Whenever
  the loop ends, it ends with the outcome of `Parse` (`CommandParser.LoopDecides`).
- The error for an unpaired quote cannot be built, and a `std::length_error` leaves the function
  instead, if and only if the remaining text has 80 or more characters and its first space is at
  77 or later (`CommandParser.ErrorTextThrowsIff`); the model reports that as `LengthError`.
- `send_pkg` leaves the receiver of a signed message empty. A packet sent so is never handled by
  a node with a nonempty device id, whatever happens on the way
  (`Overlay.UnaddressedNeverHandled`); the other overlay laws hold for every receiver.
- A comment in the hello handler says that a hello is answered when it is the first from its
  peer. The code does the opposite: an undisturbed hello from a peer without a route is never
  answered (`HelloHandler.UnknownPeerUnanswered`), and in every interleaving a reply is sent only
  after another hello of the same peer has added the route and ended without one
  (`HelloHandler.FirstHelloUnanswered`).

Assumptions. The two tables of the fingerprint are those that `calcT` and `calcU` build, stated
as `Tables.Valid()` and established by `RabinChecksum.BuildTables`. The capacity of a cache is at
least 1: with 0 the source reads the front of an empty list. `add_new_route` inserts under a
shared lock and the broadcast loop reads the table without one; each is taken as one atomic step.
The entry that `try_update_table` found stays valid while it waits for the exclusive lock, as
nothing is ever removed from the table. Certificate acceptance is an arbitrary predicate, a
signature an opaque string. Block pointers handed to `FileNode` are not null where the source
dereferences them.

## Model

| member | source | states |
|---|---|---|
| BitPos.BitLengthBounds | daemon/utils/bitpos.h:16-23 | the reference for both searches is the unique r with 2^(r-1) <= x < 2^r |
| BitPos.Fls | daemon/utils/bitpos.h:24-49 | the five halving steps return the bit length of every 32-bit word, 0 for 0 |
| BitPos.Fls64 | daemon/utils/bitpos.h:63-68 | the split into high and low word returns the bit length of every 64-bit word |
| Words.Shl64 | daemon/utils/rabin_checksum.cc:23-37 | left shift of a 64-bit word: the bits move up and those at 64 and above are lost |
| Words.BitSet | daemon/utils/rabin_checksum.cc:33-41 | the test against a shifted 1 decides membership of the exponent |
| Polynomials.MulComm | daemon/utils/rabin_checksum.cc:47-56 | carry-less multiplication is commutative |
| Polynomials.MulAddLeft | daemon/utils/rabin_checksum.cc:47-56 | carry-less multiplication distributes over xor |
| Polynomials.RemUnique | daemon/utils/rabin_checksum.cc:26-45 | a remainder is the only polynomial of smaller degree in its residue class |
| Polynomials.RemMul | daemon/utils/rabin_checksum.cc:61-65 | reducing a factor first does not change the reduced product, which is what the tables rely on |
| Polynomials.CancelShift | daemon/utils/rabin_checksum.cc:20 | a divisor with constant term 1 that divides a * x^k divides a |
| RabinChecksum.PolyMod | daemon/utils/rabin_checksum.cc:26-45 | for every 128-bit dividend and every divisor above 0 the result is the polynomial remainder |
| RabinChecksum.PolyMult | daemon/utils/rabin_checksum.cc:47-56 | the two-word accumulation and reduction give the carry-less product modulo d |
| RabinChecksum.CalcT | daemon/utils/rabin_checksum.cc:58-67 | entry j is j * x^63 mod P plus the bit that p << 8 leaves at position 63, for every j |
| RabinChecksum.CalcU | daemon/utils/rabin_checksum.cc:69-75 | after 255 appended zero bytes, entry i is i * x^(8*255) mod P |
| RabinChecksum.AppendExact | daemon/utils/rabin_checksum.cc:21-24 | the table lookup is in range exactly for p below 2^63; then the result is (p * x^8 + m) mod P and again below 2^63, in spite of both truncations |
| RabinChecksum.RollingExact | daemon/utils/rabin_checksum.cc:83-85 | a roll succeeds exactly below 2^63 and yields ((csum + c1 * x^2040) * x^8 + c2) mod P |
| RabinLaws.ComputeChecksum | daemon/utils/rabin_checksum.cc:90-96 | for every string the loop returns the one word that spells the string's polynomial modulo P |
| RabinLaws.ChecksumConcat | daemon/utils/rabin_checksum.cc:90-96 | checksum(a + b) = checksum(a) * x^(8 len b) + checksum(b) modulo P |
| RabinLaws.ChecksumXor | daemon/utils/rabin_checksum.cc:90-96 | checksums of equal-length strings are linear over xor |
| RabinLaws.RollingAgreesIff | daemon/utils/rabin_checksum.cc:83-85 | for a window of any length, rolling equals recomputing if and only if the departing byte weighs modulo P what it weighs in a 256-byte window |
| RabinLaws.RollingAgrees | daemon/utils/rabin_checksum.cc:77-96 | rolling a 256-byte window gives the checksum of the moved window |
| RabinLaws.RollingNeedsFullWindow | daemon/utils/rabin_checksum.h:27-36 | for windows of 250 to 262 bytes other than 256 the roll agrees only when the departing byte is 0 |
| RabinLaws.SlideIsChecksum | daemon/utils/rabin_checksum.cc:77-96 | sliding along any file yields at every position the checksum of the 256 bytes there |
| RabinLaws.BurstIff | daemon/utils/rabin_checksum.cc:20-24 | strings whose difference is a pattern of at most 64 bits, at any offset, have equal checksums if and only if the pattern is zero or P |
| RabinLaws.BurstDetected | daemon/utils/rabin_checksum.cc:20-24 | strings whose difference is a nonzero pattern of at most 63 bits, at any offset, have different checksums |
| RabinLaws.EightByteBurst | daemon/utils/rabin_checksum.cc:83-96 | equal-length strings differing only inside eight consecutive bytes have equal checksums if and only if those bytes are equal or differ by P, whatever surrounds them |
| RabinLaws.SevenByteBurst | daemon/utils/rabin_checksum.cc:83-96 | equal-length strings differing only inside seven consecutive bytes have different checksums |
| RabinLaws.EightByteCollision | daemon/utils/rabin_checksum.cc:20-24 | the instance that shows it happens: the bytes of P against eight zeros, in any surroundings |
| FifoCache.FIFOCache.constructor | daemon/utils/data_struct/fifo_cache.h:13-16 | a fresh cache is a list of default values and an empty set |
| FifoCache.FIFOCache.IsCached | daemon/utils/data_struct/fifo_cache.h:27-44 | a hit changes nothing, a miss evicts the oldest entry and appends the id; for ids other than the default a hit means: among the last capacity misses |
| FifoCache.AfterFollows | daemon/utils/data_struct/fifo_cache.h:13-44 | over every history the list is the last misses behind left-over placeholders, always of full length; the set agrees with the list on every id but the default and holds nothing that is not listed; and of capacity + 1 consecutive misses those that are not the default are distinct |
| FifoCache.HitIffRecentMiss | daemon/utils/data_struct/fifo_cache.h:17-26 | an id other than the default is cached exactly when it is among the last capacity misses |
| FifoCache.MissesDistinct | daemon/utils/data_struct/fifo_cache.h:27-44 | two misses at most capacity apart are different, unless the earlier one is the default id |
| FifoCache.DefaultHitsIff | daemon/utils/data_struct/fifo_cache.h:13-16 | the default id is, over all histories, cached exactly when it is among the last capacity misses if and only if the capacity is 1 |
| FifoCache.CachedIff | daemon/utils/data_struct/fifo_cache.h:13-44 | for every history and every id, the default included: cached if and only if a miss cached it and no later miss evicted an equal value, where the first capacity misses evict the placeholders |
| FifoCache.NoSecondMiss | daemon/utils/data_struct/fifo_cache.h:27-44 | with at most capacity distinct ids, none the default, no id ever misses twice |
| FifoCache.SecondMissBeyondCapacity | daemon/utils/data_struct/fifo_cache.h:27-44 | one distinct id more, and the first one misses again |
| RoutingTable.RoutingTable.CanDelivered | daemon/utils/data_struct/routing_table.h:36-40 | found if and only if the table has the destination |
| RoutingTable.RoutingTable.GetNextPeer | daemon/utils/data_struct/routing_table.h:23-27 | the stored address, for a destination that is present |
| RoutingTable.RoutingTable.AddNewRoute | daemon/utils/data_struct/routing_table.h:43-56 | adds the route if and only if the destination is absent, and touches nothing else |
| RoutingTable.RoutingTable.TryUpdateTable | daemon/utils/data_struct/routing_table.h:58-84 | replaces the route if and only if it exists and the new ttl, as uint32_t, is lower; true exactly then |
| RoutingTable.RunsLinearize | daemon/utils/data_struct/routing_table.h:43-84 | every state of every interleaving of adds and double-checked updates is the state after executing the finished calls one by one, each with the result it would have alone |
| RoutingTable.StepEffect | daemon/utils/data_struct/routing_table.h:43-84 | no step removes a route or raises a ttl; a call ends with true exactly when it added or lowered, and otherwise changes no route |
| RoutingTable.RunsReachMinimum | daemon/utils/data_struct/routing_table.h:58-84 | in every run a stored route is the minimum of the route it began with and all finished offers that found it, next hop included |
| RoutingTable.RunsTerminate | daemon/utils/data_struct/routing_table.h:43-84 | no interleaving takes more than two locked sections per call |
| InstancePool.InstancePool.AddInstance | daemon/utils/data_struct/instance_pool.h:36-45 | first writer wins |
| InstancePool.InstancePool.GetInstance | daemon/utils/data_struct/instance_pool.h:53-63 | the stored instance, or nothing |
| HelloHandler.Server.InternalHandle | daemon/packet/handler/hello_message.tcc:28-79 | refused exactly when the sender has no session and its certificate is not accepted, and then nothing changes; a new session is stored once, an old one kept; a known route is lowered and answered with one hello to the address of the sender, an unknown one is added without an answer |
| HelloHandler.AloneIsHandle | daemon/packet/handler/hello_message.tcc:28-79 | a handler that is not interrupted does what the method does, reply included |
| HelloHandler.RunsKeepInv | daemon/packet/handler/hello_message.tcc:28-79 | in every interleaving sessions are accepted, every route has a session and is that of one hello of its destination, a finished handler was rejected only if its certificate is not accepted, and a handler has its one reply exactly when it has finished in the answering branch |
| HelloHandler.RunsKeepAdded | daemon/packet/handler/hello_message.tcc:28-79 | in every interleaving each routed destination has a finished hello that took the branch for an unknown route |
| HelloHandler.FirstHelloUnanswered | daemon/packet/handler/hello_message.tcc:28-79 | in every interleaving, for a hello that is answered or about to be, another hello of the same peer has added the route and finished without an answer |
| HelloHandler.UnknownPeerUnanswered | daemon/packet/handler/hello_message.tcc:28-79 | an undisturbed hello from a peer without a route, as with the empty table, is not answered, and adds the route exactly when the call succeeds |
| HelloHandler.RoutedPeersHaveSessions | daemon/p2p_server_context.cc:269-271 | looking up the next hop after a successful check never misses its entry, and every routed destination has an accepted session |
| HelloHandler.RunsKeepGot | daemon/p2p_server_context.cc:269-271 | in every interleaving the next hop a lookup got is an address that a hello of its destination came from |
| HelloHandler.LookupAlone | daemon/p2p_server_context.cc:269-271 | an undisturbed lookup gets the address the table holds, and none exactly when there is no route |
| HelloHandler.RunsGrow | daemon/packet/handler/hello_message.tcc:30-79 | between any two moments of a run sessions never change, routes are never removed and their ttl never rises |
| ServerContext.P2PServerContext.ReadCallback | daemon/p2p_server_context.cc:255-286 | a packet with ttl 0 is dropped, a cached signature suppressed, and of the rest those for this device are handled and all others forwarded: with ttl 2 or more and a known route to that one address, otherwise to every table entry as often as its address occurs; the cache changes by exactly one lookup |
| ServerContext.P2PServerContext.BroadcastAll | daemon/p2p_server_context.cc:275-278 | one send per table entry, in some order: every address as often as entries have it |
| ServerContext.TargetsExact | daemon/p2p_server_context.cc:267-281 | a known route is followed alone from ttl 2 on, in all other cases every address is sent to as often as entries have it |
| ServerContext.TargetsBounded | daemon/p2p_server_context.cc:267-281 | one packet never becomes more sends than the table has entries |
| ServerContext.SendPacketTcp | daemon/packet/packet_tasks.cc:12-42 | exactly when the connection stands, the message is sent with its ttl lowered by one (0 wraps to 2^32 - 1) and the port set; otherwise nothing changes |
| Overlay.StepBudget | daemon/packet/packet_tasks.cc:33 | submitted copies keep a ttl of 1 to 10 and copies on the wire at most 9, so the decrement never wraps |
| Overlay.StepPotential | daemon/p2p_server_context.cc:255-286 | every delivery strictly lowers the sum of (N+1)^ttl over the copies of its packet, putting a copy on the wire keeps it exactly, and only originating adds, exactly (N+1)^9 |
| Overlay.FloodingTerminates | daemon/p2p_server_context.cc:255-345 | in every run a packet is delivered at most (N+1)^9 times per time it was sent, copies still in flight included |
| Overlay.CopiesBounded | daemon/p2p_server_context.cc:267-281 | the copies ever submitted of a packet are bounded by 1 + N (N+1)^9 per time it was sent |
| Overlay.RunsMove | daemon/packet/packet_tasks.cc:12-42 | in every run the sends, failures, losses and deliveries of a packet, together with those its copies in flight can still make, are at most two per copy submitted |
| Overlay.MovesBounded | daemon/p2p_server_context.cc:255-345 | hence all activity about a packet is at most 2 (1 + N (N+1)^9) steps per time it was sent |
| Overlay.RunsKeepCaches | daemon/p2p_server_context.cc:258-263 | in every run a node's cache is that of its lookups, and it accepts a packet exactly on a miss |
| Overlay.AcceptsOnce | daemon/p2p_server_context.cc:258-263 | a node reached by at most capacity non-empty signatures forwards or handles each at most once |
| Overlay.FewCopies | daemon/p2p_server_context.cc:258-281 | then, over the whole overlay, a packet becomes at most N copies per node on top of those it was sent as |
| Overlay.HandledByReceiver | daemon/p2p_server_context.cc:265-285 | in every run a packet is handled only by the node whose device id is its receiver and forwarded only by others, dropped for its ttl exactly at ttl 0, copied only when forwarded, and its receiver is the one it was sent with |
| Overlay.UnaddressedNeverHandled | daemon/p2p_server_context.cc:341-353 | a packet sent without a receiver is never handled by a node with a nonempty device id |
| Overlay.RunsStayNear | daemon/p2p_server_context.cc:255-286 | in every run a copy is exactly as many routing links away from where its packet was sent as it has spent hops |
| Overlay.AcceptedNear | daemon/p2p_server_context.cc:345 | hence a packet is forwarded or handled only within 8 links of the node it was sent to, and no copy gets further than 9 |
| Overlay.PacketsArrive | daemon/p2p_server_context.cc:255-345 | from any state of any run, a packet sent to the start of a path of at most 9 nodes that the tables open to its receiver, with no cache on it holding the signature, can be handled there with ttl 10 minus the nodes passed; along known routes by one send per node and nothing else |
| Base64.TablesInvert | daemon/management_api/utils/base64_utils.cc:9-33 | the two tables are inverse to each other and padding is outside the alphabet |
| Base64.EncodeText | daemon/management_api/utils/base64_utils.cc:35-58 | stays in bounds if and only if plain char is unsigned or all bytes are below 128, and then returns 4 * ceil(n / 3) characters: the letter at each six bits of the text, '=' behind them |
| Base64.PlainBytes | daemon/management_api/utils/base64_utils.cc:39-56 | out of bounds is exactly: plain char is signed and a byte is 128 or more |
| Base64.AlphabetText | daemon/management_api/utils/base64_utils.cc:9-14 | the table is A-Z, a-z, 0-9, + and /, in this order |
| Base64.EncodeChars | daemon/management_api/utils/base64_utils.cc:35-58 | character k of an encoding is the letter at bits 6k to 6k + 5 of the text, zeros filling up, and '=' once the text is used up |
| Base64.DecodeText | daemon/management_api/utils/base64_utils.cc:60-84 | decodes group by group, ignoring an incomplete last group, for arbitrary bytes |
| Base64.AnyGroup | daemon/management_api/utils/base64_utils.cc:64-81 | the bytes any four characters decode to, by arithmetic on their table values; a character outside the alphabet counts as 64 and drops a byte when third or fourth |
| Base64.DecodeEncode | daemon/management_api/utils/base64_utils.cc:35-84 | decode(encode(t)) = t for every text, all three tail cases |
| Base64.EncodeDecode | daemon/management_api/utils/base64_utils.cc:35-84 | encode(decode(s)) = s if and only if s is canonical |
| Base64.EncodeCanonical | daemon/management_api/utils/base64_utils.cc:35-58 | every encoding is canonical and 4 * ceil(n / 3) long |
| Base64.EncodeInjective | daemon/management_api/utils/base64_utils.cc:35-58 | different texts have different encodings |
| FileNode.FileNode.ReplaceBlocks | daemon/file/models/file.cc:42-65 | true exactly when all indices are in range; then the writes are applied in order, the size field moves by as much as the sum of the blocks, modulo 2^64, and the passed pointers are moved out; otherwise nothing changes |
| FileNode.FileNode.AddAndReplaceBlock | daemon/file/models/file.cc:67-91 | true exactly when the index is inside the file; then block k of the call stands at index + k, every other block stays, the file ends at the larger of its old length and index plus the number of blocks, with the same size accounting |
| FileNode.SizeMoves | daemon/file/models/file.cc:53-88 | a size field that was the sum of the block sizes modulo 2^64 stays so |
| FileNode.LastWriteWins | daemon/file/models/file.cc:53-62 | on repeated indices the last write stays |
| FileNode.OthersKept | daemon/file/models/file.cc:53-62 | indices that are not named keep their block |
| FileNode.SpliceIsBatch | daemon/file/models/file.cc:42-91 | inside the file the splice is the batch of its single writes |
| CommandParser.ParseCommand | daemon/interface/utils/command_parser.cc:18-65 | the erasing loop returns the space-separated tokens of the trimmed text, unless an argument other than the last opens with a quote; then it diverges if another quote follows that argument, and otherwise ends in the error or in the exception of its text |
| CommandParser.DivergesIff | daemon/interface/utils/command_parser.cc:18-65 | the argument loop, pass by pass as written, never ends if and only if Parse says Diverges |
| CommandParser.LoopDecides | daemon/interface/utils/command_parser.cc:43-64 | the same for the text behind the command, and after however many passes the loop ends, the result or error it leaves is the outcome of Parse |
| CommandParser.QuotingNeverEnds | daemon/interface/utils/command_parser.cc:44-52 | at an argument that opens with a quote, with a closing quote after the first space, no number of passes ends the loop: n passes leave the input and append the same piece n times |
| CommandParser.ErrorTextThrowsIff | daemon/interface/utils/command_parser.cc:67-99 | the padding of the error text has an impossible length if and only if the text is 80 or more characters long and the error position is 77 or later |
| CommandParser.JoinSplit | daemon/interface/utils/command_parser.cc:33-58 | splitting at single spaces loses nothing and leaves no space in a token |
| CommandParser.ParseKeepsText | daemon/interface/utils/command_parser.cc:18-65 | a successful parse joined with single spaces is the trimmed input |
| CommandParser.ParseInvertsJoin | daemon/interface/utils/command_parser.cc:18-65 | with any number of spaces before a join of space-free tokens, and of newlines and then spaces behind it, parsing returns the tokens if and only if the command is nonempty, the last token does not end in a newline and is nonempty or protected by a newline behind it, and no argument in between opens with a quote |
| CommandParser.TrimmedIff | daemon/interface/utils/command_parser.cc:21-24 | trimming leaves t if and only if the input is t with spaces before it and newlines, then spaces, behind it, for all such texts |
| CommandParser.TrimFrontExact | daemon/interface/utils/command_parser.cc:22 | takes off every leading character c and nothing else |
| CommandParser.TrimBackExact | daemon/interface/utils/command_parser.cc:23-24 | takes off every trailing character c and nothing else |
| CommandParser.ParseOutcomes | daemon/interface/utils/command_parser.cc:18-65 | which of the five outcomes an input has: empty text; tokens when no argument but the last opens with a quote; else, from the first that does, divergence if a quote follows it, and the error or, from 80 characters with a space at 77 or later, the exception |

## Left out

- Sockets, libevent, configuration, logging, HTTP, YAML, JSON and sqlite: plumbing around the modelled logic; a send is a copy added to those in flight, a failing socket call a flag.
- Signing and verification with OpenSSL: an accepted certificate is a predicate, a signature a string.
- Splitting a connection's bytes into packets in `read_callback`: the model starts from one parsed message.
- The thread pool and the compare-and-swap queue: a submitted task is a step that may happen later or fail; nothing is claimed about when.
- Fairness: that an arriving packet can be handled is shown by a run, not for all schedules, as the wire may lose it.
- Whether hello exchanges ever go quiet: replies are new packets, and only the forwarding of existing packets is shown to end.
- The characters of the error text of an unpaired quote: only whether it can be built is modelled.
- `FileNode::add_block` and the single-block `replace_block`: they do not touch the size field, so there is no accounting to state.
- FileNode.FileNode.constructor: the size field is uninitialised in the source, so the laws are about how it moves, not about its value.
- HelloHandler.RunsKeepInv: pool and table calls are single atomic steps; that an update of the table may be taken so is RoutingTable.RunsLinearize.
- Overlay.AcceptsOnce: not claimed for packets with an empty signature, which is the default value the cache starts with.
- Management commands, inode and machine-id helpers, address parsing: wrappers around libraries.
