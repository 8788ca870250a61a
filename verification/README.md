# Verified model of the proxy server's data structures, codecs and handshake, and of the BBR module

The project models the parts of the repository whose correctness is not visible in any single function body, and proves what
they promise over whole runs, for all inputs. It is plain Dafny; `dafny verify dfyconfig.toml` checks everything.

Code that changes things in place is modelled as classes and arrays that change in place: the hash table with its two families
of links, the cache, the receive buffers, the chunk state, the keystream context, the substitution table, the obfuscation object,
the BBR fields of a socket, and the parser. Each such method is tied to a specification on values, and the statements about runs
are proved about that specification.

| files | what they model |
|---|---|
| `Bits`, `Buffers`, `GrowingBuffer`, `Sequences` | machine words as ranges of integers, exclusive or, masks; memcpy and memmove; the growing buffer; concatenation |
| `Handles`, `Buckets`, `UtHash` | `uthash.h`: entries in a bucket chain and in the insertion-order list at once |
| `StableSort`, `HashSort` | HASH_SRT, and what stable sorting means |
| `Lru`, `Cache` | `cache.c`, and the plain list that it refines |
| `Crc32`, `Adler32` | `crc32.c`, against RFC 1952 and RFC 1950 |
| `Framing`, `Reception` | any receiver that takes frames off a byte stream, and its fixed buffer |
| `VerifySimple`, `AuthSha1`, `Macs`, `AuthAes128` | the frames of `verify.c` and `auth.c` |
| `StreamCipher`, `TableCipher`, `ChunkHash` | `encrypt.c`: stream mode, table mode, authenticated chunks |
| `TlsRecords`, `TlsHello`, `TlsTicket` | `tls1.2_ticket.c` |
| `TlsSni`, `TlsClientHello` | the parser of `tls.c`, and every ClientHello of RFC 5246 against it |
| `BbrModel`, `BbrInvariants`, `BbrAck`, `BbrControl`, `BbrProbeRtt`, `BbrArithmetic`, `BbrSocket` | `tcp_bbr_mod.c` |
| `JsonControl`, `JsonPasses`, `JsonMemory`, `JsonLayout`, `JsonBlocks` | one iteration of the loop of `json_parse_ex`, both passes, and their memory |
| `JsonSyntax`, `JsonGrammar`, `JsonReading`, `JsonDecode` | the grammar of RFC 8259 and what its texts denote, against the parser |
| `JsonLanguage` | the language that the parser accepts, exactly |
| `JsonParser`, `JsonParse`, `JsonFree` | the parser as it runs, its entry, and the free loop |

How the main results hang together:

- Fragmentation is treated once. `Framing` proves, for any receiver whose decision about the bytes it has does not change when
  more arrive, that the way a stream is cut plays no role. Every protocol then shows two things: its receiver is of that kind, and
  a packed frame is taken whole and never early.
- The cache is proved against a plain list; what an LRU cache promises (order by last touch, eviction of the oldest, size, each
  payload handed back once) is proved about runs of that list.
- BBR is a function from state, socket and event to state and socket; the invariant and the statements about PROBE_RTT visits are
  about every run, with the rest of the stack free to change the socket between events. What one ACK
  does is stated once more in plain numbers, for the whole of it.
- The parser's iteration is split into what it decides (cursor, flags, kinds of the open values) and what it does to memory
  (events). Pass 1 and pass 2 make the same events; counting them gives exactly the sizes that filling needs; the tree they build
  denotes what the grammar says. The class `Parser` does the same on its fields.

Cryptographic functions are parameters: a keystream byte for every initial vector and position, and an authentication code of
at least 16 bytes for every key and message. Random draws are arbitrary values in the range that the code masks them to. Clocks
are parameters.

## Model

| member | source | states |
|---|---|---|
| UtHash.HashTable.Find | openwrt-passwall-packages/shadowsocksr-libev/src/server/uthash.h:119-136 | The answer of a plain map: null only when no entry of the insertion-order list has the key, otherwise an entry of the list with that key |
| UtHash.HashTable.Add | openwrt-passwall-packages/shadowsocksr-libev/src/server/uthash.h:284-305 | For a key that is absent: the list grows by the new entry at its end, and chains, buckets, counts and links stay consistent, through a doubling too |
| UtHash.HashTable.Delete | openwrt-passwall-packages/shadowsocksr-libev/src/server/uthash.h:337-370 | Exactly the given entry leaves the list and its chain; head, tail, links and counts stay consistent, also when the table becomes empty |
| UtHash.HashTable.AddToBkt | openwrt-passwall-packages/shadowsocksr-libev/src/server/uthash.h:736-747 | The bucket array doubles exactly when the bucket is crowded and doubling is not forbidden; then the ideal chain length is the items per new bucket rounded up, and nonideal_items the sum of the excess over it; otherwise nothing but the chain changes |
| UtHash.HashTable.ExpandBuckets | openwrt-passwall-packages/shadowsocksr-libev/src/server/uthash.h:791-837 | After a doubling every entry of the list sits in the bucket its hash selects among twice as many, the per-bucket multipliers fit the new ideal length, and two ineffective doublings in a row forbid more |
| UtHash.HashTable.AppendList | openwrt-passwall-packages/shadowsocksr-libev/src/server/uthash.h:225-231 | A new last element, linked both ways, becomes the tail |
| UtHash.HashTable.Clear | openwrt-passwall-packages/shadowsocksr-libev/src/server/uthash.h:974-983 | An empty table again |
| Buckets.IdealChainMaxlen | openwrt-passwall-packages/shadowsocksr-libev/src/server/uthash.h:801-803 | The shift-and-mask formula is the division by the doubled bucket count, rounded up |
| Buckets.ToBktInRange | openwrt-passwall-packages/shadowsocksr-libev/src/server/uthash.h:320-323 | Masking with a power of two less one is the remainder, so every hash selects an existing bucket |
| Buckets.RehashAll | openwrt-passwall-packages/shadowsocksr-libev/src/server/uthash.h:805-824 | The two nested loops move every entry of every old chain to exactly one new chain and count the excess exactly |
| Buckets.RehashChain | openwrt-passwall-packages/shadowsocksr-libev/src/server/uthash.h:807-822 | Emptying one chain in place, by its saved next pointers, loses no entry and leaves the others in their buckets |
| Buckets.PushIntoChains | openwrt-passwall-packages/shadowsocksr-libev/src/server/uthash.h:736-742 | The new entry stands in front of its chain, every other chain is untouched |
| Buckets.DropFromChains | openwrt-passwall-packages/shadowsocksr-libev/src/server/uthash.h:750-760 | The entry leaves its chain, its neighbours close the gap, every other chain is untouched |
| HashSort.HashSrt | openwrt-passwall-packages/shadowsocksr-libev/src/server/uthash.h:844-929 | The in-place linked merge sort ends, for every list of at most 2^32 elements (all that a 32-bit item count allows), with the list in the order that bottom-up merging gives, linked both ways from head to tail, with the same elements |
| HashSort.SortRound | openwrt-passwall-packages/shadowsocksr-libev/src/server/uthash.h:853-926 | One pass merges all neighbouring runs and goes on exactly while more than one merge was needed; insize doubles as a 32-bit unsigned |
| HashSort.MergeRuns | openwrt-passwall-packages/shadowsocksr-libev/src/server/uthash.h:869-914 | One merge of two runs in place: ties come from the first run, and nothing behind the second run is lost |
| HashSort.HashSrtIsStableSort | openwrt-passwall-packages/shadowsocksr-libev/src/server/uthash.h:844-929 | For every total preorder the result is the stable sort of the keys, and a permutation of them |
| UtHash.HashTable.Sort | openwrt-passwall-packages/shadowsocksr-libev/src/server/uthash.h:844-929 | Only the insertion-order list of the table is rearranged; the buckets and chains stay as they were and the table stays consistent |
| StableSort.BottomUpSorts | openwrt-passwall-packages/shadowsocksr-libev/src/server/uthash.h:844-929 | Passes with doubling run length, for any list length and any total preorder, give a sorted list with ties in their first order |
| StableSort.MergeTies | openwrt-passwall-packages/shadowsocksr-libev/src/server/uthash.h:869-914 | Merging two sorted runs keeps every tie of the first before those of the second |
| StableSort.StableIsUnique | openwrt-passwall-packages/shadowsocksr-libev/src/server/uthash.h:844-929 | There is only one sorted arrangement with ties in their first order, so the specification leaves nothing open |
| StableSort.TieOrder | openwrt-passwall-packages/shadowsocksr-libev/src/server/encrypt.c:319-389 | Two elements that a stable sort cannot tell apart stood in the same order before |
| Cache.Cache.Insert | openwrt-passwall-packages/shadowsocksr-libev/src/server/cache.c:269-308 | For a key that is not cached: refines insertion at the end of a plain list, and eviction of its first item once the capacity is reached |
| Cache.Cache.Lookup | openwrt-passwall-packages/shadowsocksr-libev/src/server/cache.c:208-229 | A hit answers the payload and moves the item to the end with the present time; a miss changes nothing |
| Cache.Cache.KeyExist | openwrt-passwall-packages/shadowsocksr-libev/src/server/cache.c:231-251 | Answers whether the key is cached, with the same effect as a lookup |
| Cache.Cache.Remove | openwrt-passwall-packages/shadowsocksr-libev/src/server/cache.c:161-186 | Removes the item with the key, if any, and hands back its payload once |
| Cache.Cache.Clear | openwrt-passwall-packages/shadowsocksr-libev/src/server/cache.c:119-146 | Removes exactly the expired items while it walks the list that it shrinks |
| Cache.Cache.Delete | openwrt-passwall-packages/shadowsocksr-libev/src/server/cache.c:79-107 | Empties the table, and hands back every payload unless the data is kept |
| Cache.Cache.Execute | openwrt-passwall-packages/shadowsocksr-libev/src/server/cache.c:49-308 | Any run of calls on a new cache, each insertion after a look-up that failed, ends in the state that the plain list ends in |
| Lru.Bounded | openwrt-passwall-packages/shadowsocksr-libev/src/server/cache.c:292-305 | Over every run a cache of capacity c >= 1 never holds more than c - 1 items after a call |
| Lru.ByTimeRun | openwrt-passwall-packages/shadowsocksr-libev/src/server/cache.c:215-222 | With a clock that does not go back the list is sorted by timestamp after every run |
| Lru.ByRecencyRun | openwrt-passwall-packages/shadowsocksr-libev/src/server/cache.c:208-308 | Over every run the list is strictly ordered by the last call that touched each key |
| Lru.EvictsLeastRecent | openwrt-passwall-packages/shadowsocksr-libev/src/server/cache.c:292-305 | An insertion that reaches the capacity evicts, of the cached items and the new one, the item whose last touch is oldest, and no other; at capacity 1 that is the new one |
| Lru.ClearDropsPrefix | openwrt-passwall-packages/shadowsocksr-libev/src/server/cache.c:119-146 | On a list sorted by time the expired items are exactly a prefix, and exactly that prefix goes |
| Lru.Conserved | openwrt-passwall-packages/shadowsocksr-libev/src/server/cache.c:79-308 | Over every run each non-null payload is either still cached or was handed back, once |
| Crc32.InitCrc32Table | openwrt-passwall-packages/shadowsocksr-libev/src/server/crc32.c:3-17 | Every entry is the remainder of its index after eight shifts by the polynomial |
| Crc32.EightShifts | openwrt-passwall-packages/shadowsocksr-libev/src/server/crc32.c:3-26 | Eight shifts act on the low byte and on the rest separately, which is why 256 entries are enough |
| Crc32.TableStep | openwrt-passwall-packages/shadowsocksr-libev/src/server/crc32.c:19-26 | One table look-up does what the eight bit steps of section 8 of RFC 1952 do |
| Crc32.Checksum | openwrt-passwall-packages/shadowsocksr-libev/src/server/crc32.c:19-26 | The table-driven loop computes the bit-by-bit checksum of section 8 of RFC 1952, for every length |
| Crc32.FillCrc32 | openwrt-passwall-packages/shadowsocksr-libev/src/server/crc32.c:41-53 | The last four bytes of the range become the uncomplemented register of the bytes before them, least significant first; nothing else changes |
| Crc32.SealedAccepted | openwrt-passwall-packages/shadowsocksr-libev/src/server/crc32.c:41-53 | The checksum of a completed frame is 0xFFFFFFFF whatever its content is |
| Crc32.SelfCancelling | openwrt-passwall-packages/shadowsocksr-libev/src/server/crc32.c:41-53 | Feeding the register its own four bytes empties it |
| Adler32.AdlerShort | openwrt-passwall-packages/shadowsocksr-libev/src/server/crc32.c:55-62 | A block of at most 5552 bytes: the deferred modulo gives what a modulo after every byte would, and no 32-bit addition wraps |
| Adler32.StaysSmall | openwrt-passwall-packages/shadowsocksr-libev/src/server/crc32.c:55-62 | The bound on both sums that holds after every byte of a block, below 2^32 |
| Adler32.NmaxIsTight | openwrt-passwall-packages/shadowsocksr-libev/src/server/crc32.c:55-75 | 5552 is the longest block for which the bound stays below 2^32; one byte more exceeds it |
| Adler32.Checksum | openwrt-passwall-packages/shadowsocksr-libev/src/server/crc32.c:65-75 | The Adler-32 of section 2.2 of RFC 1950, for every length |
| Adler32.FillAdler32 | openwrt-passwall-packages/shadowsocksr-libev/src/server/crc32.c:78-86 | The last four bytes become the checksum of those before, least significant first |
| Adler32.CheckAdler32 | openwrt-passwall-packages/shadowsocksr-libev/src/server/crc32.c:88-96 | Answers whether the last four bytes are the checksum of those before |
| Adler32.SealedAccepted | openwrt-passwall-packages/shadowsocksr-libev/src/server/crc32.c:78-96 | Every buffer that filladler32 completed is accepted by checkadler32 |
| Framing.DrainInTwo | openwrt-passwall-packages/shadowsocksr-libev/src/server/verify.c:143-188 | For a receiver whose decisions do not change when more bytes follow, taking frames off in two instalments gives what taking them off at once gives |
| Framing.PiecesDoNotMatter | openwrt-passwall-packages/shadowsocksr-libev/src/server/verify.c:143-188 | Such a receiver ends, for every stream and every way of cutting it, with the status, output, rest and counter that the whole stream gives |
| Framing.PrefixDelivered | openwrt-passwall-packages/shadowsocksr-libev/src/server/auth.c:427-481 | After any prefix of a stream of frames exactly the complete frames are delivered, the counter is theirs, and what is kept is less than one frame, or one complete frame without payload |
| Framing.StreamDelivered | openwrt-passwall-packages/shadowsocksr-libev/src/server/auth.c:427-481 | A whole stream of frames, cut in any way, delivers exactly its payloads in order |
| Framing.ChopLosesNothing | openwrt-passwall-packages/shadowsocksr-libev/src/server/verify.c:45-71 | The units that the pre_encrypt loops cut are the plaintext |
| Framing.SmallPiecesFit | openwrt-passwall-packages/shadowsocksr-libev/src/server/auth.c:427-434 | A bound on the pieces alone, the buffer less the longest frame, implies that no call on a stream of frames is refused for its size |
| Framing.RejectedExactly | openwrt-passwall-packages/shadowsocksr-libev/src/server/verify.c:143-188 | For any such receiver, every stream and every cut: it is rejected exactly when the bytes behind some frames that are taken are ones it refuses |
| Framing.StreamThenBad | openwrt-passwall-packages/shadowsocksr-libev/src/server/auth.c:841-921 | A stream of frames followed by something that the receiver refuses by then is rejected, however it arrives |
| VerifySimple.PackData | openwrt-passwall-packages/shadowsocksr-libev/src/server/verify.c:34-43 | The frame stands in the output at its place, with some padding of 1 to 16 bytes, and nothing else changes |
| VerifySimple.PreEncrypt | openwrt-passwall-packages/shadowsocksr-libev/src/server/verify.c:45-71 | One frame per unit of 2000 bytes, in order, within twice the length and 32 bytes; cut into any pieces the output comes back from the receiver as exactly the plaintext |
| VerifySimple.PackedCarries | openwrt-passwall-packages/shadowsocksr-libev/src/server/verify.c:34-188 | The receiver takes a packed frame whole, with exactly its payload, and asks for more on every shorter prefix |
| VerifySimple.PostDecrypt | openwrt-passwall-packages/shadowsocksr-libev/src/server/verify.c:143-188 | One call on the fixed buffer refuses what does not fit, and otherwise delivers and keeps what the peeling of the buffered bytes gives |
| VerifySimple.ReceiveAll | openwrt-passwall-packages/shadowsocksr-libev/src/server/verify.c:143-188 | Any sequence of calls whose pieces fit the buffer ends as the whole stream does |
| VerifySimple.PreEncryptRecovered | openwrt-passwall-packages/shadowsocksr-libev/src/server/verify.c:45-188 | What one pre_encrypt call packed, with any padding, comes back as exactly the plaintext, for any pieces |
| VerifySimple.KeepsPartOfOneFrame | openwrt-passwall-packages/shadowsocksr-libev/src/server/verify.c:143-188 | At every moment the complete frames are delivered and a proper prefix of the next is kept |
| VerifySimple.UndefinedIff | openwrt-passwall-packages/shadowsocksr-libev/src/server/verify.c:143-188 | Over every stream and every cut: the copy becomes undefined exactly when accepted frames are followed by a complete checked frame whose padding byte exceeds its length less 6 |
| VerifySimple.RejectedIff | openwrt-passwall-packages/shadowsocksr-libev/src/server/verify.c:143-188 | Over every stream and every cut: it is rejected exactly when accepted frames are followed by a length out of range or a complete frame with a wrong checksum |
| VerifySimple.TakenIffChecked | openwrt-passwall-packages/shadowsocksr-libev/src/server/verify.c:157-181 | A frame is taken exactly when its length is in range, its checksum passes and its padding leaves room; with too much padding the copied size is negative |
| VerifySimple.OverPaddedExists | openwrt-passwall-packages/shadowsocksr-libev/src/server/verify.c:168-176 | Such a frame exists: the seven bytes that complete [0, 7, 255] have the right checksum |
| AuthSha1.PackData | openwrt-passwall-packages/shadowsocksr-libev/src/server/auth.c:331-349 | For v2 and v4: the frame with a padding that the sender can draw stands at its place, and nothing else changes |
| AuthSha1.PreEncrypt | openwrt-passwall-packages/shadowsocksr-libev/src/server/auth.c:389-425 | For v2 and v4: one frame per unit of 2000 bytes, in order, within twice the length and 4096 bytes; cut into any pieces the output comes back as exactly the plaintext |
| AuthSha1.PaddingFound | openwrt-passwall-packages/shadowsocksr-libev/src/server/auth.c:440-452 | The receiver computes the payload offset that the sender used, for one-byte and three-byte padding lengths |
| AuthSha1.PackedCarries | openwrt-passwall-packages/shadowsocksr-libev/src/server/auth.c:331-481 | A packed frame passes the length and checksum checks, gives its payload, and every shorter prefix waits |
| AuthSha1.PostDecrypt | openwrt-passwall-packages/shadowsocksr-libev/src/server/auth.c:427-481 | For v2: one call refuses what does not fit into 16384 bytes, and otherwise does what the peeling of the buffered bytes says, with the buffer cleared on a bad frame; for v4 the same with the check of the length bytes |
| AuthSha1.Recovered | openwrt-passwall-packages/shadowsocksr-libev/src/server/auth.c:585-645 | Frames for any units, with any padding, cut into any pieces, give the payload bytes in order and leave nothing |
| AuthSha1.PreEncryptRecovered | openwrt-passwall-packages/shadowsocksr-libev/src/server/auth.c:389-481 | post_decrypt undoes pre_encrypt for any padding and any pieces |
| AuthSha1.KeepsPartOfOneFrame | openwrt-passwall-packages/shadowsocksr-libev/src/server/auth.c:427-481 | At every moment a proper prefix of one frame is kept |
| AuthSha1.ReceiveAll | openwrt-passwall-packages/shadowsocksr-libev/src/server/auth.c:427-481 | Any sequence of calls whose pieces fit the buffer ends as the whole stream does, for v2 and v4 |
| AuthSha1.PiecesFit | openwrt-passwall-packages/shadowsocksr-libev/src/server/auth.c:427-434 | Frames of the sender in pieces of at most 16384 bytes less the longest frame always fit |
| AuthSha1.UndefinedIff | openwrt-passwall-packages/shadowsocksr-libev/src/server/auth.c:427-481 | Over every stream and every cut: the copy becomes undefined exactly when accepted frames are followed by a complete checked frame whose payload offset exceeds its length less 4; for v4 the same |
| AuthSha1.RejectedIff | openwrt-passwall-packages/shadowsocksr-libev/src/server/auth.c:427-481 | Over every stream and every cut: it is rejected exactly when accepted frames are followed by a length out of range, a complete frame with a wrong checksum or, for v4, a wrong code of the length |
| AuthSha1.TakenIffChecked | openwrt-passwall-packages/shadowsocksr-libev/src/server/auth.c:440-468 | A frame is taken exactly when its length is in range, its checks pass and its payload offset leaves room |
| AuthSha1.OverPaddedExists | openwrt-passwall-packages/shadowsocksr-libev/src/server/auth.c:440-468 | For v2 and v4 there is a frame with the right checks and too much padding |
| AuthAes128.PackData | openwrt-passwall-packages/shadowsocksr-libev/src/server/auth.c:648-691 | The frame, with codes under the user key and the four bytes of the present counter and with a padding that the sender can draw, stands at its place; the counter advances by one, modulo 2^32 |
| AuthAes128.PreEncrypt | openwrt-passwall-packages/shadowsocksr-libev/src/server/auth.c:803-839 | One frame per unit of 2000 bytes under consecutive counters, within twice the length and 4096 bytes; a receiver with the same counter gets exactly the plaintext back from any pieces and ends with the sender's new counter |
| AuthAes128.PackedCarries | openwrt-passwall-packages/shadowsocksr-libev/src/server/auth.c:648-921 | A receiver with the sender's counter accepts both authentication codes of a frame and takes it whole; every shorter prefix waits |
| AuthAes128.PostDecrypt | openwrt-passwall-packages/shadowsocksr-libev/src/server/auth.c:841-921 | One call does what peeling the buffered bytes under recv_id says, and recv_id counts the frames taken |
| AuthAes128.Recovered | openwrt-passwall-packages/shadowsocksr-libev/src/server/auth.c:841-921 | Frames under consecutive counters, cut into any pieces, give the payloads in order, and recv_id ends where pack_id is |
| AuthAes128.PreEncryptRecovered | openwrt-passwall-packages/shadowsocksr-libev/src/server/auth.c:803-921 | post_decrypt undoes pre_encrypt for any padding and any pieces |
| AuthAes128.LockStep | openwrt-passwall-packages/shadowsocksr-libev/src/server/auth.c:841-921 | Frame by frame: after n complete frames recv_id is the counter of the next one, and a proper prefix of that frame is kept |
| AuthAes128.ReceiveAll | openwrt-passwall-packages/shadowsocksr-libev/src/server/auth.c:841-921 | Any sequence of calls whose pieces fit the buffer ends as the whole stream does, with recv_id |
| AuthAes128.PiecesFit | openwrt-passwall-packages/shadowsocksr-libev/src/server/auth.c:841-854 | Frames of the sender in pieces of at most 16384 bytes less the longest frame always fit |
| AuthAes128.UndefinedIff | openwrt-passwall-packages/shadowsocksr-libev/src/server/auth.c:841-921 | Over every stream and every cut: the copy becomes undefined exactly when accepted frames are followed by a frame whose two codes match under its counter and whose payload offset exceeds its length less 4 |
| AuthAes128.RejectedIff | openwrt-passwall-packages/shadowsocksr-libev/src/server/auth.c:841-921 | Over every stream and every cut: it is rejected exactly when accepted frames are followed by a length or a complete frame whose code is not that of user key and counter, or a length out of range |
| AuthAes128.PackedUnder | openwrt-passwall-packages/shadowsocksr-libev/src/server/auth.c:648-691 | The layout of a frame byte by byte: both codes are made with the user key followed by the four bytes of the counter, low byte first |
| AuthAes128.InPlaceIff | openwrt-passwall-packages/shadowsocksr-libev/src/server/auth.c:855-905 | A receiver at counter j takes a frame packed under counter i exactly if both codes are the same under both counters, and refuses it otherwise |
| AuthAes128.OutOfPlaceRejected | openwrt-passwall-packages/shadowsocksr-libev/src/server/auth.c:841-921 | After any frames in order a frame of another counter, repeated or too early, is rejected as soon as one of its codes tells the counters apart, however the stream arrives |
| AuthAes128.TakenIffChecked | openwrt-passwall-packages/shadowsocksr-libev/src/server/auth.c:858-905 | A frame is taken exactly when both codes match, its length is in range and its payload offset leaves room |
| AuthAes128.OverPaddedExists | openwrt-passwall-packages/shadowsocksr-libev/src/server/auth.c:858-905 | For every code function, key and counter there is a frame that passes both codes with too much padding |
| StreamCipher.XorIc | openwrt-passwall-packages/shadowsocksr-libev/src/server/encrypt.c:293-308 | The library call, by its keystream: bytes are combined with the keystream from the start of block ic, where chacha20-ietf keeps only 32 bits of ic |
| StreamCipher.PaddedKeystream | openwrt-passwall-packages/shadowsocksr-libev/src/server/encrypt.c:1218-1235 | Padding up to the position inside the block makes the block-wise call continue the keystream at the byte counter |
| StreamCipher.KeystreamStep | openwrt-passwall-packages/shadowsocksr-libev/src/server/encrypt.c:1218-1239 | The padding in place, the block-wise call and the move over the padding use exactly the keystream bytes from the position of the counter on (the counter itself below the limit of the method), and advance the counter by len |
| StreamCipher.Encrypt | openwrt-passwall-packages/shadowsocksr-libev/src/server/encrypt.c:1199-1260 | The buffer ends as the initial vector, once per connection, followed by the ciphertext; through all reallocations |
| StreamCipher.Decrypt | openwrt-passwall-packages/shadowsocksr-libev/src/server/encrypt.c:1347-1420 | Undoes one segment at the counter; a repeated initial vector is refused with an empty buffer |
| StreamCipher.SegmentsDoNotMatter | openwrt-passwall-packages/shadowsocksr-libev/src/server/encrypt.c:1199-1260 | Below 2^38 bytes for chacha20-ietf and 2^64 for the others, the stream is the plaintext under keystream bytes 0, 1, 2, ... however it was cut |
| StreamCipher.RoundTrip | openwrt-passwall-packages/shadowsocksr-libev/src/server/encrypt.c:1199-1420 | Below the same bounds, for any segments sent and any pieces received, the first with the whole initial vector: exactly the plaintext whose ciphertext has arrived |
| StreamCipher.WholeRoundTrip | openwrt-passwall-packages/shadowsocksr-libev/src/server/encrypt.c:1199-1420 | Once everything has arrived that is the whole plaintext, below the same bounds |
| StreamCipher.PositionIsCounter | openwrt-passwall-packages/shadowsocksr-libev/src/server/encrypt.c:293-308 | The keystream position of a call is the byte counter exactly below the bound of the method; from there on chacha20-ietf starts again at position 0 |
| StreamCipher.KeystreamTurnsBits | openwrt-passwall-packages/shadowsocksr-libev/src/server/encrypt.c:293-308 | Bit by bit: the cipher turns over exactly the bits of the message where the keystream at the position has a one |
| StreamCipher.KeystreamRepeats | openwrt-passwall-packages/shadowsocksr-libev/src/server/encrypt.c:304-304 | 2^38 bytes later a call of chacha20-ietf uses the same keystream bytes again |
| StreamCipher.CutMatters | openwrt-passwall-packages/shadowsocksr-libev/src/server/encrypt.c:1199-1260 | At that bound the ciphertext depends on the cut: there is a keystream under which two bytes sent at once and one by one differ |
| GrowingBuffer.Buffer.Brealloc | openwrt-passwall-packages/shadowsocksr-libev/src/server/encrypt.c:267-278 | At least as large as asked for, never smaller than before, and the old bytes stay |
| TableCipher.CompareIsOrder | openwrt-passwall-packages/shadowsocksr-libev/src/server/encrypt.c:310-317 | The difference of unsigned remainders, returned as an int, orders bytes by key % (byte + salt): the wrap-around does no harm |
| TableCipher.MergeHalves | openwrt-passwall-packages/shadowsocksr-libev/src/server/encrypt.c:319-365 | Two adjacent sorted halves are replaced in place by their merge, with ties from the left |
| TableCipher.MergeSort | openwrt-passwall-packages/shadowsocksr-libev/src/server/encrypt.c:367-389 | The range is replaced by its stable sort, although the middle is computed in a byte |
| TableCipher.MergeSortSorts | openwrt-passwall-packages/shadowsocksr-libev/src/server/encrypt.c:367-389 | Top-down merge sort is stable, for every total preorder |
| TableCipher.TableIsPermutation | openwrt-passwall-packages/shadowsocksr-libev/src/server/encrypt.c:428-446 | For every 64-bit key all 1023 rounds leave every byte in the table exactly once |
| TableCipher.EncTableInit | openwrt-passwall-packages/shadowsocksr-libev/src/server/encrypt.c:428-450 | For every key the bytes of enc_table stand in the order that the largest salt from 1 to 1023 with different remainders decides, and dec_table is its inverse in both directions |
| TableCipher.RoundOrders | openwrt-passwall-packages/shadowsocksr-libev/src/server/encrypt.c:428-446 | One round: the remainders of its salt decide the order, and where they are the same the order of the rounds before stays |
| TableCipher.ShuffledInOrder | openwrt-passwall-packages/shadowsocksr-libev/src/server/encrypt.c:428-446 | After all rounds, of two bytes of the table the one with the smaller key remainder stands first, at the largest salt from 1 to 1023 at which the remainders differ; if they never differ, the smaller byte |
| TableCipher.TableRoundTrip | openwrt-passwall-packages/shadowsocksr-libev/src/server/encrypt.c:1263-1428 | Table mode decrypts what it encrypted, and encrypts what it decrypted, for every buffer |
| TableCipher.MapBuffer | openwrt-passwall-packages/shadowsocksr-libev/src/server/encrypt.c:1263-1269 | Each of the len bytes is replaced through the table, those behind stay |
| ChunkHash.GenHash | openwrt-passwall-packages/shadowsocksr-libev/src/server/encrypt.c:1616-1645 | The buffer ends as the length, ten bytes of the code keyed with the vector and the counter, high byte first, and the payload; the counter advances |
| ChunkHash.FramedCarries | openwrt-passwall-packages/shadowsocksr-libev/src/server/encrypt.c:1557-1645 | A receiver with the same counter accepts the chunk and takes it whole, and waits on every shorter prefix |
| ChunkHash.CheckHash | openwrt-passwall-packages/shadowsocksr-libev/src/server/encrypt.c:1557-1614 | The byte-wise loop that rewrites its own input: on success the buffer holds exactly the payloads that became complete, the chunk state holds the rest, and no write leaves the size reserved at entry |
| ChunkHash.CheckLoop | openwrt-passwall-packages/shadowsocksr-libev/src/server/encrypt.c:1569-1609 | After any number of completed chunks, output, unread input and reserved size never collide |
| ChunkHash.RoomAfter | openwrt-passwall-packages/shadowsocksr-libev/src/server/encrypt.c:1565-1609 | The bound behind that: the unread bytes never reach further than the size at entry plus what was read |
| ChunkHash.Recovered | openwrt-passwall-packages/shadowsocksr-libev/src/server/encrypt.c:1557-1645 | Chunks of any payloads below 64 KiB in any pieces: no call rejects, the outputs are the payloads, the counter has counted the chunks |
| ChunkHash.CountsChunks | openwrt-passwall-packages/shadowsocksr-libev/src/server/encrypt.c:1557-1614 | After every prefix the counter is the number of complete chunks and strictly less than one chunk is kept |
| ChunkHash.InPlaceIff | openwrt-passwall-packages/shadowsocksr-libev/src/server/encrypt.c:1580-1602 | A receiver that has counted j chunks takes a chunk made with counter i exactly if the code, keyed with the vector and the four bytes of the counter, high byte first, is the same for both |
| ChunkHash.OutOfPlaceRejected | openwrt-passwall-packages/shadowsocksr-libev/src/server/encrypt.c:1557-1645 | After any chunks in order a chunk of another counter is rejected if its code tells the counters apart, however the stream arrives |
| ChunkHash.RejectedIff | openwrt-passwall-packages/shadowsocksr-libev/src/server/encrypt.c:1557-1614 | Over every stream and every cut: it is rejected exactly when chunks that are taken are followed by a complete chunk with a wrong code |
| BbrInvariants.InitHolds | bbr-mod/src/tcp_bbr_mod.c:830-864 | The invariant holds at the start, with the pipe not full |
| BbrInvariants.StepKeeps | bbr-mod/src/tcp_bbr_mod.c:817-926 | Every callback, with any socket and any draws, keeps the invariant, and never takes back that the pipe is full |
| BbrInvariants.RunKeeps | bbr-mod/src/tcp_bbr_mod.c:477-926 | In every run of ACK, ssthresh, undo, state and transmit events: DRAIN and PROBE_BW imply a full pipe, STARTUP the opposite, the window gain follows the mode, and lt_use_bw in PROBE_BW implies the unit pacing gain |
| BbrInvariants.FullStaysFull | bbr-mod/src/tcp_bbr_mod.c:705-723 | In every run full_bw_reached, once set, stays set |
| BbrInvariants.FieldsFit | bbr-mod/src/tcp_bbr_mod.c:94-118 | full_bw_cnt, cycle_idx, lt_rtt_cnt, tso_segs_goal and both gains fit their bit-fields, so storing them loses nothing |
| BbrInvariants.LtKeeps | bbr-mod/src/tcp_bbr_mod.c:580-650 | Long-term sampling changes mode never and gains only to the unit gain or through a restart of the gain cycle, and its round counter stays below 48 |
| BbrProbeRtt.VisitLasts | bbr-mod/src/tcp_bbr_mod.c:759-806 | In every run a visit of PROBE_RTT ends only more than 100 ms after in-flight dropped to four packets, and only after an ACK for data sent since then |
| BbrProbeRtt.VisitsAreRare | bbr-mod/src/tcp_bbr_mod.c:759-806 | In every run the next visit starts more than 10 s after an exit |
| BbrProbeRtt.WindowInside | bbr-mod/src/tcp_bbr_mod.c:412-437 | Every ACK inside a visit that acknowledges data leaves at most four packets of window |
| BbrProbeRtt.ExitRestores | bbr-mod/src/tcp_bbr_mod.c:367-437 | The exiting ACK that acknowledges data leaves at least the smallest of the window at entry, the clamp, and (once the pipe was full) the target |
| BbrProbeRtt.RestoredWindow | bbr-mod/src/tcp_bbr_mod.c:367-437 | With a restore pending the window comes back to the saved one, as far as target and clamp allow |
| BbrAck.BandwidthFollows | bbr-mod/src/tcp_bbr_mod.c:653-696 | A sample that is not limited by the application, or is no smaller than the estimate, goes through the filter: the estimate ends between delivered * 2^24 / interval and the larger of that and the old one; any other ACK leaves it |
| BbrAck.RoundsCounted | bbr-mod/src/tcp_bbr_mod.c:653-668 | A round starts exactly with a valid sample for a packet sent after the last start |
| BbrAck.FullStep | bbr-mod/src/tcp_bbr_mod.c:705-723 | The pipe counts as full with the third slow round, not limited by the application, without one in between in which the estimate has grown by a quarter |
| BbrAck.FullNeedsThree | bbr-mod/src/tcp_bbr_mod.c:705-723 | In every run from the start the pipe is judged full only with a slow round that has two slow rounds before it and neither a fast one nor an undo in between |
| BbrAck.MinRttStep | bbr-mod/src/tcp_bbr_mod.c:759-806 | The round trip estimate takes every smaller sample, and any sample once ten seconds have passed |
| BbrAck.MinRttIsMin | bbr-mod/src/tcp_bbr_mod.c:759-806 | In every run the estimate stays at most any sample until an ACK finds it ten seconds old |
| BbrAck.MinRttIsSeen | bbr-mod/src/tcp_bbr_mod.c:759-806 | In every run the estimate is one of the samples or that of the start |
| BbrAck.ModeStep | bbr-mod/src/tcp_bbr_mod.c:705-806 | The mode after an ACK, exactly: PROBE_RTT is entered when the estimate is ten seconds old and left after its time and a round; STARTUP ends with a full pipe, DRAIN when in-flight is down to the target |
| BbrControl.CycleStep | bbr-mod/src/tcp_bbr_mod.c:440-496 | In PROBE_BW an ACK moves to the next of the eight phases exactly if the present one is over: after a round trip, for a probing phase not before a loss or the target at its gain, for a draining phase as soon as in-flight is down to the target |
| BbrControl.PacingStep | bbr-mod/src/tcp_bbr_mod.c:216-263 | With a full pipe the pacing rate is the bandwidth in use at the gain of the phase, up to the cap; before that it only rises, from the rate of the first round trip |
| BbrControl.WindowStep | bbr-mod/src/tcp_bbr_mod.c:367-437 | The window after an ACK, exactly, for recovery, conservation, restoring, growth with and without a full pipe, clamp and PROBE_RTT, while the counts are below 2^30 |
| BbrControl.LongTermStep | bbr-mod/src/tcp_bbr_mod.c:535-650 | Long-term bandwidth comes into use exactly when a sampling interval of 4 to 16 rounds with enough loss ends with about the bandwidth of the one before, as the mean of both, and goes out of use exactly with the 48th round in PROBE_BW |
| BbrControl.SocketStep | bbr-mod/src/tcp_bbr_mod.c:759-828 | An ACK changes nothing in the socket but rate, window and app_limited, which marks what is in flight during PROBE_RTT |
| BbrControl.OtherSteps | bbr-mod/src/tcp_bbr_mod.c:284-926 | Saving the window, restarting after idleness, undo and timeout, exactly |
| BbrArithmetic.TargetIsClose | bbr-mod/src/tcp_bbr_mod.c:330-357 | The target is even and, up to two packets, the gain times the bandwidth-delay product plus three bursts, while the products fit 64 bits |
| BbrArithmetic.RateIsClose | bbr-mod/src/tcp_bbr_mod.c:207-214 | The rate in bytes per second is the exact product, less than two below it and never above, while the products fit 64 bits |
| BbrSocket.Connection.OnAck | bbr-mod/src/tcp_bbr_mod.c:817-828 | Updating the fields in the order of bbr_main gives the state and socket of the model |
| BbrSocket.Connection.UpdateMinRtt | bbr-mod/src/tcp_bbr_mod.c:759-806 | The in-place filter, entry, visit and exit agree with the model |
| BbrSocket.Connection.LtBwSampling | bbr-mod/src/tcp_bbr_mod.c:580-650 | The in-place sampler agrees with the model |
| BbrSocket.Connection.SetCwnd | bbr-mod/src/tcp_bbr_mod.c:412-437 | The in-place window computation agrees with the model |
| BbrSocket.Connection.OnState | bbr-mod/src/tcp_bbr_mod.c:914-926 | A state change agrees with the model, a loss ending the bandwidth interval |
| BbrSocket.Connection.Run | bbr-mod/src/tcp_bbr_mod.c:817-926 | Every run of the callbacks on one connection is a run of the model, so the statements about runs are statements about the connection |
| TlsRecords.Encode | openwrt-passwall-packages/shadowsocksr-libev/src/server/tls1.2_ticket.c:89-129 | Below 1024 bytes one record in place, otherwise records cut at drawn lengths: the records of some cut of exactly the data |
| TlsRecords.RoomForAll | openwrt-passwall-packages/shadowsocksr-libev/src/server/tls1.2_ticket.c:104-120 | Up to 42848 bytes the 2048 extra bytes hold the headers of every cut that can be drawn |
| TlsRecords.NoRoomBeyond | openwrt-passwall-packages/shadowsocksr-libev/src/server/tls1.2_ticket.c:104-120 | The bound is exact: for any longer data there are draws whose records need more than was allocated |
| TlsRecords.DecodeLoop | openwrt-passwall-packages/shadowsocksr-libev/src/server/tls1.2_ticket.c:425-453 | What was left and what arrived is taken apart into complete records, whose payloads replace the caller's bytes; part of a record is kept |
| TlsRecords.RecordsDelivered | openwrt-passwall-packages/shadowsocksr-libev/src/server/tls1.2_ticket.c:84-138 | Records of any lengths, cut into any pieces, give their payloads back in order; at most a final empty record is pending |
| TlsRecords.PrefixOfRecords | openwrt-passwall-packages/shadowsocksr-libev/src/server/tls1.2_ticket.c:418-453 | At every moment the complete records are delivered, and part of one is kept |
| TlsRecords.RejectedIff | openwrt-passwall-packages/shadowsocksr-libev/src/server/tls1.2_ticket.c:425-453 | Over every stream and every cut: it is rejected exactly when complete records are followed by the start of one with another type or, for the server, another version |
| TlsHello.BuildClientHello | openwrt-passwall-packages/shadowsocksr-libev/src/server/tls1.2_ticket.c:139-227 | Written backwards from the end of the buffer, the message has the layout of section 7.4.1.2 of RFC 5246, with the right three lengths |
| TlsHello.ClientHelloAccepted | openwrt-passwall-packages/shadowsocksr-libev/src/server/tls1.2_ticket.c:499-593 | Every ClientHello of the builder passes each size, type, version and tag check of the server and the authentication check |
| TlsHello.NameReadBack | openwrt-passwall-packages/shadowsocksr-libev/src/server/tls.c:84-263 | For every name without zero bytes the parser of tls.c reads back from that ClientHello exactly the name (section 3 of RFC 6066); the empty name of an address is rejected |
| TlsHello.NameInExtensions | openwrt-passwall-packages/shadowsocksr-libev/src/server/tls.c:195-222 | parse_extensions finds the name behind the extension in front of it |
| TlsHello.PickName | openwrt-passwall-packages/shadowsocksr-libev/src/server/tls1.2_ticket.c:154-175 | The name sent is the host list from its beginning or from behind a comma on, by the draw, or nothing if it ends with a digit; it fits its 256 bytes |
| TlsHello.StartsBehindCommas | openwrt-passwall-packages/shadowsocksr-libev/src/server/tls1.2_ticket.c:163-168 | The names that can be drawn are those at the beginning and behind every comma, each once |
| TlsHello.BuildServerHello | openwrt-passwall-packages/shadowsocksr-libev/src/server/tls1.2_ticket.c:314-348 | The first 86 bytes are the ServerHello record with the right lengths |
| TlsHello.ServerHelloAccepted | openwrt-passwall-packages/shadowsocksr-libev/src/server/tls1.2_ticket.c:399-416 | The client accepts the server's answer, whatever follows it |
| TlsHello.FinishAccepted | openwrt-passwall-packages/shadowsocksr-libev/src/server/tls1.2_ticket.c:455-497 | The server accepts the client's finish message and keeps exactly what follows it |
| TlsSni.ParseTlsHeader | openwrt-passwall-packages/shadowsocksr-libev/src/server/tls.c:84-193 | The cursor loops over the byte array decide as the recursive reading of the record does, with every read inside the given length |
| TlsSni.ParseExtensions | openwrt-passwall-packages/shadowsocksr-libev/src/server/tls.c:195-222 | The same for the list of extensions |
| TlsSni.ParseServerName | openwrt-passwall-packages/shadowsocksr-libev/src/server/tls.c:224-263 | The same for the list of names; the name is cut at a zero byte as strncpy cuts it |
| TlsClientHello.NameIsFound | openwrt-passwall-packages/shadowsocksr-libev/src/server/tls.c:84-263 | For every ClientHello of section 7.4.1.2 of RFC 5246, with any session id, suites, methods, extensions in front of the server name and name types in front of the host, and whatever follows: the parser answers the first host name of the first server name extension, and that there is none otherwise |
| TlsClientHello.FoundOnlyThere | openwrt-passwall-packages/shadowsocksr-libev/src/server/tls.c:84-263 | A name is found only in a complete handshake record with a ClientHello whose counted fields stay inside it, in the extension block behind extensions of other types, in the name list behind names of other types |
| TlsTicket.ClientRun | openwrt-passwall-packages/shadowsocksr-libev/src/server/tls1.2_ticket.c:84-263 | Over every run of client_encode the output is nothing, the hello, or hello, finish message and the records of every byte given, queued ones first; the status only goes 0, 1, 8 |
| TlsTicket.StatusOverRuns | openwrt-passwall-packages/shadowsocksr-libev/src/server/tls1.2_ticket.c:265-608 | Over every interleaving of server_decode and server_encode the status stays among 0, 2, 3 and 8 and never goes back; behind the first call it moves only from 2 to 3 and 3 to 8, the latter exactly for a finish message with the right headers and code; and a call is answered exactly if it is a good hello, on time and new, before the first answer |
| TlsTicket.AnswersIff | openwrt-passwall-packages/shadowsocksr-libev/src/server/tls1.2_ticket.c:500-608 | Before it has answered, over every buffer: the server asks to send back exactly for a hello of the right layout, byte by byte, whose code under the server key and its own id is right, on time and not seen before; it refuses every other |
| TlsTicket.ChecksAreLayout | openwrt-passwall-packages/shadowsocksr-libev/src/server/tls1.2_ticket.c:499-554 | The cursor checks pass exactly on that layout, and leave the buffer only where it is too short or the id too long |
| TlsTicket.WholeHandshake | openwrt-passwall-packages/shadowsocksr-libev/src/server/tls1.2_ticket.c:84-608 | From a fresh server: the client's first call sends its hello, the server decodes and answers it, the client accepts the answer, and however the bytes behind the hello arrive, with the finish message whole, the server's outputs are the bytes given to the client as far as their records have arrived, all of them once everything has |
| TlsTicket.HelloAnswered | openwrt-passwall-packages/shadowsocksr-libev/src/server/tls1.2_ticket.c:370-608 | A client's hello is accepted and answered under its own id, and the client accepts the answer |
| TlsTicket.Conversation | openwrt-passwall-packages/shadowsocksr-libev/src/server/tls1.2_ticket.c:84-608 | Once the server has answered, however the bytes behind the hello arrive, with the finish message whole, the server's outputs are the bytes given to the client as far as their records have arrived |
| TlsTicket.WholeConversation | openwrt-passwall-packages/shadowsocksr-libev/src/server/tls1.2_ticket.c:84-608 | Once the server has answered and everything has arrived, it has delivered every byte given to the client, including those queued before the connection was open |
| TlsTicket.Downstream | openwrt-passwall-packages/shadowsocksr-libev/src/server/tls1.2_ticket.c:265-416 | The other direction: an open client delivers exactly what an open server encoded |
| TlsTicket.Obfs.ClientEncode | openwrt-passwall-packages/shadowsocksr-libev/src/server/tls1.2_ticket.c:84-263 | The in-place queue, status and buffer change as the client of the run statements does |
| TlsTicket.Obfs.ServerEncode | openwrt-passwall-packages/shadowsocksr-libev/src/server/tls1.2_ticket.c:265-368 | Before the connection is open it answers with a ServerHello, the finish headers and a code over both and goes to status 3, afterwards with records |
| TlsTicket.Obfs.ClientDecode | openwrt-passwall-packages/shadowsocksr-libev/src/server/tls1.2_ticket.c:370-416 | Before the connection is open, asks to send back exactly for an answer of at least 76 bytes whose ten code bytes are right under the server key and the id, and refuses any other; decodes records once open |
| TlsTicket.Obfs.ServerDecode | openwrt-passwall-packages/shadowsocksr-libev/src/server/tls1.2_ticket.c:418-608 | State and answer change as those of the server of the run statements |
| JsonControl.StepKeeps | openwrt-passwall-packages/shadowsocksr-libev/src/server/json.c:294-892 | Every iteration of either pass keeps the consistency of flags and top, and moves the cursor on or to a later phase, never past the end: the loop ends despite its step-backs |
| JsonPasses.SamePath | openwrt-passwall-packages/shadowsocksr-libev/src/server/json.c:282-895 | From any state outside a number, whenever pass 1 succeeds, pass 2 takes the same path with the same events |
| JsonPasses.SameNumber | openwrt-passwall-packages/shadowsocksr-libev/src/server/json.c:640-661 | Pass 2 skips exactly the characters that pass 1 read as the number |
| JsonPasses.PassesAgree | openwrt-passwall-packages/shadowsocksr-libev/src/server/json.c:282-895 | The same for whole texts |
| JsonMemory.StepWf | openwrt-passwall-packages/shadowsocksr-libev/src/server/json.c:120-206 | Every event keeps the tree: parents before children, the open values a path from the root, every closed value among its parent's children once, names and members in step |
| JsonLayout.RunFits | openwrt-passwall-packages/shadowsocksr-libev/src/server/json.c:294-892 | Whenever pass 1 succeeds, its events build a whole tree with a closed root |
| JsonLayout.StepFits | openwrt-passwall-packages/shadowsocksr-libev/src/server/json.c:294-892 | Every event that an iteration makes is one that the tree built so far allows |
| JsonBlocks.FirstPass | openwrt-passwall-packages/shadowsocksr-libev/src/server/json.c:120-206 | Pass 1 counts exactly the lengths and name bytes of the tree it reads |
| JsonBlocks.TwoPasses | openwrt-passwall-packages/shadowsocksr-libev/src/server/json.c:120-206 | Whenever pass 1 succeeds, pass 2 succeeds in blocks of the counted sizes: it uses up the allocation list in creation order, no write leaves its block, and every array, object, string and name area ends exactly full with the contents of the tree |
| JsonBlocks.FillsTree | openwrt-passwall-packages/shadowsocksr-libev/src/server/json.c:120-206 | From any point on, with cells that count the whole tree, pass 2 stays inside its blocks |
| JsonGrammar.EncodeIsUtf8 | openwrt-passwall-packages/shadowsocksr-libev/src/server/json.c:327-380 | The bytes for a \u escape are those of section 3 of RFC 3629 |
| JsonGrammar.EscapeByteMeans | openwrt-passwall-packages/shadowsocksr-libev/src/server/json.c:311-327 | A letter behind a backslash stands for the character of the table of section 7 of RFC 8259, and any other letter for itself |
| JsonGrammar.HexValueMeans | openwrt-passwall-packages/shadowsocksr-libev/src/server/json.c:52-80 | hex_value reads exactly the hexadecimal digits, with their values |
| JsonReading.DocumentRun | openwrt-passwall-packages/shadowsocksr-libev/src/server/json.c:294-892 | Every text of the grammar of sections 2 to 7 of RFC 8259, with integers below 2^63 in magnitude and no surrogate escapes, is accepted with the events of its value |
| JsonReading.ValueRun | openwrt-passwall-packages/shadowsocksr-libev/src/server/json.c:506-690 | Every value inside a text, followed by what may follow it, is read whole |
| JsonDecode.ValueBuilt | openwrt-passwall-packages/shadowsocksr-libev/src/server/json.c:120-206 | The events of a value build nodes that denote it, whatever was built before |
| JsonDecode.ParsesDocument | openwrt-passwall-packages/shadowsocksr-libev/src/server/json.c:227-896 | Every such text is parsed by both passes, and the root denotes the value that the text denotes |
| JsonParser.Parser.CountPass | openwrt-passwall-packages/shadowsocksr-libev/src/server/json.c:282-895 | The loop of pass 1 over its fields ends, and succeeds, fails or goes astray exactly as the run of the text does, with every count in place |
| JsonParser.Parser.FillPass | openwrt-passwall-packages/shadowsocksr-libev/src/server/json.c:282-895 | The loop of pass 2 ends with the filled values |
| JsonParser.Parser.Iterate | openwrt-passwall-packages/shadowsocksr-libev/src/server/json.c:294-892 | One iteration on the fields decides and changes memory as the specification of the step does, in both passes |
| JsonParser.Parser.NewValue | openwrt-passwall-packages/shadowsocksr-libev/src/server/json.c:120-206 | A new value behind the others in pass 1, the next on the allocation list with blocks of its counted sizes in pass 2 |
| JsonParse.ParseEx | openwrt-passwall-packages/shadowsocksr-libev/src/server/json.c:227-896 | Succeeds exactly for the texts of JsonLanguage.Accepted, and reads through the null pointer exactly when the first character that is not white space is a closing bracket; on success the values are a tree ready for json_value_free_ex in exactly full blocks, and for every text of the grammar the root denotes its value |
| JsonParse.BomIsSkipped | openwrt-passwall-packages/shadowsocksr-libev/src/server/json.c:254-261 | A byte order mark in front of a text plays no role, and no text of the grammar is mistaken for one |
| JsonParse.CrashesIff | openwrt-passwall-packages/shadowsocksr-libev/src/server/json.c:513-530 | From any state without an open value: the null pointer is read exactly when nothing but white space stands in front of a closing bracket |
| JsonParse.GrammarAccepted | openwrt-passwall-packages/shadowsocksr-libev/src/server/json.c:294-892 | Every text of the grammar is in the language that the parser accepts |
| JsonLanguage.LanguageIff | openwrt-passwall-packages/shadowsocksr-libev/src/server/json.c:227-896 | Pass 1 succeeds exactly on the texts of a recursive-descent grammar: that of RFC 8259 with trailing commas, missing digits behind a minus sign, any byte but zero in strings and behind a backslash, and a zero byte as the end |
| JsonLanguage.ValueLeads | openwrt-passwall-packages/shadowsocksr-libev/src/server/json.c:506-690 | From any state that looks for a value, the loop reads the value that the grammar finds there and stops where it ends, or comes to no good end if there is none |
| JsonLanguage.NumberLeads | openwrt-passwall-packages/shadowsocksr-libev/src/server/json.c:640-836 | Pass 1 takes a number exactly when sign, integer part, fraction and exponent are those of the grammar and no further character of a number follows |
| JsonLanguage.StringLeads | openwrt-passwall-packages/shadowsocksr-libev/src/server/json.c:294-425 | From inside a string the loop comes to its closing quote exactly where the grammar finds it |
| JsonFree.FreeValueEx | openwrt-passwall-packages/shadowsocksr-libev/src/server/json.c:948-994 | The loop without recursion ends and frees in the order children from last to first, then the value, using only parents and shrinking lengths |
| JsonFree.ExactlyOnce | openwrt-passwall-packages/shadowsocksr-libev/src/server/json.c:948-994 | In that order every value and every owned block occurs exactly once, and nothing of a child after its parent |
| JsonFree.WholeIsTree | openwrt-passwall-packages/shadowsocksr-libev/src/server/json.c:948-994 | Every tree that a parse builds meets what the free loop needs |

## Left out

Where the code and its comments differ, the code is modelled: the comment above `bbr_probe_rtt_mode_ms` speaks of 200 ms, the
constant is 100; the comments in `cache.c` speak of a maximum number of elements, the code keeps one fewer.

Not modelled at all:

- The user interface in JavaScript, sockets, event loop callbacks, name resolution, firewall commands, options and configuration.
- Cipher, hash and random primitives; block ciphers driven by `cipher_context_update`; the derivation of keys from passwords.
- Failures of malloc and realloc, and `json_alloc` limits.
- `base64.c`, `http_simple.c`, `http.c`, `list.c`, `rule.c`, the jump hash functions of `uthash.h`, its Bloom filter, in-order
  insertion, selection and replacement: smaller or easier than what is here.
- The protocol headers that `auth_*_pack_auth_data` sends once per connection, and the UDP variants: the models start when the
  header is sent.

What the models simplify:

- UtHash.HashTable.Add: requires an absent key and an entry that is not in the table, as every caller in the repository ensures; a doubling reverses chains, so the order among equal keys would not be stable. The hash value is an arbitrary function of the key.
- UtHash.HashTable.Find: the container pointer computed from the handle offset is the entry itself.
- HashSort.HashSrt: for lists up to 2^32 elements, all that the 32-bit item count allows; beyond that `insize` is 0 before the last pass and the loop does not end. Bucket and item counts are unbounded; they would pass 2^32 only with more entries than that.
- Cache.Cache.Insert: requires a key that is not cached, as its callers look it up first; time stamps are reals.
- AuthSha1.PostDecrypt: a checked frame with too much padding makes the copied size negative and the copy undefined in C; the model answers `Undefined` for it and says nothing about the call beyond that. UndefinedIff says exactly which streams reach it; frames of the sender never do. The header packets of both variants are not modelled.
- AuthAes128.PostDecrypt: as for auth_sha1; the keyed code is one function for both variants of the hash.
- StreamCipher.Encrypt: the static temporary buffer is a new one in every call, and the byte counter is a 64-bit unsigned. The stream theorems hold below 2^38 bytes for chacha20-ietf, whose block counter is cast to 32 bits, and below 2^64 for the other methods; KeystreamRepeats and CutMatters show what happens at the bound. A single call is taken to continue its keystream across it.
- StreamCipher.Decrypt: the answer of the cache of used initial vectors is a parameter, and the first segment holds the whole initial vector, as the callers arrange.
- TableCipher.EncTableInit: the key is a parameter; the digest of the password that it is taken from is not modelled.
- TableCipher.MergeSort: for lengths below 512, because the middle is a byte; the code sorts 256 elements with salts from 1 to 1023.
- ChunkHash.CheckHash: requires a capacity of at least two bytes for the chunk buffer, as its creation gives it.
- ChunkHash.GenHash: payloads below 64 KiB, the most that the two length bytes can say.
- TlsRecords.Encode: at most 42848 bytes per call, for which the 2048 extra bytes hold the record headers whatever lengths are drawn; beyond that some draws write past the allocation (NoRoomBeyond). The callers pass buffers of a few kilobytes.
- TlsTicket.Obfs.ServerDecode: the handshake messages arrive whole. A short hello is checked against what stands behind it in the buffer; outside the model are only buffers that end before the last byte the checks read, and session id lengths above 32. The answers of the clock comparison and of the list of seen random values are parameters: `list_have_same_cmp` answers 1 when a comparison finds a difference, so it is not stated as a membership test.
- TlsTicket.Obfs.ClientEncode: data that is queued is below 64 KiB per call. The id, the name and the random parts are arguments.
- TlsHello.PickName: host lists that fit the 1024-byte copy, with at most 128 names, whose chosen name and the rest behind it fit the 256 bytes of `sni`; the name that is sent runs to the end of the list, because the code does not cut it at the next comma.
- TlsSni.ParseTlsHeader: error texts and the allocation of the name are left out; the version byte is compared as the signed char of the platform.
- BbrInvariants.RunKeeps: time stamps and delivery counts are unbounded and do not wrap; `tcp_tso_autosize` and the random phase are inputs; the bandwidth filter of the kernel is any maximum between the new sample and the larger of it and the old one.
- BbrAck.BandwidthFollows: which value between the sample and the larger of both the windowed maximum of the kernel answers is an input; `minmax_running_max` is not part of this model.
- BbrControl.WindowStep: counts below 2^30, far from the wrap of the 32-bit sums.
- TlsClientHello.NameIsFound: names in the list are not empty, as RFC 6066 demands; the parser rejects a list that ends with an empty one.
- BbrProbeRtt.VisitLasts: the conversion of 100 ms to ticks is positive and rounds up, as that of the kernel does, and time does not go back in the run.
- BbrProbeRtt.ExitRestores: windows and packet counts below 2^30, far from the wrap of the 32-bit sums.
- BbrArithmetic.TargetIsClose: stated where the product of bandwidth, round trip time and gain is below the 64-bit limit; the model itself wraps as the code does.
- BbrSocket.Connection.OnAck: the bit-fields of `struct bbr` are grouped into records; that their values fit is FieldsFit. Statistics and the control block registration are left out.
- JsonControl.StepKeeps: comments mode, line numbers and error texts are left out. Fractions and exponents are read with their digits, but the value of a double (through `pow`) is not modelled; integers wrap as int64_t does.
- JsonReading.DocumentRun: the events are stated for the grammar with integers below 2^63 and without surrogate escapes and fractions. Which other texts are accepted is exactly JsonLanguage.Accepted, but what they denote is not stated; a lone minus sign, for one, becomes the number 0 (JsonParse.LoneMinus).
- JsonParse.ParseEx: a text whose first character that is not white space is `]`, also behind a byte order mark, makes the code read through a null pointer; the model answers NullTop exactly for these (CrashesIff). The caller must put a zero byte behind the text: a literal or a \u escape that ends there is compared with it. Acceptance is stated for texts of at most 0xFFFFFFF7 bytes, so the checks of string and array lengths never fire. Blocks are sequences inside the values, with their capacities; that a write stays inside is part of the step. The release of values after a failed pass is left out.
- JsonFree.FreeValueEx: values are numbered and the frees are logged; the memory itself is not modelled.
