# A verified model of the skynet runtime core

skynet is an actor framework for Lua. This project models the C runtime library under
`depends/skynet` and proves what its data structures, codecs, ciphers and its one concurrent protocol
promise. The Lua stack is replaced by parameters and results, and an error raised in Lua by a failure
result. Code that changes state step by step is modelled by classes and methods with loops, each proved
against a specification; what the specification promises is proved as lemmas beside it. A pointer into a
pool of nodes or slots is an index, and -1 is NULL.

To check everything: `dafny verify dfyconfig.toml`.

| file | models |
|---|---|
| `Common.dfy`, `Reading.dfy` | bytes, results, little-endian words, reading from the front of a byte string |
| `HashId.dfy` | the index-linked hash set of `hashid.h` |
| `Framing.dfy`, `NetPack.dfy`, `Reassembly.dfy` | the frames of `lua-netpack.c`, its ring and table, and whole runs of it |
| `Cluster.dfy`, `ClusterTransport.dfy` | the requests and responses of `lua-cluster.c`, alone and carried by netpack |
| `SocketBuffer.dfy`, `SocketRuns.dfy` | the chained receive buffers of `lua-socket.c`, and runs over many that share a node pool |
| `Sha1Spec.dfy`, `Sha1.dfy`, `Sha1Context.dfy`, `HmacSha1.dfy` | `lsha1.c` against FIPS 180-4 and RFC 2104 |
| `Des.dfy`, `DesStandard.dfy`, `DiffieHellman.dfy` | DES of `lua-crypt.c`, its parts against FIPS 46-3, and the key exchange |
| `ShareTable.dfy`, `ShareData.dfy`, `ShareQuery.dfy` | the frozen tables of `lua-sharedata.c`: what a faithful one is, building, reading |
| `SeriFormat.dfy`, `Seri.dfy` | the wire format of `lua-seri.c`, its writer over a block chain and its reader |
| `Utf8.dfy`, `BsonFormat.dfy`, `Bson.dfy`, `BsonIndex.dfy` | the documents of `lua-bson.c`, encoder and decoder, and replacing fields in place |
| `Stm.dfy` | the snapshot protocol of `lua-stm.c` as a state machine |

The results that reach furthest:

- Messages cut into chunks in any way, over any number of connections, are reassembled exactly
  (`Reassembly.Reassembled`), and cluster requests and responses in any number of parts come back out of
  it as they were sent (`ClusterTransport.RequestsArrive`, `ResponsesArrive`). `Reassembly.Play` runs the
  queue object itself.
- Any run of operations on buffers that share one node pool behaves like independent byte strings
  (`SocketRuns.Run`).
- The unrolled SHA-1 with its 16-word ring is the compression function of the standard, for every split of
  the message into calls (`Sha1.Transform`, `Sha1Context.HashChunks`), and HMAC is built on it
  (`HmacSha1.HmacOf`).
- DES decoding returns a text exactly for what encoding that text gives, for any S-boxes and schedule
  (`Des.DecodeInvertsEncode`); permutation, rounds, padding and byte order are those of FIPS 46-3
  (`DesStandard.InitialTable`, `RoundBoxes`, `CryptIsFeistel`). Both sides of the key exchange derive the
  same secret, through arithmetic that wraps around (`DiffieHellman.MulModP`, `Agreement`).
- A frozen table is perfectly full and agrees with its source on every key, and iteration visits each key
  once (`ShareData.NewConf`, `ShareQuery.Index`, `ShareQuery.Visit`).
- Unpacking what was packed, and decoding what was encoded, gives it back to the last byte
  (`Seri.Transfer`, `Bson.RoundTrip`); the bytes of each type are those of the format
  (`SeriFormat.IntForm`, `OtherForms`, `BsonFormat.PlainForms`, `TableForm`); replacing a field in place
  changes just that field (`BsonIndex.Replace`).
- In every interleaving of one writer and any number of readers no snapshot is used after it was freed,
  freed twice or left behind (`Stm.EveryRun`, `FreedOnce`, `NothingRemains`), and it is known exactly when
  the object that holds the snapshots is unlocked after it was freed (`Stm.CrashIff`). Every read goes
  through, and gets the newest version if the reader has not seen it (`Stm.ReadCall`).

Where the code does less than a reader might expect, the code is modelled as it is and the exact condition
is proved:

- Readers share the lock in which they leave. A reader that has dropped its reference unlocks an object that
  another reader may have freed meanwhile; a run does so exactly when the last reference is freed while
  another reader has not yet unlocked (`Stm.UnlockAfterFree`, `CrashIff`, `WholeRuns`).
- Replacing a 32-bit integer field by a wider integer succeeds and stores another number; a field gets the
  value as given exactly when its type keeps it (`BsonIndex.WideIntegerCut`, `StoredAsGiven`). The offset in
  an index entry is right exactly below 2^26 (`IdRight`).
- A packed message of 2^31 bytes or more does not come out whole (`Seri.Pack`).
- Decoding one DES block that deciphers to eight zeros scans past the front of the buffer; no other text does
  (`Des.Unpad`).
- A single call that hashes 2^29 bytes or more can lose a carry of the length count
  (`Sha1Context.CountStep`, `CountStart`, and for HMAC `HmacSha1.CountedIsHmac`).
- The modular power is P itself, not 0, for base P and exponent 1 (`DiffieHellman.PowMod`).
- An error response longer than 32K is cut (`ClusterTransport.ResponseRecovered`).
- A key that does not fit an int is looked up as the int it is cut to (`ShareQuery.CutQueryRight`).
- The UTF-8 check accepts encoded surrogates (`Utf8.Utf8Copy`).
- Looking for an empty separator in an empty buffer finds nothing (`SocketBuffer.Buffer.ReadLine`).

What is asked of callers, as in the source: chunks and socket blocks are not empty; an id is inserted when
absent, not negative and with room left, in a set of at most 2^30; sizes and counts that are C ints fit
them, and a count of bytes to read from a socket buffer is not negative; exponents are at least 1; integer
keys of tables to be shared have 32 bits, and no two keys are read alike (a table as a key is read as the
empty string); keys of BSON tables hold no NUL, special BSON strings have the shape of their type, and a
field that is replaced starts below 2^26. Host byte order is little-endian. Doubles and light userdata are
opaque 64-bit words.

## Model

| member | source | states |
|---|---|---|
| HashId.HashId.constructor | depends/skynet/service-src/hashid.h:21-39 | An empty set; the number of buckets is a power of two, at least 16, at least `max` and less than twice `max` |
| HashId.HashId.Walk | depends/skynet/service-src/hashid.h:54-61 | The walk of a bucket ends; it finds the slot that holds the id and that slot's predecessor in the chain, or shows that the id is not live |
| HashId.HashId.Lookup | depends/skynet/service-src/hashid.h:52-62 | An id's slot exactly while the id is live, else -1 |
| HashId.HashId.FindFree | depends/skynet/service-src/hashid.h:93-102 | The first free slot in probe order; there is one whenever the set is not full |
| HashId.HashId.Insert | depends/skynet/service-src/hashid.h:91-113 | An absent id gets a slot no live id has, the first free one in probe order; every other id keeps its slot and `count` grows by one |
| HashId.HashId.Remove | depends/skynet/service-src/hashid.h:64-89 | The id leaves, all others keep their slots, and its old slot, or -1, is returned |
| HashId.LiveSlots | depends/skynet/service-src/hashid.h:115-118 | `count` slots are in use by as many ids, all in different slots; the set is full exactly when no slot is free |
| HashId.LiveIsChained | depends/skynet/service-src/hashid.h:52-62 | Every live id is on the chain of its own bucket |
| HashId.InsertedKeeps | depends/skynet/service-src/hashid.h:102-112 | Linking a free slot in at the head keeps all chains finite, disjoint, unique in ids and in their own buckets |
| HashId.RemovedKeeps | depends/skynet/service-src/hashid.h:72-88 | So does unlinking a slot anywhere in a chain |
| Framing.FramesOfConcat | depends/skynet/lualib-src/lua-netpack.c:188-307 | Cutting a stream anywhere: the frames of the whole are those of the first part and then those of what it left over with the second part |
| Framing.FramesOfPacked | depends/skynet/lualib-src/lua-netpack.c:430-452 | A stream of packed messages is read back as exactly those messages, with nothing left over |
| Framing.FromHeader | depends/skynet/lualib-src/lua-netpack.c:182-215 | What a two-byte size in front of bytes means, whether or not as many bytes are there |
| Framing.Layout | depends/skynet/lualib-src/lua-netpack.c:182-215 | The first two bytes, the high one first, are the length of the frame behind them; until it is whole no frame is there |
| Framing.PackIs | depends/skynet/lualib-src/lua-netpack.c:430-452 | A message is packed exactly below 64K: its length in two bytes, the high one first, and the message |
| NetPack.NetPack.ExpandQueue | depends/skynet/lualib-src/lua-netpack.c:133-148 | A full ring moves to a larger one with its packets in order from index 0 |
| NetPack.NetPack.PushData | depends/skynet/lualib-src/lua-netpack.c:150-167 | The packet becomes the last of the queue, whether or not the ring had to grow |
| NetPack.NetPack.Pop | depends/skynet/lualib-src/lua-netpack.c:396-410 | The oldest packet leaves; nothing is returned exactly when the queue is empty |
| NetPack.NetPack.Clear | depends/skynet/lualib-src/lua-netpack.c:61-82 | Every queued packet is released, and every partial record with it |
| NetPack.NetPack.FindUncomplete | depends/skynet/lualib-src/lua-netpack.c:92-114 | The record of the fd, if any, is taken out of the table; all others stay |
| NetPack.NetPack.Save | depends/skynet/lualib-src/lua-netpack.c:169-180 | A record enters the bucket of its fd, which had none |
| NetPack.NetPack.PushMore | depends/skynet/lualib-src/lua-netpack.c:188-215 | All whole frames of the bytes are queued in order and the rest is kept for the fd |
| NetPack.NetPack.Resume | depends/skynet/lualib-src/lua-netpack.c:231-282 | A chunk after a partial record, even one of a single header byte, acts like the saved bytes followed by the chunk |
| NetPack.NetPack.Start | depends/skynet/lualib-src/lua-netpack.c:283-306 | A chunk with no partial record acts on its own bytes |
| NetPack.NetPack.Filter | depends/skynet/lualib-src/lua-netpack.c:227-307 | For every chunk: the answer, the packets queued and the bytes kept are those of the fd's unread bytes taken as one stream |
| NetPack.OutcomeCases | depends/skynet/lualib-src/lua-netpack.c:227-307 | Nothing is answered until the first frame is whole; the data directly exactly when one frame is all there is; else the queue gets every whole frame, in order and with the fd |
| NetPack.NetPack.CloseUncomplete | depends/skynet/lualib-src/lua-netpack.c:217-225 | What was kept for the fd is dropped |
| NetPack.WithRecordOk | depends/skynet/lualib-src/lua-netpack.c:169-180 | A new record keeps every fd in its own bucket and with one record at most |
| NetPack.WithoutRecordOk | depends/skynet/lualib-src/lua-netpack.c:92-114 | Taking a record out keeps it so, and that fd has none left |
| NetPack.NetPack.constructor | depends/skynet/lualib-src/lua-netpack.c:116-131 | An empty queue and an empty table of partial records |
| NetPack.NetPack.SaveRest | depends/skynet/lualib-src/lua-netpack.c:192-207 | What is left of a chunk, from a single header byte up to all but one byte of a frame, is kept as it is |
| NetPack.NetPack.Finish | depends/skynet/lualib-src/lua-netpack.c:248-302 | A completed frame is answered directly when it is all there is, else queued with those that follow |
| Reassembly.StepCompletes | depends/skynet/lualib-src/lua-netpack.c:227-307 | The packet answered and the packets queued by a call are together all frames completed by it, in order |
| Reassembly.Reassembled | depends/skynet/lualib-src/lua-netpack.c:227-307 | In any interleaving of chunks of any number of fds, the packets completed for an fd are the frames of its concatenated bytes, and what is kept is the rest |
| Reassembly.QueueIsFifo | depends/skynet/lualib-src/lua-netpack.c:133-167 | Over any run, what was popped followed by what is queued is all that was ever queued, in order |
| Reassembly.PackedMessagesArrive | depends/skynet/lualib-src/lua-netpack.c:188-307 | Packed messages cut anywhere arrive as the messages that were sent |
| Reassembly.Play | depends/skynet/lualib-src/lua-netpack.c:150-410 | Any run of the queue object is the run that the laws speak of, in what it keeps, queues, hands over directly and pops |
| Cluster.ChunksJoin | depends/skynet/lualib-src/lua-cluster.c:134-157 | The parts of a message joined are the message, their number is as announced, and all but the last are of 32K |
| Cluster.PackReqMulti | depends/skynet/lualib-src/lua-cluster.c:134-157 | One framed part per chunk of 32K, the last one marked as last |
| Cluster.PackRequest | depends/skynet/lualib-src/lua-cluster.c:75-132 | A request is packed exactly when session and name length allow it; its frames and the next session, which wraps from the largest int to 1 |
| Cluster.RequestReadBack | depends/skynet/lualib-src/lua-cluster.c:208-309 | The unpacker returns address, session and payload, or the announced size of a request in parts; the frame fits 16 bits |
| Cluster.PartReadBack | depends/skynet/lualib-src/lua-cluster.c:238-251 | A part is returned with its session, its bytes and whether more follow |
| Cluster.RequestKinds | depends/skynet/lualib-src/lua-cluster.c:75-157 | The kind byte behind the header: 0 or 1 for a number and 0x80 or 0x81 for a name, whole or announced from 32K on; 2 for a part and 3 for the last one |
| Cluster.RequestRefused | depends/skynet/lualib-src/lua-cluster.c:208-309 | The bodies that are refused: empty, of another kind, shorter than the fields of their kind, or an announced size for a number that is not 13 bytes |
| Cluster.PackResponse | depends/skynet/lualib-src/lua-cluster.c:332-400 | The strings made for a response, whole, in parts or as an error |
| Cluster.ResponseReadBack | depends/skynet/lualib-src/lua-cluster.c:409-445 | Each kind of response string is recovered, and fits 16 bits |
| Cluster.ResponseKinds | depends/skynet/lualib-src/lua-cluster.c:332-400 | The kind byte behind header and session: 0 error, 1 whole, 2 announced size, 3 part, 4 last part; and the number of strings |
| Cluster.ResponseRefused | depends/skynet/lualib-src/lua-cluster.c:409-445 | The bodies that give nothing: below 5 bytes, a kind above 4, an announced size that is not 9 bytes |
| Cluster.Concat | depends/skynet/lualib-src/lua-cluster.c:447-478 | The parts joined when their sizes add up to the announced size, else nothing |
| Cluster.PackReqNumber | depends/skynet/lualib-src/lua-cluster.c:75-98 | The buffer filled by index is the frame of the request, whole or announced, and stays in its bounds |
| Cluster.PackReqString | depends/skynet/lualib-src/lua-cluster.c:100-132 | The same for a name of 1 to 255 bytes |
| Cluster.FillPart | depends/skynet/lualib-src/lua-cluster.c:141-153 | The buffer of one part is the frame of the part |
| Cluster.FillResponse | depends/skynet/lualib-src/lua-cluster.c:388-396 | The buffer of a response is the frame of session, kind and bytes |
| Cluster.PackResponseMulti | depends/skynet/lualib-src/lua-cluster.c:357-385 | The announced size and one framed part per 32K, the last one marked |
| ClusterTransport.RequestRecovered | depends/skynet/lualib-src/lua-cluster.c:134-309 | The frames of a request, unpacked, give address, session and announced size, and parts whose bytes joined are the message, all but the last marked |
| ClusterTransport.RequestWire | depends/skynet/lualib-src/lua-cluster.c:75-192 | The bytes sent for a request are packed frames, each of less than 64K |
| ClusterTransport.RequestsArrive | depends/skynet/lualib-src/lua-cluster.c:75-309 | Any number of requests sent over one connection, cut arbitrarily and reassembled among other traffic, are unpacked as they were sent |
| ClusterTransport.ResponseRecovered | depends/skynet/lualib-src/lua-cluster.c:332-478 | A response is recovered with its session; an error is too, exactly when it is not longer than 32K, else it is cut there |
| ClusterTransport.ResponsesArrive | depends/skynet/lualib-src/lua-cluster.c:332-445 | Any number of responses written to one connection, cut arbitrarily and reassembled among other traffic, are unpacked as they were meant |
| Sha1.SwapIsBigEndian | depends/skynet/lualib-src/lsha1.c:109-110 | The rotated and masked word is the big-endian word of the block |
| Sha1.ShortForms | depends/skynet/lualib-src/lsha1.c:116-119 | The shortened choice and majority functions are the standard's Ch and Maj, for all words |
| Sha1.RolForms | depends/skynet/lualib-src/lsha1.c:101-120 | The shifts of `rol` are rotations to the left by 1, 5 and 30 bits |
| Sha1.ExclusiveForm | depends/skynet/lualib-src/lsha1.c:118-120 | The parity of steps 20 to 39 and 60 to 79 is that of the standard |
| Sha1Spec.BigEndianNumber | depends/skynet/lualib-src/lsha1.c:109-110 | Word `i` of a block is the number its four bytes make, the first counting most |
| Sha1Spec.StepEquation | depends/skynet/lualib-src/lsha1.c:116-162 | The step of section 6.1.2: which function and constant each of the 80 steps uses, the rotations by 5 and 30, and where each variable goes |
| Sha1Spec.ScheduleEquation | depends/skynet/lualib-src/lsha1.c:109-113 | The schedule: 16 words of the block, then the word 3, 8, 14 and 16 back xored and rotated by one |
| Sha1Spec.Constants | depends/skynet/lualib-src/lsha1.c:116-186 | The initial value and the four constants, by their numbers |
| Sha1.Blk0 | depends/skynet/lualib-src/lsha1.c:109-110 | The first 16 words of the schedule, converted in place |
| Sha1.Blk | depends/skynet/lualib-src/lsha1.c:112-113 | In a ring of 16 words the macro computes word `i` of the 80-word schedule, in place |
| Sha1.R0 | depends/skynet/lualib-src/lsha1.c:116-116 | One macro call is one step of the compression, with the roles of the variables rotated instead of their values |
| Sha1.R1 | depends/skynet/lualib-src/lsha1.c:117-117 | The same for steps 16 to 19 |
| Sha1.R2 | depends/skynet/lualib-src/lsha1.c:118-118 | The same for steps 20 to 39 |
| Sha1.R3 | depends/skynet/lualib-src/lsha1.c:119-119 | The same for steps 40 to 59 |
| Sha1.R4 | depends/skynet/lualib-src/lsha1.c:120-120 | The same for steps 60 to 79 |
| Sha1.Transform | depends/skynet/lualib-src/lsha1.c:123-173 | The 80 macro calls compute the compression function of FIPS 180-4, section 6.1.2 |
| Sha1.ChoiceRounds | depends/skynet/lualib-src/lsha1.c:143-147 | Twenty steps, written as calls with rotated names, leave the registers in their places |
| Sha1.ParityRounds | depends/skynet/lualib-src/lsha1.c:148-152 | Steps 20 to 39 likewise |
| Sha1.MajorityRounds | depends/skynet/lualib-src/lsha1.c:153-157 | Steps 40 to 59 likewise |
| Sha1.LastParityRounds | depends/skynet/lualib-src/lsha1.c:158-162 | Steps 60 to 79 likewise |
| Sha1Context.CountStep | depends/skynet/lualib-src/lsha1.c:198-200 | The two count words hold the length in bits of all data so far exactly when the call is below 2^29 bytes or the low word carries anyway |
| Sha1Context.Context.constructor | depends/skynet/lualib-src/lsha1.c:176-186 | The initial hash value and no data |
| Sha1Context.Context.Update | depends/skynet/lualib-src/lsha1.c:189-215 | The state is that of all data so far, however it was split; the high count word stays right exactly under the condition above |
| Sha1Context.Context.Final | depends/skynet/lualib-src/lsha1.c:218-244 | With right count words the digest is that of the message padded as in FIPS 180-4, section 5.1.1; in any case it is that of the message padded with the count words |
| Sha1Context.FinalCount | depends/skynet/lualib-src/lsha1.c:224-227 | The loop fills in the two count words, most significant byte first |
| Sha1Spec.CountNumber | depends/skynet/lualib-src/lsha1.c:224-227 | Byte `i` of a count word is the word divided by 256^(3 - i), modulo 256 |
| Sha1Context.DigestOf | depends/skynet/lualib-src/lsha1.c:233-236 | The loop takes the digest out of the five words |
| Sha1Spec.DigestNumber | depends/skynet/lualib-src/lsha1.c:233-236 | Byte `i` of the digest is word `i / 4` divided by 256^(3 - i % 4), modulo 256 |
| Sha1Spec.PaddingEquation | depends/skynet/lualib-src/lsha1.c:224-232 | The padded message: the message, 0x80, fewer than 64 zeros up to a whole block, and the high and the low count word |
| Sha1Context.HashChunks | depends/skynet/lualib-src/lsha1.c:189-244 | Every split of a message into calls below 2^29 bytes gives the hash of the message |
| Sha1Context.CountStart | depends/skynet/lualib-src/lsha1.c:198-200 | For a single call the count is right exactly below 2^29 bytes |
| Sha1Context.Context.PadZeros | depends/skynet/lualib-src/lsha1.c:229-231 | The loop adds zeros, a byte at a time, just until the length is 56 mod 64 |
| HmacSha1.XorKey | depends/skynet/lualib-src/lsha1.c:265-272 | The loop over 32-bit words changes each byte of the key with the pad byte |
| HmacSha1.XorTwice | depends/skynet/lualib-src/lsha1.c:296-300 | The outer pad, undone and replaced by one xor, is the inner pad |
| HmacSha1.FirstBlock | depends/skynet/lualib-src/lsha1.c:285-294 | The key block: hashed when longer than a block, else filled with zeros; it is that of RFC 2104 for keys below 2^29 bytes |
| HmacSha1.HmacOf | depends/skynet/lualib-src/lsha1.c:274-312 | HMAC with lengths as the code counts them; that of RFC 2104, section 2, for every key below 2^29 bytes and every text whose length is counted right |
| HmacSha1.CountedIsHmac | depends/skynet/lualib-src/lsha1.c:189-312 | Keys below 2^29 bytes, and texts whose length is counted right behind a block, give the HMAC of RFC 2104 |
| HmacSha1.HmacEquation | depends/skynet/lualib-src/lsha1.c:274-312 | Section 2 of RFC 2104 with its pads: for a key of a block at most, zero-filled and xored with 0x36 and 0x5c byte by byte |
| HmacSha1.LongKey | depends/skynet/lualib-src/lsha1.c:285-294 | A key longer than a block stands for its hash |
| HmacSha1.Inner | depends/skynet/lualib-src/lsha1.c:299-303 | The inner digest, with the length as the code counts it |
| HmacSha1.WordXor | depends/skynet/lualib-src/lsha1.c:265-272 | Xor of a word acts on each of its bytes |
| Des.PermutationsInverse | depends/skynet/lualib-src/lua-crypt.c:201-225 | The final permutation undoes the initial one, and the other way round, for all halves |
| Des.ListsInverse | depends/skynet/lualib-src/lua-crypt.c:201-225 | The two lists of bit exchanges are each other read backwards with inverse steps |
| Des.RoundsUndone | depends/skynet/lualib-src/lua-crypt.c:227-242 | Rounds under the schedule with its pairs reversed undo the rounds, for any round function and any even number of rounds |
| Des.DesLawful | depends/skynet/lualib-src/lua-crypt.c:201-242 | The DES permutations and byte order meet what the next theorem asks, for any S-boxes |
| DesStandard.LoadIsBigEndian | depends/skynet/lualib-src/lua-crypt.c:185-191 | The two halves of a block as numbers, the first byte counting most |
| DesStandard.InitialTable | depends/skynet/lualib-src/lua-crypt.c:201-212 | Every bit of the permuted block is the input bit that the table IP of FIPS 46-3 names; both halves are kept rotated by one |
| DesStandard.RoundBoxes | depends/skynet/lualib-src/lua-crypt.c:227-242 | The round function is the xor of eight boxes; box n sees the low six bits of the half rotated right by 4 * (8 - n), xored with its six key bits |
| DesStandard.CryptIsFeistel | depends/skynet/lualib-src/lua-crypt.c:315-337 | Sixteen rounds as the standard writes them: R(k + 1) is L(k) xored with the round function of R(k) and the k-th pair of key words |
| DesStandard.BlockByBlock | depends/skynet/lualib-src/lua-crypt.c:365-381 | Each block is enciphered by itself, at its place |
| DesStandard.PaddedBytes | depends/skynet/lualib-src/lua-crypt.c:382-395 | One byte 0x80 and as few zeros as complete a block |
| DesStandard.ReversedPairs | depends/skynet/lualib-src/lua-crypt.c:404-409 | Pair `i` of the reversed schedule is pair 15 - `i` |
| Des.CryptUndone | depends/skynet/lualib-src/lua-crypt.c:315-337 | Deciphering a block with the reversed schedule gives the block back |
| Des.BlocksUndone | depends/skynet/lualib-src/lua-crypt.c:315-438 | The same for any number of blocks |
| Des.DesCrypt | depends/skynet/lualib-src/lua-crypt.c:315-337 | One block is enciphered into its place in the output |
| Des.DesEncode | depends/skynet/lualib-src/lua-crypt.c:365-398 | The text padded with 0x80 and zeros, enciphered block by block |
| Des.ReverseSchedule | depends/skynet/lualib-src/lua-crypt.c:404-409 | The loop reverses the schedule pair by pair |
| Des.Unpad | depends/skynet/lualib-src/lua-crypt.c:423-436 | The text whose padding this is, or failure exactly when it is no padding; the scan leaves the buffer exactly on a single block of eight zeros |
| Des.PaddedInjective | depends/skynet/lualib-src/lua-crypt.c:382-395 | No two texts have the same padded form |
| Des.DesDecode | depends/skynet/lualib-src/lua-crypt.c:400-438 | Returns the text that was padded, or fails when there is none; all accesses lie in the buffer but for one block that deciphers to eight zeros |
| Des.DecodeInvertsEncode | depends/skynet/lualib-src/lua-crypt.c:365-438 | For every schedule and S-boxes, decoding returns a text exactly for what encoding that text gives |
| Des.CryptWhole | depends/skynet/lualib-src/lua-crypt.c:379-381 | The whole blocks of the text are enciphered |
| DiffieHellman.MulModP | depends/skynet/lualib-src/lua-crypt.c:666-686 | a * b mod 2^64 - 59 for every a up to P and every 64-bit b, through the wraparound |
| DiffieHellman.PowModP | depends/skynet/lualib-src/lua-crypt.c:688-699 | Modular power by squaring, for exponents from 1 |
| DiffieHellman.PowMod | depends/skynet/lualib-src/lua-crypt.c:702-707 | The modular power, exactly but for base P and exponent 1, where it is P |
| DiffieHellman.Exchange | depends/skynet/lualib-src/lua-crypt.c:741-759 | 5 to the private key, modulo 2^64 - 59, in eight bytes; zero and a wrong length are refused |
| DiffieHellman.Secret | depends/skynet/lualib-src/lua-crypt.c:724-737 | The public key to the private key, modulo 2^64 - 59; refused exactly for a wrong length or a zero |
| DiffieHellman.GeneratorPower | depends/skynet/lualib-src/lua-crypt.c:741-759 | No power of the generator is 0 or P, so public keys are accepted |
| DiffieHellman.Agreement | depends/skynet/lualib-src/lua-crypt.c:724-759 | Both sides derive the same secret, 5 to the product of the private keys mod P |
| DiffieHellman.Read64 | depends/skynet/lualib-src/lua-crypt.c:724-759 | An 8-byte string as a number, least significant byte first |
| Stm.EnabledIsSafe | depends/skynet/lualib-src/lua-stm.c:26-115 | In a reachable state no step touches freed memory or drops a count below zero, but for the unlocking, by a reader that has dropped its reference, of an object freed meanwhile |
| Stm.StepKeeps | depends/skynet/lualib-src/lua-stm.c:26-235 | Every safe step keeps the counts equal to the references held; accesses under the shared lock and its unlocking are separate steps |
| Stm.EveryRun | depends/skynet/lualib-src/lua-stm.c:26-235 | Every state reached in any interleaving of one writer and any number of readers satisfies the invariant |
| Stm.FreedOnce | depends/skynet/lualib-src/lua-stm.c:47-55 | Each published copy is freed at most once, exactly when it is no longer in memory, and it is in memory exactly while it is referred to |
| Stm.CopyIsCurrent | depends/skynet/lualib-src/lua-stm.c:93-104 | A reader that copies gets the newest version, or none once the writer is gone |
| Stm.AnswerIsRight | depends/skynet/lualib-src/lua-stm.c:205-235 | "Not updated" is answered exactly when the copy taken is the snapshot the reader has; a new snapshot is newer; none is given only after the writer is gone |
| Stm.SeenGrows | depends/skynet/lualib-src/lua-stm.c:205-235 | A reader never goes back to an older version |
| Stm.NothingRemains | depends/skynet/lualib-src/lua-stm.c:57-83 | Once writer and readers are gone the object and all copies are freed |
| Stm.CrashIff | depends/skynet/lualib-src/lua-stm.c:73-83 | A run crashes, or is left with a reader whose unlocking will, exactly when a reader freed the object while another, past its own decrement, still held the shared read lock |
| Stm.UnlockAfterFree | depends/skynet/lualib-src/lua-stm.c:73-83 | A run that does so: two readers leave after the writer, and the one that only decremented unlocks an object that the other has freed |
| Stm.StrandedCrashes | depends/skynet/lualib-src/lua-stm.c:73-83 | Such a reader can take no step but the unlocking, and that step crashes |
| Stm.WholeRuns | depends/skynet/lualib-src/lua-stm.c:26-235 | A run without a free under lock never touches freed memory, and a run in which every reader ends has none |
| Stm.ReadCall | depends/skynet/lualib-src/lua-stm.c:205-235 | From every state a run reaches, a reader between calls can read: the answer is the newest version if it has not seen it, else "not updated"; once the writer has gone, a reader that holds a copy is told so, and any other that nothing is new |
| Stm.UpdateCall | depends/skynet/lualib-src/lua-stm.c:106-121 | A whole update goes through whenever nobody holds the read lock, and publishes the next version |
| Stm.GrabCall | depends/skynet/lualib-src/lua-stm.c:85-91 | A whole grab goes through and adds one reader and one reference |
| Stm.LeaveCall | depends/skynet/lualib-src/lua-stm.c:73-83 | A reader between calls can leave; with the last reference it frees the object |
| Stm.DeleteCall | depends/skynet/lualib-src/lua-stm.c:57-71 | The writer can leave whenever nobody holds the read lock; the readers lose the copy and keep the object |
| Stm.ReaderMoves | depends/skynet/lualib-src/lua-stm.c:73-235 | Every reader that is not gone can take the next step of its call, or begin any call |
| Stm.SomebodyMoves | depends/skynet/lualib-src/lua-stm.c:26-235 | As long as somebody is left and no reader is stranded, some step can be taken, and it is safe |
| Stm.Begins | depends/skynet/lualib-src/lua-stm.c:37-45 | A run begins with one version, one reference to the object and one to the copy |
| SocketBuffer.Pool.NewChunk | depends/skynet/lualib-src/lua-socket.c:52-68 | A new chunk is linked into a free list; no node in use moves |
| SocketBuffer.Pool.ChunkSize | depends/skynet/lualib-src/lua-socket.c:114-124 | The chunks of the pool have 16 nodes, 32, and so on up to 4096 |
| SocketBuffer.Pool.Take | depends/skynet/lualib-src/lua-socket.c:98-131 | A free node, from a new chunk if there is none, gets the block; all others are as before |
| SocketBuffer.TakeKeeps | depends/skynet/lualib-src/lua-socket.c:126-131 | After a take every node is still free and empty, or in use, not both |
| SocketBuffer.GiveKeeps | depends/skynet/lualib-src/lua-socket.c:148-165 | The same after a node is given back |
| SocketBuffer.Buffer.Push | depends/skynet/lualib-src/lua-socket.c:98-146 | The block is appended to the unread bytes; the nodes of other buffers are untouched |
| SocketBuffer.Buffer.ReturnFreeNode | depends/skynet/lualib-src/lua-socket.c:148-165 | The rest of the first block is dropped and its node, emptied, is free again |
| SocketBuffer.Buffer.PopLstring | depends/skynet/lualib-src/lua-socket.c:167-207 | `n` bytes are consumed across any number of blocks and returned without the last `skip`; the walk never meets a null node |
| SocketBuffer.Buffer.PopBuffer | depends/skynet/lualib-src/lua-socket.c:233-250 | The first `n` bytes, or nothing when there are fewer or none are asked for |
| SocketBuffer.Buffer.ReadAll | depends/skynet/lualib-src/lua-socket.c:270-287 | All unread bytes, and the buffer is empty |
| SocketBuffer.Buffer.Clear | depends/skynet/lualib-src/lua-socket.c:256-268 | The buffer is empty and its nodes are free |
| SocketBuffer.CheckSep | depends/skynet/lualib-src/lua-socket.c:297-314 | Whether the separator stands at this place of the chain, across blocks; the walk never runs off the chain |
| SocketBuffer.Buffer.FindLine | depends/skynet/lualib-src/lua-socket.c:333-356 | The first occurrence of the separator in the unread bytes; none exactly if it does not occur or the buffer is empty |
| SocketBuffer.Buffer.ReadLine | depends/skynet/lualib-src/lua-socket.c:321-358 | A line exactly when the separator occurs in unread bytes that are not empty; the bytes before its first occurrence, leaving those behind it; a check changes nothing |
| SocketBuffer.Pool.constructor | depends/skynet/lualib-src/lua-socket.c:52-68 | An empty pool |
| SocketBuffer.Pool.Link | depends/skynet/lualib-src/lua-socket.c:136-139 | The last node of a chain is followed by the new one |
| SocketBuffer.Pool.Give | depends/skynet/lualib-src/lua-socket.c:156-164 | The node is emptied and becomes the first free one |
| SocketBuffer.Buffer.constructor | depends/skynet/lualib-src/lua-socket.c:70-79 | A buffer with no bytes |
| SocketBuffer.Buffer.PopBlocks | depends/skynet/lualib-src/lua-socket.c:182-206 | The loop over blocks consumes `n` bytes and collects all but the last `skip` |
| SocketRuns.Do | depends/skynet/lualib-src/lua-socket.c:98-358 | One operation on one of many buffers of a pool acts on that buffer as on a flat byte string, leaves the contents of all others, and keeps every node free or in one buffer |
| SocketRuns.Run | depends/skynet/lualib-src/lua-socket.c:98-358 | Any run over any number of buffers sharing a pool gives the replies and contents of independent byte strings |
| SocketRuns.NodesAccounted | depends/skynet/lualib-src/lua-socket.c:37-165 | In every such world a node holds a block exactly when it is in a buffer, in one only, and is free otherwise; `size` counts the unread bytes |
| SocketRuns.ExclusiveKept | depends/skynet/lualib-src/lua-socket.c:98-165 | An operation on one buffer leaves each node in use in exactly one chain |
| ShareTable.RoomLeft | depends/skynet/lualib-src/lua-sharedata.c:251-257 | While a key is missing there is an empty slot |
| ShareTable.NoneLeft | depends/skynet/lualib-src/lua-sharedata.c:237-272 | When all keys are in no slot is empty |
| ShareTable.AtMain | depends/skynet/lualib-src/lua-sharedata.c:246-247 | The test for "already inserted" in pass two is right: the key at the main position decides |
| ShareTable.InsertLinks | depends/skynet/lualib-src/lua-sharedata.c:258-260 | Linking a slot behind its main position keeps every chain in falling slot order and to one main position |
| ShareTable.RepresentsGrows | depends/skynet/lualib-src/lua-sharedata.c:102-120 | Later strings do not disturb tables already converted |
| ShareTable.KeyUnique | depends/skynet/lualib-src/lua-sharedata.c:191-210 | Two keys get the same number or index and type exactly when they are read alike |
| ShareTable.SupportedKinds | depends/skynet/lualib-src/lua-sharedata.c:68-179 | What can be shared: numbers, strings, booleans, and tables whose keys are integers, strings or tables and whose values can be shared |
| ShareData.Context.StringIndex | depends/skynet/lualib-src/lua-sharedata.c:102-120 | Each string has one index, and an index once given does not change |
| ShareData.Context.ConvertStringMap | depends/skynet/lualib-src/lua-sharedata.c:377-402 | Every string is put at its index, in whatever order the map is visited |
| ShareData.CalcHash | depends/skynet/lualib-src/lua-sharedata.c:91-100 | The loop computes the hash of the string |
| ShareData.CountSize | depends/skynet/lualib-src/lua-sharedata.c:67-89 | The number of keys outside the array part; failure exactly on a key that is no integer, string or table |
| ShareData.IsHashKey | depends/skynet/lualib-src/lua-sharedata.c:191-210 | Whether the key lies in the array part, and else its index or number, type and hash; a table as a key is read as the empty string |
| ShareData.SetValue | depends/skynet/lualib-src/lua-sharedata.c:124-179 | The value is stored, nested tables converted; failure exactly on values of unsupported types |
| ShareData.FillNoColliding | depends/skynet/lualib-src/lua-sharedata.c:212-235 | After pass one every hash key is at its main position or found it taken, every slot in use is a main position, and the array part is done |
| ShareData.FindEmpty | depends/skynet/lualib-src/lua-sharedata.c:251-256 | The first empty slot |
| ShareData.FillColliding | depends/skynet/lualib-src/lua-sharedata.c:237-272 | After pass two every hash key is in; its assertion that an empty slot is found never fails |
| ShareData.ConvTable | depends/skynet/lualib-src/lua-sharedata.c:276-325 | Conversion succeeds exactly on tables of integer, string and table keys and values at every level, and the result holds each entry in its place with perfectly full, correctly chained hash parts |
| ShareData.NewConf | depends/skynet/lualib-src/lua-sharedata.c:404-455 | The same for a whole configuration with its string table |
| ShareData.PlaceFirst | depends/skynet/lualib-src/lua-sharedata.c:216-233 | One entry of pass one |
| ShareData.PlaceSecond | depends/skynet/lualib-src/lua-sharedata.c:243-269 | One entry of pass two |
| ShareData.TakeSlot | depends/skynet/lualib-src/lua-sharedata.c:248-266 | A key that found its main position taken goes to the first empty slot, right behind its main position in the chain |
| ShareData.FillArray | depends/skynet/lualib-src/lua-sharedata.c:313-319 | A table of array keys only is filled by index |
| ShareQuery.Lookup | depends/skynet/lualib-src/lua-sharedata.c:501-530 | The walk ends; it returns the slot with the key, or none exactly if no slot has it |
| ShareQuery.AloneThere | depends/skynet/lualib-src/lua-sharedata.c:505-507 | The early exit at a main position without collisions misses nothing |
| ShareQuery.Index | depends/skynet/lualib-src/lua-sharedata.c:532-566 | For every key Lua gets the source table's own real, integer, string or boolean, or a table that can be indexed in turn, or nil exactly when the source has none |
| ShareQuery.Pushed | depends/skynet/lualib-src/lua-sharedata.c:474-498 | A value stored for one of the source is pushed as that one, a string from the string table |
| ShareQuery.IndexPath | depends/skynet/lualib-src/lua-sharedata.c:532-566 | Indexing level by level leads to the value the source has at the end of the path |
| ShareQuery.CutQueryRight | depends/skynet/lualib-src/lua-sharedata.c:539-540 | An integer that does not fit an int is answered right exactly when the int it is cut to is no key |
| ShareQuery.NextKey | depends/skynet/lualib-src/lua-sharedata.c:589-646 | The key behind a key in the order of visit, the first for nil, and none behind the last |
| ShareQuery.OrderIsSource | depends/skynet/lualib-src/lua-sharedata.c:579-646 | The order of visit has every key of the source exactly once and no other |
| ShareQuery.Visit | depends/skynet/lualib-src/lua-sharedata.c:589-646 | Starting from nil, repeated calls visit exactly the keys of the source, each once, and stop |
| ShareQuery.FirstFrom | depends/skynet/lualib-src/lua-sharedata.c:579-616 | The next array slot with a value, else the first hash slot |
| SeriFormat.TablePacks | depends/skynet/lualib-src/lua-seri.c:282-340 | A table packs exactly when all its parts pack one level down |
| SeriFormat.IntBack | depends/skynet/lualib-src/lua-seri.c:142-174 | Every 64-bit integer is read back from the width it was written in |
| SeriFormat.StrBack | depends/skynet/lualib-src/lua-seri.c:190-213 | Every string is read back, in the short form and both long ones |
| SeriFormat.SizeBack | depends/skynet/lualib-src/lua-seri.c:434-448 | Array sizes are read back below and above the escape |
| SeriFormat.IntForm | depends/skynet/lualib-src/lua-seri.c:142-174 | The bytes of an integer: type 2 and the width, 0, 1, 2, 4 or 8 bytes, in the first one; negative numbers in two's complement |
| SeriFormat.StrForm | depends/skynet/lualib-src/lua-seri.c:190-213 | The bytes of a string: type 4 with the length up to 31, else type 5 with 2 or 4 bytes of length |
| SeriFormat.OtherForms | depends/skynet/lualib-src/lua-seri.c:130-340 | The bytes of nil, booleans, reals, pointers and tables: a table is its size, with an escape from 31 elements on, its elements, its pairs and a nil |
| SeriFormat.SupportedKinds | depends/skynet/lualib-src/lua-seri.c:296-340 | Exactly functions, threads and full userdata, and tables with such a part, are not packed |
| SeriFormat.NestPacks | depends/skynet/lualib-src/lua-seri.c:297-301 | A value may stand inside 32 tables, one in the other, and no more |
| SeriFormat.FirstByte | depends/skynet/lualib-src/lua-seri.c:467-532 | What each first byte means to the reader, and which are refused |
| SeriFormat.TooLong | depends/skynet/lualib-src/lua-seri.c:499-510 | A string of 2^31 bytes or more is refused |
| SeriFormat.DecEnc | depends/skynet/lualib-src/lua-seri.c:296-532 | Every value that packs is read back as it was, consuming exactly its bytes |
| SeriFormat.AllBack | depends/skynet/lualib-src/lua-seri.c:342-597 | So is every list of values, to the last byte |
| Seri.WriteBlock.Push | depends/skynet/lualib-src/lua-seri.c:65-85 | Bytes of any number are appended, across as many 128-byte blocks as it takes |
| Seri.WriteBlock.Flatten | depends/skynet/lualib-src/lua-seri.c:534-553 | The blocks copied into one buffer are all pushed bytes, exactly when their length fits an int |
| Seri.WbInteger | depends/skynet/lualib-src/lua-seri.c:142-174 | The integer form of the format, by sign and size |
| Seri.WbString | depends/skynet/lualib-src/lua-seri.c:190-213 | The short and the two long string forms |
| Seri.WbTableArray | depends/skynet/lualib-src/lua-seri.c:217-237 | The size, escaped from 31 on, and the elements |
| Seri.WbTableHash | depends/skynet/lualib-src/lua-seri.c:239-257 | The pairs whose keys are not in the array part, found among all entries, and the closing nil |
| Seri.PackOne | depends/skynet/lualib-src/lua-seri.c:296-340 | Succeeds exactly when no part is nested deeper than 32 tables or of an unsupported type |
| Seri.Pack | depends/skynet/lualib-src/lua-seri.c:342-349 | A message packs exactly when all its values do, into the bytes of its values, all of them exactly when their length fits an int |
| Seri.ReadBlock.GetInteger | depends/skynet/lualib-src/lua-seri.c:359-400 | Integers of every width, and failure on other cookies or too few bytes |
| Seri.ReadBlock.UnpackTable | depends/skynet/lualib-src/lua-seri.c:434-465 | On any bytes the reader returns what the format says or fails |
| Seri.ReadBlock.PushValue | depends/skynet/lualib-src/lua-seri.c:467-521 | The same for a value of every type |
| Seri.ReadBlock.UnpackOne | depends/skynet/lualib-src/lua-seri.c:523-532 | The same, and at least one byte is consumed |
| Seri.Unpack | depends/skynet/lualib-src/lua-seri.c:555-597 | A whole message, or failure |
| Seri.Transfer | depends/skynet/lualib-src/lua-seri.c:555-612 | What is unpacked is what was packed, for every message that packs into less than 2^31 bytes |
| Seri.WbNil | depends/skynet/lualib-src/lua-seri.c:130-134 | The byte of nil |
| Seri.WbBoolean | depends/skynet/lualib-src/lua-seri.c:136-140 | The byte of a boolean |
| Seri.WbReal | depends/skynet/lualib-src/lua-seri.c:176-181 | The type byte and the 8 bytes of a double |
| Seri.WbPointer | depends/skynet/lualib-src/lua-seri.c:183-188 | The type byte and the 8 bytes of a pointer |
| Seri.WbTable | depends/skynet/lualib-src/lua-seri.c:282-294 | The array part and then the rest; fails exactly when a part does |
| Seri.ReadBlock.Read | depends/skynet/lualib-src/lua-seri.c:118-128 | The next bytes, or failure without moving when there are too few |
| Seri.ReadBlock.GetBuffer | depends/skynet/lualib-src/lua-seri.c:423-430 | A string of given length |
| Seri.ReadBlock.GetSize | depends/skynet/lualib-src/lua-seri.c:436-448 | The array size, read from an integer after the escape |
| Seri.ReadBlock.UnpackArray | depends/skynet/lualib-src/lua-seri.c:452-455 | As many elements as announced |
| Seri.ReadBlock.UnpackPairs | depends/skynet/lualib-src/lua-seri.c:456-464 | Pairs up to a nil key |
| Utf8.Utf8Copy | depends/skynet/lualib-src/lua-bson.c:205-230 | The length of the first character, found exactly when the bytes start with the shortest encoding of a code point up to 0x10FFFF; surrogates included |
| Utf8.OneChar | depends/skynet/lualib-src/lua-bson.c:205-230 | No two code points' encodings start the same bytes |
| Utf8.CharLimits | depends/skynet/lualib-src/lua-bson.c:205-231 | The encodings of the first and the last code point of each length |
| Utf8.Bounds | depends/skynet/lualib-src/lua-bson.c:205-231 | Every code point up to 0x10FFFF is valid; the next one, an overlong form and a lone continuation byte are not |
| BsonFormat.TableEncodes | depends/skynet/lualib-src/lua-bson.c:522-548 | A table encodes exactly when its entries do one level down |
| BsonFormat.StrBack | depends/skynet/lualib-src/lua-bson.c:339-409 | Texts and all special objects are read back as they were |
| BsonFormat.KeyBack | depends/skynet/lualib-src/lua-bson.c:423-447 | Keys are read back, for arrays through their decimal numbers |
| BsonFormat.PayloadBack | depends/skynet/lualib-src/lua-bson.c:323-733 | Every well-formed value is read back as it was, consuming exactly its bytes |
| BsonFormat.DocBack | depends/skynet/lualib-src/lua-bson.c:433-733 | So is every document, nested to any depth |
| BsonFormat.PlainForms | depends/skynet/lualib-src/lua-bson.c:289-417 | Type code and bytes of reals, booleans and integers: 32 bits where they suffice, else 64 |
| BsonFormat.TextForm | depends/skynet/lualib-src/lua-bson.c:401-409 | Type 2, the length with the NUL in four bytes, the text and the NUL |
| BsonFormat.SpecialForm | depends/skynet/lualib-src/lua-bson.c:339-400 | A special object has the type of its second byte; a binary gets its length in front, a date becomes milliseconds, the others are taken over |
| BsonFormat.TableForm | depends/skynet/lualib-src/lua-bson.c:433-548 | Type 3 or 4, the length of the whole, the fields and a NUL; a field is a type, a key, a NUL and a value |
| BsonFormat.DecimalDigits | depends/skynet/lualib-src/lua-bson.c:423-431 | Digit `i` of a key is the number divided by 10^i, modulo 10 |
| BsonFormat.DecimalLength | depends/skynet/lualib-src/lua-bson.c:423-431 | A key has no leading zero |
| BsonFormat.ArrayKeys | depends/skynet/lualib-src/lua-bson.c:433-447 | The keys of an array are the numbers from 0 on |
| BsonFormat.AcceptedKinds | depends/skynet/lualib-src/lua-bson.c:323-421 | Which values are encoded: all types but the unsupported ones, with texts and keys in UTF-8 |
| BsonFormat.SpecialKinds | depends/skynet/lualib-src/lua-bson.c:339-400 | Which special objects are encoded, by type: some only in their size, an unknown type never |
| BsonFormat.RegexKinds | depends/skynet/lualib-src/lua-bson.c:381-393 | A regular expression is encoded exactly when its text and its options are UTF-8 |
| BsonFormat.NestEncodes | depends/skynet/lualib-src/lua-bson.c:522-548 | Tables may be nested 128 deep and no deeper |
| BsonFormat.SecondsAre | depends/skynet/lualib-src/lua-bson.c:655-660 | The seconds of a date: rounded down from 1970 on, for every number of milliseconds; before, counted back from 2^32 |
| BsonFormat.ReadSized | depends/skynet/lualib-src/lua-bson.c:639-725 | How many bytes belong to an object that leads with its length, by type |
| BsonFormat.ReadFixed | depends/skynet/lualib-src/lua-bson.c:652-702 | The size of every object of fixed size, by type |
| BsonFormat.Refuses | depends/skynet/lualib-src/lua-bson.c:593-732 | What is refused: unknown types, texts of length 0, documents that are too short or not closed by a NUL |
| Bson.Buffer.Reserve | depends/skynet/lualib-src/lua-bson.c:79-93 | Room for the bytes wanted, with what was written kept |
| Bson.Buffer.ReserveLength | depends/skynet/lualib-src/lua-bson.c:251-257 | Four bytes are kept for a length |
| Bson.Buffer.WriteLength | depends/skynet/lualib-src/lua-bson.c:194-201 | The length is put in its place and nothing else changes |
| Bson.Buffer.WriteString | depends/skynet/lualib-src/lua-bson.c:232-249 | Succeeds exactly on UTF-8, and appends the bytes and a NUL |
| Bson.Buffer.WriteBinary | depends/skynet/lualib-src/lua-bson.c:314-321 | The subtype is not counted in the length |
| Bson.RegexSplit | depends/skynet/lualib-src/lua-bson.c:381-390 | The text and the options of a regular expression are parted at the right NUL |
| Bson.AppendSpecial | depends/skynet/lualib-src/lua-bson.c:342-400 | Each special object is written in its own form, or refused exactly when it is malformed or unknown |
| Bson.AppendOne | depends/skynet/lualib-src/lua-bson.c:323-421 | Succeeds exactly on valid keys and strings, supported types and at most 128 levels, and appends the field |
| Bson.PackTable | depends/skynet/lualib-src/lua-bson.c:433-483 | A document whose length field, filled in at the end, is the number of its bytes, through any growth of the buffer |
| Bson.Encode | depends/skynet/lualib-src/lua-bson.c:941-957 | A table encodes exactly when all its fields do |
| Bson.OwnLength | depends/skynet/lualib-src/lua-bson.c:433-447 | The length at the front of a document is the document's own |
| Bson.Reader.ReadCString | depends/skynet/lualib-src/lua-bson.c:160-176 | The bytes up to the first NUL, or failure when there is none |
| Bson.Reader.ReadScalar | depends/skynet/lualib-src/lua-bson.c:618-728 | On any bytes, what the format says for each type, or failure |
| Bson.Reader.UnpackDict | depends/skynet/lualib-src/lua-bson.c:593-733 | The same for documents, whose fields are read within their frame |
| Bson.Decode | depends/skynet/lualib-src/lua-bson.c:906-919 | The same for a whole document |
| Bson.RoundTrip | depends/skynet/lualib-src/lua-bson.c:593-957 | Decoding an encoded table gives the same nested structure |
| Bson.Buffer.constructor | depends/skynet/lualib-src/lua-bson.c:72-77 | An empty buffer of 64 bytes |
| Bson.Buffer.Append | depends/skynet/lualib-src/lua-bson.c:313-321 | Bytes are copied to the end, room being made first |
| Bson.Buffer.WriteInt32 | depends/skynet/lualib-src/lua-bson.c:184-192 | Four bytes, least significant first |
| Bson.Buffer.WriteInt64 | depends/skynet/lualib-src/lua-bson.c:259-281 | Eight bytes, least significant first, of an integer or the bits of a double |
| Bson.CopyString | depends/skynet/lualib-src/lua-bson.c:235-246 | The loop over characters succeeds exactly on UTF-8 and copies all bytes |
| Bson.AppendKey | depends/skynet/lualib-src/lua-bson.c:283-287 | Type and key of a field; fails exactly on a key that is not UTF-8 |
| Bson.AppendPlain | depends/skynet/lualib-src/lua-bson.c:294-310 | Numbers by their size, and booleans |
| Bson.AppendText | depends/skynet/lualib-src/lua-bson.c:401-409 | A text with its length in front; fails exactly when it is not UTF-8 |
| Bson.AppendRegex | depends/skynet/lualib-src/lua-bson.c:381-393 | Text and options, each with its NUL; fails exactly when one is not UTF-8 |
| Bson.AppendTable | depends/skynet/lualib-src/lua-bson.c:522-548 | A document or an array; fails beyond 128 levels or when a field does |
| Bson.PackEntries | depends/skynet/lualib-src/lua-bson.c:434-483 | The fields one after the other |
| Bson.Reader.ReadBytes | depends/skynet/lualib-src/lua-bson.c:151-158 | The next bytes, or failure |
| Bson.Reader.ReadByte | depends/skynet/lualib-src/lua-bson.c:102-111 | The next byte, or failure |
| Bson.Reader.ReadInt32 | depends/skynet/lualib-src/lua-bson.c:113-121 | A signed 32-bit integer, or failure |
| Bson.Reader.ReadInt64 | depends/skynet/lualib-src/lua-bson.c:123-133 | A signed 64-bit integer, or failure |
| Bson.Reader.ReadText | depends/skynet/lualib-src/lua-bson.c:625-632 | A text of positive length, without its NUL |
| Bson.Reader.ReadBinary | depends/skynet/lualib-src/lua-bson.c:639-651 | A binary object with its subtype |
| Bson.Reader.ReadRegex | depends/skynet/lualib-src/lua-bson.c:668-683 | A regular expression with both its strings |
| Bson.Reader.ReadDate | depends/skynet/lualib-src/lua-bson.c:655-660 | A date, back to whole seconds, rounded down from 1970 on |
| Bson.Reader.ReadRaw | depends/skynet/lualib-src/lua-bson.c:703-724 | An object taken together with its own length |
| Bson.Reader.ReadFrame | depends/skynet/lualib-src/lua-bson.c:596-604 | The bytes of the fields of a document, whose closing NUL is checked |
| Bson.Reader.ReadEntries | depends/skynet/lualib-src/lua-bson.c:606-732 | The fields, keys as numbers in an array |
| BsonIndex.SameBoundary | depends/skynet/lualib-src/lua-bson.c:749-811 | The index builder steps over every value exactly as far as the decoder reads |
| BsonIndex.WalkFollows | depends/skynet/lualib-src/lua-bson.c:735-818 | It meets the same fields, in the same order, as the decoder |
| BsonIndex.MakeIndex | depends/skynet/lualib-src/lua-bson.c:735-818 | The index is that of the fields met |
| BsonIndex.IndexHolds | depends/skynet/lualib-src/lua-bson.c:806-812 | With distinct keys it holds exactly the fields of fixed size, with their types and offsets |
| BsonIndex.NewPayloadReads | depends/skynet/lualib-src/lua-bson.c:820-901 | What is written for a new value is of the field's size and is read back, whatever follows, as the value stored: an integer cut to 32 bits, the truth value, or the double |
| BsonIndex.Takes | depends/skynet/lualib-src/lua-bson.c:820-901 | Which values a field takes, type by type: numbers for a real, anything for a boolean, the special string of its type for an object id, a date and a timestamp, an integer for an integer |
| BsonIndex.StoredIs | depends/skynet/lualib-src/lua-bson.c:820-901 | What it holds then: the truth value, the converted or cut integer, or the value itself |
| BsonIndex.PayloadLocal | depends/skynet/lualib-src/lua-bson.c:593-733 | A value is decoded from its own bytes alone |
| BsonIndex.DocReplaced | depends/skynet/lualib-src/lua-bson.c:856-904 | Overwriting a value in place changes that one entry of the decoded document; all offsets stay |
| BsonIndex.Replace | depends/skynet/lualib-src/lua-bson.c:856-904 | Replacing through the index succeeds exactly for indexed keys and values of an accepted type; then just that field has changed, the index is still right, and the field holds the value given exactly when its type keeps it; else nothing has changed |
| BsonIndex.EncodedHolds | depends/skynet/lualib-src/lua-bson.c:735-957 | Every encoded document can be indexed and replaced in |
| BsonIndex.StoredAsGiven | depends/skynet/lualib-src/lua-bson.c:857-904 | A field gets the value as it was given exactly when an int32 field is given an integer of 32 bits, a boolean field a boolean and a real field a real |
| BsonIndex.WideIntegerCut | depends/skynet/lualib-src/lua-bson.c:880-886 | An integer of more than 32 bits is accepted for an int32 field, and another number is stored |
| BsonIndex.IdRight | depends/skynet/lualib-src/lua-bson.c:806-870 | An index entry gives back the type always, and the offset exactly below 2^26 |
| BsonIndex.SkipValue | depends/skynet/lualib-src/lua-bson.c:749-804 | How far the index builder steps for each type of varying size |

## Left out

- Lua glue: the Lua stack, metatables, garbage-collection hooks, running out of memory, and the wrapper modules around OpenSSL, sockets and clocks.
- HashId.HashId.constructor: a maximum above 2^30, for which the doubling in the source overflows its int.
- HashId.HashId.Insert: `i + id` is an int sum in the source, so ids that would overflow it are excluded; `hashid_clear` only frees memory.
- NetPack: the queue that is created on first use is modelled as the empty queue; of `lfilter` only its data case; a partial packet is modelled by the bytes got so far, without the room reserved for the rest.
- Framing: `tolstring` and `ltostring`, which copy a message out of or into Lua.
- Cluster: collecting the parts of a message by session is done in Lua (`clusterd.lua`) and is not part of this model; the tail of an announcement that its unpacker ignores is not either.
- Stm: the waiting in `rwlock.h` is not modelled as steps: a reader or writer that must wait has its step disabled. Messages are passed on by reference; their payload is their version.
- Des: the S-box tables and the key schedule `des_main_ks` are parameters, since the theorems hold for all of them; that they are those of FIPS 46-3 is not proved.
- Base64, hex, the hash key and hmac64 functions of `lua-crypt.c`, random keys.
- Sha1Context.Context.Final: the wiping of the context afterwards; the context is not used again.
- SocketBuffer: the chunks of the pool are one growing array of nodes; `lfreepool` runs when the VM closes. `lheader`, `ldrop` and the socket driver are left out.
- ShareData: tables of 2^31 entries, and tables with two keys that are read alike, which leave a slot empty; `delete_tbl`, reference counting of configurations, the dirty mark and `lupdate`.
- ShareData.NewHash: only that the fields the source sets are set; all other fields are arbitrary, as after `malloc`.
- ShareQuery.NextKey: a key that is no integer, string or nil ends the iteration or raises an error in the source; for a key that is not in the table nothing is stated.
- Seri: a table with a `__pairs` metamethod is written like a table without array part whose pairs are those it yields; `lua_rawset` with a NaN key; single strings and arrays of 2^31 and more.
- Seri.ReadBlock.PushValue: a string length of 2^31 or more, negative as an int in the source, is a failure here.
- Bson: documents passed as userdata, which are copied as they are; `__len` and `__pairs` only decide how a table's entries are enumerated; object ids and constructors of special objects; `ltype`.
- Bson.Reader.ReadBytes: on a negative length the source steps back in the data, possibly before its start; here that is a failure.
- Bson.Reader.ReadBinary: a failure on a negative length, for the same reason.
- Bson.Reader.ReadRaw: a failure on a negative length, for the same reason.
- Bson.Reader.ReadScalar: a failure on a negative length, for the same reason.
- Bson.Reader.ReadFrame: a failure on a negative length, for the same reason.
- Bson.Reader.ReadEntries: a failure on a negative length, for the same reason.
- Bson.Reader.UnpackDict: a failure on a negative length, for the same reason.
- Bson.Decode: a failure on a negative length, for the same reason; no encoded document holds one.
- Bson.Encode: a number key of a table that is no array enters as the string Lua makes of it, and comes back as that string.
- BsonFormat.KeyBack: `strtol` is modelled on digits only, without blanks, signs and saturation.
- BsonIndex.NewPayload: numeric strings given for a real field, which Lua converts, are a failure here; nil as a boolean is not modelled. The conversion of an integer to a double is a parameter.
