# Proofs about libjingle's `talk/base`

This project models nine small algorithms of libjingle's base library in Dafny and proves what they
are for: properties of every run, every interleaving or every input. `dafny verify dfyconfig.toml`
checks all of it.

| file | what it models |
|---|---|
| `LockFreeQueue.dfy` | the single-producer, single-consumer ring of `atomicops.h`: a state machine of interleaved steps with 32-bit counters that wrap, and the class whose operations take those steps |
| `TcpFraming.dfy` | the packet framing of `asynctcpsocket.cc`: framing and parsing as functions, the socket with its two buffers as a class, and whole sessions between two sockets |
| `Base64.dfy` | the encoder and the flag-driven decoder of `base64.cc` |
| `Crc32.dfy` | the table-driven checksum of `crc32.cc` against the bit-serial one of RFC 1952 |
| `ByteOrder.dfy` | `byteorder.h`: numbers in memory and network order, on hosts of both kinds |
| `ByteBuffers.dfy` | the growable buffer of `bytebuffer.cc` |
| `DiskCaches.dfy` | the lock, reader and writer accounts of `diskcache.cc` and its eviction |
| `Events.dfy` | the POSIX `Event` of `event.cc`: a monitor protocol of any number of threads, and the class that runs it |
| `Smoothing.dfy` | the estimator of `bandwidthsmoother.cc` on the sliding window of `rollingaccumulator.h` |
| `Urls.dfy` | the parser and the printer of `httpcommon-inl.h` |
| `Options.dfy`, `Sequences.dfy`, `Division.dfy`, `Powers.dfy` | shared helpers |

Each object that the program updates in place is a class here, with its fields, its loops and its
arrays. A `View()` gives the value of the object, the contract of a method ties the new value to the
old one through a function on values, and the results about whole runs are lemmas about those
functions.

What the outside world does is a parameter: how many bytes a socket takes or hands over, whether a
file opens, which files cannot be deleted, which entry is evicted, which thread runs next, when a
sleeper wakes and with what error, what time it is and whether the host is big-endian.

Some promises do not hold for all inputs. There the code is kept as it is and the exact condition is
proved, with a run or an input that fails without it:

- the queue is first-in first-out past 2^32 pushes only for a capacity that is a power of two
  (`FifoExactlyForPowersOfTwo`, `WrapOverwrites`), and `atomicops.h:149-150` promises a range of the
  size that the producer and the consumer always see (`SizeReadByProducer`, `SizeReadByConsumer`) but a
  third thread does not (`SizeInRangeForAllExactly`, `ThirdThreadMisreads`);
- at a rise the time between increases has passed only if the sum of two 32-bit times did not wrap
  (`RiseWaits`, `WrapRisesEarly`), and a negative first guess is scaled down (`EstimateWithinExactly`,
  `NegativeGuessFalls`);
- `DO_PAD_YES` rejects whitespace after the last full quantum (`WhiteIsStrictOnStripped`,
  `TrailingSpaceRejected`);
- a 24-bit value comes back only below 2^24 (`StoredUnchanged`);
- a purge leaves the total as it was (`TotalSizeInEveryRun`, `PurgeLeavesSize`), and a lock can lose its
  entry (`LockDanglesExactly`, `LockCanDangle`);
- a Url whose address has a second `@` is parsed differently the second time (`ReparseExactly`,
  `ReparseDiffers`).

The sizes of the cache entries are proved right for runs with one writer a stream and files that can be
deleted (`EntrySizesInEveryRun`). Neither condition can be dropped (`TwoWritersCountTwice`,
`StuckFileIsNotCounted`), but a run that breaks one may still go well.

`bandwidthsmoother.h:36-47` speaks of sampled measurements where the code compares the mean of the
window, and of the factor where it compares the truncated product; the model follows the code.

## Model

| member | source | states |
|---|---|---|
| `LockFreeQueue.FifoInEveryRun` | trunk/talk/base/atomicops.h:92-134 | In every interleaving of one producer and one consumer the popped values are a prefix of the pushed ones, in order; a loaded value is the oldest one queued, never a half-written one. Holds for every power-of-two capacity and, for others, up to 2^32 pushes |
| `LockFreeQueue.FifoExactlyForPowersOfTwo` | trunk/talk/base/atomicops.h:92-134 | The queue is first-in first-out in every run, past any number of counter wraps, if and only if its capacity is a power of two |
| `LockFreeQueue.WrapOverwrites` | trunk/talk/base/atomicops.h:101-105 | For any capacity that does not divide 2^32 a run in which the push that takes number 2^32 overwrites a queued value |
| `LockFreeQueue.RaceFreeInEveryRun` | trunk/talk/base/atomicops.h:101-121 | While a push and a pop are both under way they are at different slots |
| `LockFreeQueue.StoreMissesQueued` | trunk/talk/base/atomicops.h:101-121 | The slot a push writes holds none of the queued values |
| `LockFreeQueue.CountersInEveryRun` | trunk/talk/base/atomicops.h:145-151 | In every run, for every capacity, the tests for full and empty are right and the size is the number of queued values, at most the capacity |
| `LockFreeQueue.CountersTellTheTruth` | trunk/talk/base/atomicops.h:145-151 | What the wrapped counters say agrees with the counts that do not wrap |
| `LockFreeQueue.SizeReadInTwoSteps` | trunk/talk/base/atomicops.h:149-151 | With steps between its two reads, the pushed count first, the size is in range exactly when the pops have not passed the pushes seen first |
| `LockFreeQueue.SizeReadPoppedFirst` | trunk/talk/base/atomicops.h:149-151 | With the popped count first it is in range exactly when the pushes have not run ahead of it by more than the capacity |
| `LockFreeQueue.SizeReadByProducer` | trunk/talk/base/atomicops.h:149-151 | What the producer reads, in either order and with any pops in between, is the true size at one of its two reads, at most the capacity |
| `LockFreeQueue.SizeReadByConsumer` | trunk/talk/base/atomicops.h:149-151 | The same for the consumer, with any pushes in between |
| `LockFreeQueue.ThirdThreadMisreads` | trunk/talk/base/atomicops.h:149-151 | For every capacity but 0 and 2^32 - 1 and either order, a run in which a third thread reads a size out of range |
| `LockFreeQueue.SizeInRangeForAllExactly` | trunk/talk/base/atomicops.h:149-151 | Any thread reads a size in range in every run if and only if the capacity is 0 or 2^32 - 1 |
| `LockFreeQueue.FixedSizeLockFreeQueue.constructor` | trunk/talk/base/atomicops.h:84-87 | A new queue is the initial state of the protocol |
| `LockFreeQueue.FixedSizeLockFreeQueue.PushBack` | trunk/talk/base/atomicops.h:92-107 | Fails exactly when full (or of capacity 0); otherwise takes exactly the three steps of a push |
| `LockFreeQueue.FixedSizeLockFreeQueue.PeekFront` | trunk/talk/base/atomicops.h:112-123 | A value exactly when there is one, and then the oldest queued; changes nothing |
| `LockFreeQueue.FixedSizeLockFreeQueue.PopFront` | trunk/talk/base/atomicops.h:128-134 | Fails exactly when empty; otherwise takes exactly the three steps of a pop and returns the value delivered |
| `LockFreeQueue.FixedSizeLockFreeQueue.Size` | trunk/talk/base/atomicops.h:149-151 | The number of values pushed and not popped, at most the capacity, although the counters wrap |
| `TcpFraming.RunSession` | trunk/talk/base/asynctcpsocket.cc:166-242 | For any list of sends, writable and readable events between two sockets, with any partial sends and any cutting into reads: as many bytes get through as the events say; what is delivered is what parses out of them, a prefix of the accepted packets, and all of them exactly when every byte is through |
| `TcpFraming.ReadsComplete` | trunk/talk/base/asynctcpsocket.cc:211-229 | Once nothing is held back, as many readable events as there are bytes in flight bring them all, whatever their limits: there is always room |
| `TcpFraming.EverythingDelivered` | trunk/talk/base/asynctcpsocket.cc:166-307 | Whatever happened before, a writable event that takes what is held back and enough readable events deliver every accepted packet |
| `TcpFraming.ParseSplits` | trunk/talk/base/asynctcpsocket.cc:289-307 | A stream is the frames of the packets parsed out of it followed by the residue, which has no whole frame and is at most 65536 bytes |
| `TcpFraming.ParseFrames` | trunk/talk/base/asynctcpsocket.cc:264-307 | Parsing undoes framing, whatever follows |
| `TcpFraming.ChunkingIndependent` | trunk/talk/base/asynctcpsocket.cc:211-222 | Parsing the residue of a first part with what follows continues the parse of the whole: where reads cut the stream makes no difference |
| `TcpFraming.PartialStream` | trunk/talk/base/asynctcpsocket.cc:264-307 | Any part of a framed stream yields a prefix of its packets, exactly the whole of it all of them |
| `TcpFraming.HeaderImage` | trunk/talk/base/asynctcpsocket.cc:274-275 | The length written in host memory after conversion to network order is the big-endian header, on both kinds of host |
| `TcpFraming.LongestFrame` | trunk/talk/base/asynctcpsocket.cc:42-47 | The frame of a packet of 65535 bytes leaves one byte of the 65538 of a buffer free, and the header holds a length exactly up to that |
| `TcpFraming.AsyncTcpSocket.constructor` | trunk/talk/base/asynctcpsocket.cc:68-91 | A new socket has empty buffers and has sent and received nothing |
| `TcpFraming.AsyncTcpSocket.AppendToOutBuffer` | trunk/talk/base/asynctcpsocket.cc:183-187 | The bytes are appended to what waits in the output buffer |
| `TcpFraming.AsyncTcpSocket.FlushOutBuffer` | trunk/talk/base/asynctcpsocket.cc:166-181 | Bytes on the wire followed by those waiting stay the same; the result is what the socket reported for an error and for no progress, -1 for too large a count, and the count otherwise |
| `TcpFraming.AsyncTcpSocket.Send` | trunk/talk/base/asynctcpsocket.cc:264-287 | Accepts a packet exactly when nothing waits and the socket takes at least a byte of its frame; a dropped one leaves no byte on the wire or in the buffer; the exact value returned in every case |
| `TcpFraming.AsyncTcpSocket.OnWriteEvent` | trunk/talk/base/asynctcpsocket.cc:232-242 | Sends on what waits, and signals readiness exactly when nothing waits afterwards |
| `TcpFraming.AsyncTcpSocket.ProcessInput` | trunk/talk/base/asynctcpsocket.cc:289-307 | The in-place loop delivers the packets of the parse of the buffer, leaves its residue at the front, and terminates |
| `TcpFraming.AsyncTcpSocket.OnReadEvent` | trunk/talk/base/asynctcpsocket.cc:211-229 | Keeps delivered packets and residue equal to the parse of the whole stream received; the overflow branch is never taken |
| `Base64.StrictIsCanonical` | trunk/talk/base/base64.cc:99-257 | A strict decode of a text succeeds with given bytes if and only if the text is their encoding: strict base64 is a bijection (sections 4 and 3.5 of RFC 4648) |
| `Base64.EncodeDecode` | trunk/talk/base/base64.cc:138-257 | Whatever decodes strictly is the encoding of what it decodes to |
| `Base64.DecodeEncode` | trunk/talk/base/base64.cc:99-257 | In each of the 27 modes, encoding and decoding gives back the bytes and leaves no text exactly when padding is allowed, not there, or skipped as illegal |
| `Base64.LaxIgnoresJunk` | trunk/talk/base/base64.cc:138-190 | Under `DO_LAX` bytes and success depend only on the subsequence of alphabet characters |
| `Base64.IgnoresJunkExactly` | trunk/talk/base/base64.cc:138-257 | Of all 27 modes exactly those that parse anything and either forbid padding, or leave it optional without being bound to the end of the buffer, have this property |
| `Base64.WhiteIsStrictOnStripped` | trunk/talk/base/base64.cc:149-152 | Skipping whitespace gives the bytes of a strict parse of the text without it, and the same success, except where padding is required and the text ends in whitespace behind nothing but full groups of the alphabet |
| `Base64.GroupsDecode` | trunk/talk/base/base64.cc:240-246 | Where padding is required, a text decodes to whole groups of bytes exactly if it has nothing but full groups of the alphabet |
| `Base64.TrailingSpaceRejected` | trunk/talk/base/base64.cc:244-246 | The exception happens to every encoding of full groups that a space follows |
| `Base64.LinesDecode` | trunk/talk/base/base64.cc:44-45 | An encoding broken up anywhere by tabs, line feeds, vertical tabs, form feeds, carriage returns and spaces decodes to its bytes where whitespace is skipped, for every padding and termination; it is rejected exactly where illegal pads leave something before the required end of the buffer, or padding is required and whitespace ends full groups |
| `Base64.LastQuantumExactly` | trunk/talk/base/base64.cc:138-257 | In every mode in which pads are legal, after any full groups: the bytes of the last quantum are decoded, an incomplete padding is given back with what follows, and the text is rejected exactly for unused bits, missing pads or characters left where the flags forbid them |
| `Base64.JunkAfterGroups` | trunk/talk/base/base64.cc:240-249 | Anything that is no sextet and not skipped, behind full groups, is left over, an error exactly where pads are required or the end of the buffer must be reached |
| `Base64.KnownEncodings` | trunk/talk/base/base64.cc:99-136 | Vectors of section 10 of RFC 4648 as numbers, the pad being 61 |
| `Base64.Alphabet` | trunk/talk/base/base64.cc:33-36 | The encode table is table 1 of RFC 4648 |
| `Base64.SpacesExactly` | trunk/talk/base/base64.cc:43-70 | Exactly the characters 9 to 13 and 32 are whitespace |
| `Base64.TablesInverse` | trunk/talk/base/base64.cc:33-77 | The two tables are inverse to each other on the alphabet, and the test for a base64 character agrees with them |
| `Base64.EncodeFromArray` | trunk/talk/base/base64.cc:99-136 | The loop writes the encoding of section 4 of RFC 4648 |
| `Base64.EncodeGroup` | trunk/talk/base/base64.cc:109-134 | One turn of the loop reads up to three bytes and writes their four characters |
| `Base64.GetNextQuantum` | trunk/talk/base/base64.cc:138-190 | The loop returns the sextets, the padding flag and the rest of the text that the scan prescribes, pads that complete no quantum given back |
| `Base64.CollectOne` | trunk/talk/base/base64.cc:144-175 | One turn of the collecting loop, branch by branch, does to the counters and the buffer what the action for the character says |
| `Base64.CollectQuantum` | trunk/talk/base/base64.cc:142-176 | The collecting loop ends with the sextets, the pads, the rest and the first pad that the scan prescribes, in every mode |
| `Base64.SplitQuantum` | trunk/talk/base/base64.cc:227-239 | The complete bytes of a quantum and its unused bits |
| `Base64.DecodeFromArray` | trunk/talk/base/base64.cc:204-257 | The loop returns the bytes, the success flag and the number of characters used that the specification gives, in every mode |
| `Crc32.FourByteBurst` | trunk/talk/base/crc32.cc:41-66 | Two buffers of equal length that differ only within four consecutive bytes have different checksums from any start value |
| `Crc32.BurstDetected` | trunk/talk/base/crc32.cc:41-66 | The same for any 32 consecutive bits, aligned or not |
| `Crc32.LongerBurstMissed` | trunk/talk/base/crc32.cc:36-66 | 32 bits is the exact bound: wherever 33 bits of a message are zero, the message with the generator pattern there is different and has the same checksum, from every start value |
| `Crc32.FiveByteBurstMissed` | trunk/talk/base/crc32.cc:36-66 | Two different buffers of five bytes with the same checksum from every start value |
| `Crc32.CrcIsRemainder` | trunk/talk/base/crc32.cc:36-66 | The checksum is the complement of the remainder that long division of polynomials modulo 2, by the generator of section 8 of RFC 1952 given by its exponents, leaves of the message shifted up by 32 and combined with the complemented start value |
| `Crc32.Coefficients` | trunk/talk/base/crc32.cc:36-38 | The constant has exactly the exponents of the generator of section 8 of RFC 1952 |
| `Crc32.PolynomialNumber` | trunk/talk/base/crc32.cc:38 | A word is that constant exactly if its number is 0xEDB88320 |
| `Crc32.ChecksumOfOnes` | trunk/talk/base/crc32.cc:57-66 | The checksum of four bytes of ones is 0xFFFFFFFF |
| `Crc32.StepInjective` | trunk/talk/base/crc32.cc:46-52 | A bit step maps different states to different states |
| `Crc32.StepsLinear` | trunk/talk/base/crc32.cc:46-52 | Bit steps distribute over exclusive or |
| `Crc32.TableStep` | trunk/talk/base/crc32.cc:62-64 | One table lookup and shift is the feeding of eight bits one by one |
| `Crc32.Chaining` | trunk/talk/base/crc32.cc:57-66 | Continuing from the checksum of a first part gives the checksum of the whole |
| `Crc32.EntryNonZero` | trunk/talk/base/crc32.cc:42-43 | Only entry 0 of the table is zero, so a non-zero last entry means a filled table |
| `Crc32.Table.EnsureInited` | trunk/talk/base/crc32.cc:41-55 | Fills an empty table and leaves a filled one as it is |
| `Crc32.Table.ComputeEntry` | trunk/talk/base/crc32.cc:45-53 | The inner loop computes eight bit steps of the index |
| `Crc32.Table.UpdateCrc32` | trunk/talk/base/crc32.cc:57-66 | The table-driven loop computes the bit-serial checksum of section 8 of RFC 1952, at the first call and at any later one |
| `ByteOrder.ReadBack` | trunk/talk/base/byteorder.h:55-146 | Reading what was written gives the value modulo the range of its width, in both orders |
| `ByteOrder.ReadBackExact` | trunk/talk/base/byteorder.h:55-146 | It gives the value itself if and only if that fits the width |
| `ByteOrder.WriteBackBig` | trunk/talk/base/byteorder.h:55-99 | Writing what was read gives the same bytes, most significant first |
| `ByteOrder.WriteBackLittle` | trunk/talk/base/byteorder.h:101-146 | Writing what was read gives the same bytes, least significant first |
| `ByteOrder.Places` | trunk/talk/base/byteorder.h:55-146 | Where the byte of each weight stands, from the right in big-endian order and from the left in little-endian order |
| `ByteOrder.HostNetworkInverse` | trunk/talk/base/byteorder.h:153-181 | Conversion to network order and back is the identity on values that fit, on both kinds of host |
| `ByteOrder.NetworkImage` | trunk/talk/base/byteorder.h:153-169 | The host memory of a converted value is its big-endian form |
| `ByteOrder.SetBE16` | trunk/talk/base/byteorder.h:55-58 | Writes the big-endian form and nothing beyond it |
| `ByteOrder.SetBE32` | trunk/talk/base/byteorder.h:60-65 | Writes the big-endian form and nothing beyond it |
| `ByteOrder.SetBE64` | trunk/talk/base/byteorder.h:67-76 | Writes the big-endian form and nothing beyond it |
| `ByteOrder.GetBE16` | trunk/talk/base/byteorder.h:78-81 | The sum of shifted bytes is the number they stand for, most significant first |
| `ByteOrder.GetBE32` | trunk/talk/base/byteorder.h:83-88 | The sum of shifted bytes is the number they stand for, most significant first |
| `ByteOrder.GetBE64` | trunk/talk/base/byteorder.h:90-99 | The sum of shifted bytes is the number they stand for, most significant first |
| `ByteOrder.SetLE16` | trunk/talk/base/byteorder.h:101-104 | Writes the little-endian form and nothing beyond it |
| `ByteOrder.SetLE32` | trunk/talk/base/byteorder.h:106-111 | Writes the little-endian form and nothing beyond it |
| `ByteOrder.SetLE64` | trunk/talk/base/byteorder.h:113-122 | Writes the little-endian form and nothing beyond it |
| `ByteOrder.GetLE16` | trunk/talk/base/byteorder.h:124-127 | The sum of shifted bytes is the number they stand for, least significant first |
| `ByteOrder.GetLE32` | trunk/talk/base/byteorder.h:129-134 | The sum of shifted bytes is the number they stand for, least significant first |
| `ByteOrder.GetLE64` | trunk/talk/base/byteorder.h:136-146 | The sum of shifted bytes is the number they stand for, least significant first |
| `ByteBuffers.SavedPosition` | trunk/talk/base/bytebuffer.cc:194-248 | After any run, a saved read position is accepted exactly when nothing resized or cleared the buffer, and then what is readable is what was readable when it was saved followed by everything written since |
| `ByteBuffers.SurvivesExactly` | trunk/talk/base/bytebuffer.cc:198-242 | In every run of writes, reads and returns to saved positions, a position saved before it is accepted after it if and only if everything written in it fits behind what had been written before |
| `ByteBuffers.SavedInNewBuffer` | trunk/talk/base/bytebuffer.cc:33-242 | In a new buffer every saved position is accepted, and gives back the same bytes and those written since, as long as no more than 4096 bytes are written in all |
| `ByteBuffers.MovesExactly` | trunk/talk/base/bytebuffer.cc:198-222 | A write invalidates the saved positions if and only if it does not fit behind what was written before, read or not |
| `ByteBuffers.RoomAfterWrite` | trunk/talk/base/bytebuffer.cc:198-222 | A write allocates if and only if the readable bytes and the new ones exceed the size, and then the larger of what is needed and half as much again as there was |
| `ByteBuffers.GrowthInRun` | trunk/talk/base/bytebuffer.cc:207-222 | When nothing is read, each move in a run of writes adds at least half of the first size |
| `ByteBuffers.ClearedRoom` | trunk/talk/base/bytebuffer.cc:244-248 | A cleared buffer has all of its room again |
| `ByteBuffers.RefinesQueue` | trunk/talk/base/bytebuffer.cc:152-230 | Growth, compaction and consumption are invisible: in every run that goes back to no saved position the readable bytes are those of a plain queue |
| `ByteBuffers.NothingLost` | trunk/talk/base/bytebuffer.cc:152-230 | What reads took followed by what is left is what was there followed by what was written |
| `ByteBuffers.ListRoundTrip` | trunk/talk/base/bytebuffer.cc:81-196 | Any list of typed writes read back with the same types gives the same list, in both orders and on both kinds of host, 24-bit values modulo 2^24 |
| `ByteBuffers.StoredUnchanged` | trunk/talk/base/bytebuffer.cc:99-114 | It is the very same list exactly when every 24-bit value is below 2^24 |
| `ByteBuffers.WriteThenRead` | trunk/talk/base/bytebuffer.cc:81-223 | Writing and reading a list through the buffer itself, growing as it goes, returns it and leaves nothing over |
| `ByteBuffers.WireFormat` | trunk/talk/base/bytebuffer.cc:166-188 | What a typed write puts in the buffer is big-endian in network order and the host's own order otherwise |
| `ByteBuffers.WireFormat24` | trunk/talk/base/bytebuffer.cc:171-178 | A 24-bit value is written as its low three bytes in the same order |
| `ByteBuffers.ByteBuffer.constructor` | trunk/talk/base/bytebuffer.cc:41-75 | An empty buffer of the default size |
| `ByteBuffers.ByteBuffer.FromBytes` | trunk/talk/base/bytebuffer.cc:49-75 | A buffer holding a copy of the given bytes, all readable |
| `ByteBuffers.ByteBuffer.Resize` | trunk/talk/base/bytebuffer.cc:207-223 | Keeps as many readable bytes as fit, moved to the front; invalidates saved positions; grows by at least half |
| `ByteBuffers.ByteBuffer.ReserveWriteBuffer` | trunk/talk/base/bytebuffer.cc:198-205 | Makes room at the end, by a resize exactly when there is too little |
| `ByteBuffers.ByteBuffer.WriteBytes` | trunk/talk/base/bytebuffer.cc:194-196 | Appends the bytes to what is readable |
| `ByteBuffers.ByteBuffer.ReadBytes` | trunk/talk/base/bytebuffer.cc:152-160 | The first bytes that are readable, or nothing at all if there are too few |
| `ByteBuffers.ByteBuffer.Consume` | trunk/talk/base/bytebuffer.cc:225-230 | Skips bytes, or does nothing if there are too few |
| `ByteBuffers.ByteBuffer.GetReadPosition` | trunk/talk/base/bytebuffer.cc:232-234 | The position and the version |
| `ByteBuffers.ByteBuffer.SetReadPosition` | trunk/talk/base/bytebuffer.cc:236-242 | Goes back to a position of the same version and refuses any other; the buffer stays usable exactly if an accepted position lies within it |
| `ByteBuffers.ByteBuffer.Clear` | trunk/talk/base/bytebuffer.cc:244-248 | Nothing readable, saved positions invalid, size kept |
| `ByteBuffers.ByteBuffer.WriteUInt8` | trunk/talk/base/bytebuffer.cc:162-164 | Appends the encoding of the value in the order of the buffer |
| `ByteBuffers.ByteBuffer.ReadUInt8` | trunk/talk/base/bytebuffer.cc:81-85 | Decodes and takes the value, or nothing at all if there are too few bytes |
| `ByteBuffers.ByteBuffer.WriteUInt16` | trunk/talk/base/bytebuffer.cc:166-169 | Appends the encoding of the value in the order of the buffer |
| `ByteBuffers.ByteBuffer.ReadUInt16` | trunk/talk/base/bytebuffer.cc:87-97 | Decodes and takes the value, or nothing at all if there are too few bytes |
| `ByteBuffers.ByteBuffer.WriteUInt24` | trunk/talk/base/bytebuffer.cc:171-178 | Appends the encoding of the value in the order of the buffer |
| `ByteBuffers.ByteBuffer.ReadUInt24` | trunk/talk/base/bytebuffer.cc:99-114 | Decodes and takes the value, or nothing at all if there are too few bytes |
| `ByteBuffers.ByteBuffer.WriteUInt32` | trunk/talk/base/bytebuffer.cc:180-183 | Appends the encoding of the value in the order of the buffer |
| `ByteBuffers.ByteBuffer.ReadUInt32` | trunk/talk/base/bytebuffer.cc:116-126 | Decodes and takes the value, or nothing at all if there are too few bytes |
| `ByteBuffers.ByteBuffer.WriteUInt64` | trunk/talk/base/bytebuffer.cc:185-188 | Appends the encoding of the value in the order of the buffer |
| `ByteBuffers.ByteBuffer.ReadUInt64` | trunk/talk/base/bytebuffer.cc:128-138 | Decodes and takes the value, or nothing at all if there are too few bytes |
| `DiskCaches.TotalSizeInEveryRun` | trunk/talk/base/diskcache.cc:98-360 | In every run of locks, writes, unlocks, reads, deletes, closes and purges the total is the sum of the entry sizes if and only if no purge came while it was not zero; it never underflows |
| `DiskCaches.PurgeLeavesSize` | trunk/talk/base/diskcache.cc:98-112 | For every limit and size, a run that ends in such a purge: no entry is left and the total still has the size |
| `DiskCaches.TwoWritersCountTwice` | trunk/talk/base/diskcache.cc:339-352 | With two writers of one stream and nothing else amiss, its size is counted twice in the entry |
| `DiskCaches.StuckFileIsNotCounted` | trunk/talk/base/diskcache.cc:211-226 | Within the limit, with one writer and a file that cannot be deleted, the file is left to the entry created next, whose size does not have it |
| `DiskCaches.LockDanglesExactly` | trunk/talk/base/diskcache.cc:114-125 | Locking a resource can lose its entry if and only if the total is over the limit, the entry is held by nobody and can be deleted, and deleting all such entries gets within the limit |
| `DiskCaches.DanglesExactly` | trunk/talk/base/diskcache.cc:229-264 | The same for any check of the limit and any entry |
| `DiskCaches.LockCanDangle` | trunk/talk/base/diskcache.cc:114-125 | Two resources that fit the limit singly but not together: a run after which locking one evicts that very one, the first in the map and the older |
| `DiskCaches.EntrySizesInEveryRun` | trunk/talk/base/diskcache.cc:128-154 | In every run with one writer a stream and files that can be deleted, the size of each entry is the sum of its files not open for writing |
| `DiskCaches.ReadGrantedInEveryRun` | trunk/talk/base/diskcache.cc:171-186 | In every such run a stream that can be opened is granted to a reader if and only if its resource is unlocked and has a file of that index or a higher one |
| `DiskCaches.StoredIsReadable` | trunk/talk/base/diskcache.cc:171-186 | No file of an unlocked resource is refused to a reader |
| `DiskCaches.UnlockingDrains` | trunk/talk/base/diskcache.cc:128-358 | Until a resource that is not locked is locked again, in any run, no writer is added to those it has, and once they are closed it is unlocked, if it is still there |
| `DiskCaches.HeldExactly` | trunk/talk/base/diskcache.cc:128-186 | A resource has accessors if and only if it has an open stream, a reader when unlocked and a writer when not, and never one of the other kind |
| `DiskCaches.LockExactly` | trunk/talk/base/diskcache.cc:114-126 | Within the limit a resource is locked after the call if and only if nobody is reading it, new, unlocking and locked ones included; nothing else changes |
| `DiskCaches.WriteExactly` | trunk/talk/base/diskcache.cc:128-154 | A writer is granted if and only if the resource is locked; the file is then empty and the stream count covers the index |
| `DiskCaches.UnlockExactly` | trunk/talk/base/diskcache.cc:156-169 | Within the limit unlocking waits if and only if a writer is open; nothing else changes |
| `DiskCaches.CloseExactly` | trunk/talk/base/diskcache.cc:339-358 | A close unlocks the resource if and only if it was unlocking and no writer is left; no other close changes a lock |
| `DiskCaches.DeleteExactly` | trunk/talk/base/diskcache.cc:203-227 | An entry survives an attempt to delete it if and only if it is locked, unlocking or read |
| `DiskCaches.AccessInEveryRun` | trunk/talk/base/diskcache.cc:114-186 | In every run: unlocked entries have only readers, the others only writers; unlocking implies an open writer; accessors count the open streams; a stream that is closed finds its entry |
| `DiskCaches.StaleInRun` | trunk/talk/base/diskcache.cc:98-112 | What purges left in the total never goes away, and is there exactly if some purge left something |
| `DiskCaches.DeletedAllKeeps` | trunk/talk/base/diskcache.cc:229-264 | Evicting any resources in any order drops only entries nobody holds and changes no other |
| `DiskCaches.SumCovers` | trunk/talk/base/diskcache.cc:147-149 | The total covers the size of every entry, so subtracting it never underflows |
| `DiskCaches.ApplyKeeps` | trunk/talk/base/diskcache.cc:98-360 | Every operation keeps the accounts, whatever is evicted and whatever fails |
| `DiskCaches.ApplyKeepsFiles` | trunk/talk/base/diskcache.cc:98-360 | Every operation with one writer a stream and deletable files keeps the entry sizes equal to their closed files |
| `DiskCaches.DiskCache.constructor` | trunk/talk/base/diskcache.cc:77-90 | An empty cache with a limit |
| `DiskCaches.DiskCache.DeleteFiles` | trunk/talk/base/diskcache.cc:211-222 | Deletes the files of a resource but for those that cannot be; succeeds exactly if none is left |
| `DiskCaches.DiskCache.DeleteResource` | trunk/talk/base/diskcache.cc:203-227 | Deletes an entry nobody holds even when a file stays; succeeds exactly if neither the entry nor one of its files is left |
| `DiskCaches.DiskCache.CheckLimit` | trunk/talk/base/diskcache.cc:229-264 | Terminates; evicts only entries nobody holds and none once the total is within the limit; on true each victim is entirely removed and the total is within the limit; on false nothing can be evicted or only the last victim is not entirely gone |
| `DiskCaches.DiskCache.LockResource` | trunk/talk/base/diskcache.cc:114-126 | Does to the whole state what the specification says; refuses a locked or read entry, and any other exactly if the check of the limit fails; within the limit it succeeds exactly on a resource not locked that nobody reads; otherwise the total is within the limit and the entry locked, or evicted on the way under the exact condition for that |
| `DiskCaches.DiskCache.WriteResource` | trunk/talk/base/diskcache.cc:128-154 | Opens a writer exactly on a locked entry whose file opens, and takes the old file size off entry and total |
| `DiskCaches.DiskCache.UnlockResource` | trunk/talk/base/diskcache.cc:156-169 | Succeeds exactly on a locked entry, which waits for its writers or is unlocked at once and the limit checked, with all that the check promises |
| `DiskCaches.DiskCache.ReadResource` | trunk/talk/base/diskcache.cc:171-186 | Opens a reader exactly on an unlocked entry with that stream whose file opens |
| `DiskCaches.DiskCache.CloseStreamOf` | trunk/talk/base/diskcache.cc:339-358 | Takes a stream off the accounts and, for a writer, adds the new file size; the last writer unlocks |
| `DiskCaches.DiskCache.ReleaseResource` | trunk/talk/base/diskcache.cc:331-360 | Closing a stream always finds its entry and does to the whole state what the specification says; after the last writer the limit is checked, with all that the check promises |
| `DiskCaches.DiskCache.PurgeAll` | trunk/talk/base/diskcache.cc:98-112 | Forgets every entry exactly when no stream is open and the files could be purged; the total stays |
| `Events.TallyInEveryRun` | trunk/talk/base/event.cc:85-135 | In every interleaving of any number of threads each `Set` is accounted for: still pending, taken by exactly one wait, still signaling, merged with an earlier one, or reset |
| `Events.NoMoreWakeupsThanSets` | trunk/talk/base/event.cc:98-135 | For an automatic event the waits that returned true, plus one if still signaled, never exceed the calls of `Set` plus one if initially signaled |
| `Events.NoMoreWakeupsInStretch` | trunk/talk/base/event.cc:126-130 | The same over any stretch of any run: between two waits that are served there is a store of true |
| `Events.NoLostWakeup` | trunk/talk/base/event.cc:85-135 | Whenever the event is signaled and the mutex free, no thread is left asleep, and any thread in a wait can run to its return: true and the signal taken, or false and nothing taken if it had timed out |
| `Events.MutualExclusion` | trunk/talk/base/event.cc:85-135 | At most one thread is between lock and unlock |
| `Events.ForeverReturnsTrue` | trunk/talk/base/event.cc:121-134 | A wait without limit never returns false |
| `Events.ManualStaysSignaled` | trunk/talk/base/event.cc:129-130 | A manual event, once signaled, stays so until a reset, whoever waits |
| `Events.StepKeepsWake` | trunk/talk/base/event.cc:85-124 | Every step keeps: nobody sleeps on a signaled event unless the thread that set it is about to broadcast |
| `Events.WakeupEndsWait` | trunk/talk/base/event.cc:119-124 | A sleeper that wakes and finds the mutex free is through its loop, with the mutex, if and only if the event is signaled by then or its wait has timed out; otherwise it sleeps again |
| `Events.SignaledWaitEnds` | trunk/talk/base/event.cc:98-124 | A wait that gets the mutex at once on a signaled event never sleeps, whatever the scheduler would do |
| `Events.Event.constructor` | trunk/talk/base/event.cc:73-78 | The initial state of the protocol |
| `Events.Event.Set` | trunk/talk/base/event.cc:85-90 | Done if and only if the mutex is free at the try; takes exactly the steps of a set then, after which the event is signaled and nobody sleeps, and none but the try otherwise |
| `Events.Event.Reset` | trunk/talk/base/event.cc:92-96 | Done if and only if the mutex is free at the try; takes exactly the steps of a reset then, after which the event is not signaled, and none but the try otherwise |
| `Events.Event.CondWait` | trunk/talk/base/event.cc:119-123 | Ends in the state that the scheduler's wake-up determines; sleeps and wakes, for cause or not, with the mutex again; an error only from a wake-up with one |
| `Events.Event.AwaitSignal` | trunk/talk/base/event.cc:119-124 | Ends in the state that the wake-ups determine; the loop ends only on a signaled event or an error, and makes only steps of the protocol |
| `Events.Event.Decide` | trunk/talk/base/event.cc:129-130 | Without an error the signal of an automatic event is taken, with one nothing is |
| `Events.Event.Wait` | trunk/talk/base/event.cc:98-135 | Outcome and final state are those that the scheduler determines: true at once if the mutex is free at the try and the event signaled, false only after a wake-up with an error, blocked exactly where the loop does not end; it makes only steps of the protocol and returns the reply its thread leaves with |
| `Smoothing.EstimateWithinExactly` | trunk/talk/base/bandwidthsmoother.cc:51-99 | The estimate lies between the minimum and the maximum of the guess and the samples that are not negative in every run, if and only if the guess is not negative or scaling leaves it what it is |
| `Smoothing.NegativeGuessFalls` | trunk/talk/base/bandwidthsmoother.cc:73-94 | For any other guess a run of zero samples that takes the estimate below all of them |
| `Smoothing.RiseIsEarned` | trunk/talk/base/bandwidthsmoother.cc:73-94 | A rise comes only after every mean looked at since the last change or low sample was at least the truncated threshold, the estimate being the same all the while |
| `Smoothing.RiseWaits` | trunk/talk/base/bandwidthsmoother.cc:81-87 | At a rise the whole time between increases has passed since then if and only if the sum of the two 32-bit times did not wrap around |
| `Smoothing.RisesExactlyWhen` | trunk/talk/base/bandwidthsmoother.cc:64-94 | A measurement raises the estimate if and only if it is looked at in time, its mean is at least the threshold and the threshold or, from zero, the mean is higher; negative estimates never rise |
| `Smoothing.FallsExactlyWhen` | trunk/talk/base/bandwidthsmoother.cc:51-71 | A measurement lowers an estimate that is not negative if and only if it is looked at and its mean is lower, and then the mean is the estimate and its time the time of the last change |
| `Smoothing.WrapRisesEarly` | trunk/talk/base/bandwidthsmoother.cc:86 | A run in which that sum wraps and the estimate rises one tick after it fell |
| `Smoothing.MeanWithin` | trunk/talk/base/rollingaccumulator.h:84-89 | The truncated mean lies between any bounds of the samples |
| `Smoothing.MeanExactly` | trunk/talk/base/rollingaccumulator.h:84-89 | The mean of samples that are not negative is their average rounded down, and nothing else |
| `Smoothing.TruncExactly` | trunk/talk/base/bandwidthsmoother.cc:80 | The threshold is the product cut towards zero, and nothing else |
| `Smoothing.SumPushed` | trunk/talk/base/rollingaccumulator.h:62-78 | Subtracting the oldest sample and adding the new one keeps the sum of the window |
| `Smoothing.RollingAccumulator.AddSample` | trunk/talk/base/rollingaccumulator.h:62-78 | The ring holds the latest samples in order, and its running sum is their sum |
| `Smoothing.RollingAccumulator.ComputeMean` | trunk/talk/base/rollingaccumulator.h:84-89 | The truncated mean of the window, zero if it is empty |
| `Smoothing.Quorum` | trunk/talk/base/bandwidthsmoother.cc:44-46 | The number of samples needed is the given part of the window rounded down, the part kept between none and all |
| `Smoothing.BandwidthSmoother.constructor` | trunk/talk/base/bandwidthsmoother.cc:34-47 | Starts from the guess, with the factor at least 1 and the part of the window between none and all |
| `Smoothing.BandwidthSmoother.Adjust` | trunk/talk/base/bandwidthsmoother.cc:67-98 | What a mean that counts does to the estimate and the time of the last change, and that true is returned exactly if the estimate changed |
| `Smoothing.BandwidthSmoother.Sample` | trunk/talk/base/bandwidthsmoother.cc:51-99 | Refuses negative samples and too few, and otherwise moves window, estimate and time as specified |
| `Urls.RoundTripExactly` | trunk/talk/base/httpcommon-inl.h:41-121 | Printing and parsing restores secure flag, host, port, path and query, if and only if the host is free of `/`, `@`, `:` and NUL, the path starts with `/` and shows no `?`, and the query is empty or starts with `?` behind a path without NUL |
| `Urls.RoundTrip` | trunk/talk/base/httpcommon-inl.h:41-121 | In particular for every plain host, every 16-bit port, every rooted path without `?` and every query that is empty or starts with `?` |
| `Urls.ReparseExactly` | trunk/talk/base/httpcommon-inl.h:41-121 | Parsing, printing and parsing again changes nothing, for every text without NUL, if and only if its address has no second `@` before the next colon |
| `Urls.ReparseDiffers` | trunk/talk/base/httpcommon-inl.h:63-67 | It changes every text of the form `http://user@host@rest` |
| `Urls.AddressRoundTrip` | trunk/talk/base/httpcommon-inl.h:62-115 | A plain host and its port come back from their own text |
| `Urls.HostAndPortAlone` | trunk/talk/base/httpcommon-inl.h:68-73 | The number of the port, read past the end of the address, stops at the path: host and port are those of the address alone |
| `Urls.StrtoulReadsDecimal` | trunk/talk/base/httpcommon-inl.h:109-113 | A printed number is read back whatever follows it, short of another digit |
| `Urls.PortWraps` | trunk/talk/base/httpcommon-inl.h:68-73 | A port number too large for 16 bits is taken modulo 65536 |
| `Urls.SchemeInAnyCase` | trunk/talk/base/httpcommon-inl.h:41-51 | The protocol is recognised in any case, letter by letter; any other text clears the Url |
| `Urls.PortPrinted` | trunk/talk/base/httpcommon-inl.h:97-115 | The port is printed if and only if it is not 80, or 443 for a secure Url |
| `Urls.NoLeadingZero` | trunk/talk/base/httpcommon-inl.h:109-113 | A printed port has no leading zero |
| `Urls.ParsedHost` | trunk/talk/base/httpcommon-inl.h:62-78 | No parsed host shows a slash or a colon |
| `Urls.StrChrN` | trunk/talk/base/stringutils.h:175-183 | The first such character, unless a NUL comes before it |
| `Urls.CopyByText` | trunk/talk/base/httpcommon-inl.h:41-121 | Setting one Url from the text of another makes them equal exactly when the other can be printed |
| `Urls.Url.FromText` | trunk/talk/base/httpcommon.h:215 | A Url parsed from a text |
| `Urls.Url.FromParts` | trunk/talk/base/httpcommon.h:216-218 | A Url from a path with query, a host and a port; secure exactly on port 443 |
| `Urls.Url.Clear` | trunk/talk/base/httpcommon.h:220-227 | The empty host, port 80, the root path, no query; the Url is not valid |
| `Urls.Url.SetUrl` | trunk/talk/base/httpcommon-inl.h:41-59 | Moving over the text sets what the parse specification says, and clears on any other protocol |
| `Urls.Url.SetAddress` | trunk/talk/base/httpcommon-inl.h:62-78 | Skips a user name, and sets the host and the port written or that of the protocol |
| `Urls.Url.SetFullPath` | trunk/talk/base/httpcommon-inl.h:81-95 | Sets path and query, the root path for an empty one |
| `Urls.Url.AppendUrl` | trunk/talk/base/httpcommon-inl.h:98-121 | Appends the printed Url |

## Left out

- The queue on a 64-bit `size_t`: the only atomic operations in `atomicops.h` are for 32-bit ARM, so the counters are 32 bits wide here.
- Memory orders weaker than sequential consistency, and `ClearAndResizeUnsafe`, which may not run beside anything else.
- TcpFraming.AsyncTcpSocket.Send: does not model packets of 65536 to 65538 bytes, because they violate the assertion at `asynctcpsocket.cc:184`; larger ones are modelled as the error they are.
- TcpFraming.RunSession: does not model sessions that send such packets, for the same reason.
- `SendRaw`, which is for subclasses, the listening socket, and the connect and close signals, which only pass on.
- A network that loses or reorders bytes: the sockets underneath are those of TCP.
- `GetNextBase64Char` and `IsBase64Encoded`, a step through the table and a loop over one test.
- The first use of the CRC table by several threads at once. Words are lists of bits, least significant first.
- `ByteBuffer` overflow of `size_t` and of the version counter, and the constructor that takes a C string, whose `strlen` happens outside.
- `DiskCache` victims in order of age: the scan at `diskcache.cc:253` does not find the oldest entry and may compare with the end of the map, so the victim is arbitrary here. Also entries found on disk by `InitializeEntries`, file names, `HasResource` and `HasResourceStream`.
- `DiskCache` operations on an id that is not in the map, where `WriteResource`, `UnlockResource` and `ReadResource` use a null pointer; they require the id.
- DiskCaches.DiskCache.LockResource: when eviction on the way takes the very entry being locked the program writes to freed memory (`LockCanDangle`); the model reports `Dangling` and does not say what the program does then.
- The WIN32 `Event`, which only calls the system, the conversion of the time limit in `Wait`, and errors of the mutex itself; a wait without limit is taken to wake without an error.
- Events.Event.Wait: other threads run where the thread waits for the mutex or sleeps; that they also run while it holds the mutex, where they change nothing it looks at, is in the state machine only.
- Liveness of `Event` under a fair scheduler: `NoLostWakeup` says that a waiter can finish, not that it is scheduled.
- Rounding of doubles in `BandwidthSmoother`, the conversion of a scaled negative estimate below the range of `int`, a window of no samples, where the program divides by zero, and the variance and the weighted mean of the accumulator.
- The wide-character `Url`, `get_attribute`, and the encoders and decoders it only declares. `strtoul` is taken with a 64-bit `unsigned long`, and letters outside ASCII have no case.
- `HttpBase`, `HttpParser`, `HttpClient`, `flags.cc`, the firewall scan and the rest of the directory, which would add glue or easy members only.
