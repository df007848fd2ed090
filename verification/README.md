# TrivialRPC: a verified model

A Dafny model of the vertical slice of TrivialRPC that carries a remote call, and of its two
concurrent helpers, with proofs of what they promise.

| files | what they model |
|---|---|
| `Bytes`, `Chunks`, `IoVecs` | byte strings, chunked memory seen as flat memory, scatter/gather lists |
| `Bits`, `Words`, `Varint`, `Wire` | bit operators, machine words with wrap-around, `byte_swap`, ZigZag, unsigned LEB128 (section 7.6 of the DWARF Version 5 standard), fixed words and strings |
| `ByteArray` | the chunk list on the heap, with its cached node pointer, as a flat byte string with a cursor |
| `Codec`, `CodecLaws`, `Layout`, `Sorted`, `Serializer` | the type-directed format as functions on bytes, what becomes of cut encodings and which values share one, its bytes spelled out, the order of the sorted containers, and the stream operators that implement it on the chunk list |
| `Protocol`, `RPCSession`, `FrameStream` | frames, their transfer over a transport that moves any number of bytes or fails, lists of frames |
| `ResponseTasks`, `ServerStream` | the response tasks of the server and their write lock, as interleaved steps, and what a client finds in what they send |
| `Rpc`, `RPCServer` | the call pipeline as functions on bytes with the end-to-end laws, and client and server as they run |
| `Buffer`, `LoggerSteps`, `AsyncLogger` | the double-buffered logger: its steps on texts, and the same steps on heap buffers owned by unique pointers |
| `PoolSteps`, `ThreadPool` | queue, condition variable and worker threads as interleaved steps, and the objects that take them |
| `LogStream`, `TcpClient` | decimal formatting of integers; the partial-send queue |

A read of the buffer has three outcomes: a value, `std::out_of_range` (or a failed allocation) thrown
to the caller, or the dereference of the null chunk pointer. The transport is an oracle: each call
moves some number of bytes or fails, and a `reliable` one always moves some. Concurrent programs are
lists of steps in any order; what one step does is atomic in the source because it happens under one
lock, or touches one variable.

Where the code does something other than its comments or names say, the model follows the code:

* A zero-length read at full capacity dereferences a null pointer before it looks at the length, so
  the empty string at the end of a full last chunk cannot be read (`Serializers.CrashExample`); the
  exact condition runs through `Codec.RoundTripExactly`, `CodecLaws.TruncatedFails`,
  `Rpc.RegisteredMethod` and `Protocols.FrameRoundTrip`.
* The positional `read` starts in the chunk of the cursor (`ByteArrays.ByteArray.StartsAtPosition`),
  and the positional `getReadBuffers` clamps by what is readable from the cursor.
* Enumerators wider than 32 bits are cut (`Codec.EnumFitsExactly`), so different values can share an
  encoding (`CodecLaws.EnumCollision`); a frame tells the length of its content modulo 2^32, and the
  other side reads that much of it (`Protocols.FrameArrives`); the lengths of
  `writeStringF16`/`F32` are cut to their field (`Wire.StringFixedRoundTrip`); the one-byte `byte_swap`
  leaves only the sign of a byte (`Words.ByteSwapOfByte`).
* `Serializer(const std::string&)` passes the size of the string on as an `int` and then as a `size_t`, so
  from 2^31 bytes on it throws or holds a part (`Wire.RowDataExactly`). Server, proxy and client all build one
  outside their `try` (`Rpc.LongArgument`, `Rpc.LongResult`).
* An exception while the method name is read leaves `publish_client_msg`, whose `try` covers only the decoding.
* `terminate` may lose the tail of the log (`LoggerSteps.TailLost`), and a pool built with no threads
  loses its tasks (`PoolSteps.NoThreadsNoRun`).

## Model

| member | source | states |
|---|---|---|
| Codec.RoundTripExactly | include/rpc/Serializer.h:66-315 | For every nested type, value, following bytes and endianness: deserialising what was serialised returns the value with the cursor exactly behind its encoding if and only if every enumerator survives 32 bits and the read does not end with an empty string at the very end of the last chunk; and the null chunk pointer is dereferenced in exactly the latter case. |
| Codec.Consumes | include/rpc/Serializer.h:66-315 | For every value, damaged enumerators included: reading its encoding consumes exactly it, whatever follows, and gives the value narrowed, that is with its enumerators cut to 32 bits and its containers built again from what is left; or it hits the null chunk pointer at the very end. |
| Codec.NarrowedExactly | include/rpc/Serializer.h:94-136 | Nothing is lost by that if and only if every enumerator survives 32 bits. |
| Codec.Local | include/rpc/Serializer.h:66-315 | A successful read gives the same value and consumption on every extension of its input (excepted is only the same input in a buffer that is now full to its end). |
| CodecLaws.TruncatedFails | include/rpc/Serializer.h:66-315 | Every strict prefix of an encoding fails to read, and how is exact: it hits the null chunk pointer if and only if it fills its last chunk and the cut falls right behind an empty text just read in full; otherwise it throws. |
| CodecLaws.StopExample | src/base/ByteArray.cpp:119-120 | A tuple of 4097 encoded bytes whose first 4096 hit the null chunk pointer. |
| CodecLaws.PrefixFree | include/rpc/Serializer.h:103-315 | For all values of a type: one encoding is a prefix of another if and only if the two are equal, which is if and only if the values differ at most in the upper halves of their 64-bit enumerators. |
| CodecLaws.SharedEncoding | include/rpc/Serializer.h:94-136 | Values that share an encoding come back as the same value, so two values whose enumerators fit never share one. |
| CodecLaws.EnumCollision | include/rpc/Serializer.h:135-136 | The 64-bit enumerators 0 and 2^32 share one. |
| CodecLaws.SameShape | include/rpc/Serializer.h:66-315 | Types that differ only in signs, in `bool` for a byte, in enumerations for 32-bit integers and in sets for lists read any bytes alike: both succeed, throw or crash, at the same place. |
| Codec.FaultsOnlyAtTheEnd | src/base/ByteArray.cpp:114-120 | On any bytes at all, a typed read reaches the null chunk pointer only with nothing left to read and the data filling its last chunk. |
| Codec.DecodedFits | include/rpc/Serializer.h:94-95 | Every enumerator that a read produces, from any bytes, is one that survives writing and reading. |
| Codec.ConsumesAll | include/rpc/Serializer.h:179-230 | The element loop reading into a container that already holds elements adds what is left of the written ones, one by one. |
| Codec.ScalarRoundTrip | include/rpc/Serializer.h:66-95 | Each scalar comes back unchanged, an enumerator as the sign-extension of its low 32 bits; no scalar takes zero bytes. |
| Codec.EnumFitsExactly | include/rpc/Serializer.h:135-136 | An enumerator survives the conversion to `int32_t` if and only if its type has at most 32 bits or its low 32 bits, sign-extended, are all of it. |
| Codec.AddInOrder | include/rpc/Serializer.h:214-223 | Emplacing the next element in iteration order puts it last, in sets and maps as in lists, with and without duplicates. |
| Codec.CompareFlips | include/rpc/Serializer.h:214-230 | The three-way order of the C++20 types, on all nested types and with NaNs leaving whatever holds them unordered, answers the opposite when asked the other way round. |
| SortedContainers.SortedRead | include/rpc/Serializer.h:214-315 | Whatever the bytes: a set or map, `multi` or not, reads exactly what a list of its elements would; its keys end in ascending order, strictly unless it is a `multi` one, and of the elements with one key it keeps the first, or as a `multi` one all in the order they came. |
| SortedContainers.SetRead | include/rpc/Serializer.h:214-223 | A set ends strictly ascending and holds exactly the elements that were read. |
| SortedContainers.IntegersRead | include/rpc/Serializer.h:214-223 | In a set of integers, of `bool` or of enumerators the numbers are strictly ascending and exactly those that were read. |
| SortedContainers.MapRead | include/rpc/Serializer.h:297-307 | A map ends with its keys strictly ascending, and holds an entry if and only if it was read and no entry before it had its key. |
| SortedContainers.NumbersAscend | include/rpc/Serializer.h:214-223 | `std::less` on integers is less on numbers. |
| SortedContainers.FloatsAscend | include/rpc/Serializer.h:214-223 | On floating-point numbers it is the IEEE 754 order, by sign bit and magnitude, the two zeros the same and a NaN never less. |
| SortedContainers.TextsAscend | include/rpc/Serializer.h:214-223 | On strings the first byte that differs decides, and a proper prefix comes first. |
| SortedContainers.PairsAscend | include/rpc/Serializer.h:287-296 | On pairs and tuples the first member that differs decides. |
| SortedContainers.SameIsEqual | include/rpc/Serializer.h:214-223 | Without floating-point numbers any two values are comparable, and neither is less only if they are equal. |
| SortedContainers.LessTransitive | include/rpc/Serializer.h:214-223 | And the order is transitive, on all nested types. |
| Layouts.ScalarBytes | include/rpc/Serializer.h:103-136 | The bytes of every scalar on every value: one byte; two, the most significant first; the base-128 groups of 2n or -2n-1 for signed and of n for unsigned 32- and 64-bit integers; floating-point words; an enumerator as its low 32 bits, signed. |
| Layouts.ScalarRead | include/rpc/Serializer.h:66-95 | The value read for every scalar from any bytes, and when it throws. |
| Layouts.EntryExample | include/rpc/Serializer.h:287-291 | A pair of an `int32_t` and a short string: number, length, text. |
| Layouts.ListExample | include/rpc/Serializer.h:189-213 | Two elements of a container: the number 2 and then each in iteration order. |
| Layouts.VectorExample | include/rpc/Serializer.h:207-213 | The `uint16_t` 1 and 258 in a vector are the bytes 2, 0, 1, 1, 2. |
| Layouts.MapExample | include/rpc/Serializer.h:308-315 | A map from `int32_t` to `std::string` with -1 and 64, byte by byte. |
| FrameStreams.FramesInOrder | src/rpc/RPCSession.cpp:108-138 | However much of a stream of frames arrives, the whole frames taken off it are the first ones sent, never shifted or mixed, and what is left is the rest of the stream cut off. |
| FrameStreams.SameFrame | include/rpc/Protocol.h:76-100 | A stream has at most one good frame at its start. |
| FrameStreams.Transfer | src/rpc/RPCSession.cpp:65-143 | Any list of frames, any partial sends and receives, a failure at any point: the list received is a prefix of the list sent, and all of it with no byte left over on a transport that always moves some bytes. |
| FrameStreams.SendAll | src/rpc/RPCSession.cpp:140-143 | The socket has taken a prefix of the stream of frames, all of it as long as the connection holds. |
| FrameStreams.RecvAll | src/rpc/RPCSession.cpp:108-138 | The frames received are at the start of what arrived, and a reliable transport leaves no good frame behind. |
| ResponseTasks.WholeFramesThenOneCut | src/rpc/RPCServer.cpp:97-103 | In every interleaving of any number of response tasks with partial sends, failures and disconnections, the wire carries whole frames, each of a different task, and then at most one truncated frame, which with nobody holding the lock means the connection is given up. |
| ResponseTasks.SilentAfterCut | src/rpc/RPCSession.cpp:93-106 | Once a failed send has left part of a frame on the wire, nothing is ever sent again. |
| ServerStreams.ResponsesInOrder | src/rpc/RPCServer.cpp:97-103 | In every interleaving, the frames that a client finds in however much has arrived are the responses of the tasks in the order in which they sent, from the first one on. |
| ResponseTasks.InvStep | src/rpc/RPCServer.cpp:97-103 | Every step of every task keeps mutual exclusion and the shape of the wire. |
| Rpc.RegisteredMethod | src/rpc/RPCServer.cpp:43-65 | For every handler table and arguments of the parameter types: the client gets code 0 and what is left of the value that the handler returns for what is left of the arguments, if and only if the sizes of both contents are below 2^31 and neither message crashes its reader; with a request below 2^31 bytes it dies in exactly the latter case, and `call` throws exactly if 2^31 bytes or more of the response arrive; if so many of the request arrive there is no answer; and nothing is lost on either way exactly when the enumerators fit. |
| Rpc.UnregisteredMethod | src/rpc/RPCServer.cpp:45-47 | An unregistered name gives code 3 and `Method not find`, whatever the argument bytes, if and only if the whole name arrives and fewer than 2^31 bytes of the content do; otherwise there is no answer. |
| Rpc.UnmatchedArguments | include/rpc/RPCServer.h:76-84 | Argument bytes that arrive and that the parameter types cannot be read from: never success; code 2 and `params not match` if and only if its 19 bytes, but fewer than 2^31, arrive, and `call` throws if and only if so many do; no answer to a request of which 2^31 bytes or more arrive. |
| Rpc.TruncatedArguments | include/rpc/RPCServer.h:76-84 | A request cut at any byte: no answer without its name or with 2^31 bytes or more; the death of the server if and only if the arguments fill a chunk and are cut right behind an empty text; otherwise never success, and the refusal as for unmatched arguments. |
| Rpc.OtherReturnType | include/rpc/RPCClient.h:105-113 | A client that asks for another type than the handler returns gets code 0 and the bytes of the value read at its own type, or `return value not match`, as those bytes have it, for any part of the response that arrives; from a type of the same shape it always gets code 0. |
| Rpc.LongArgument | src/rpc/RPCServer.cpp:56-56 | A text argument of 2^31 + 1 bytes: registered method, agreeing types, and no answer. |
| Rpc.LongResult | include/rpc/RPCClient.h:106-106 | Such a text as the result: `call` throws. |
| Rpc.ThroughBothFrames | include/rpc/RPCClient.h:73-114 | Request and response each pass through a frame, of which the other side reads as much as the length field tells, all of it below 2^32 bytes: the outcome is that of server and client on what arrives. |
| Rpc.RequestArrives | src/rpc/RPCServer.cpp:54-90 | A batch that is one request frame is handled by as much of its content as the length field tells. |
| Rpc.AnyBatch | src/rpc/RPCServer.cpp:67-90 | Any batch, at the level of its bytes: no answer if it is shorter than 11 bytes or than its own length field tells, if byte 0 is not 9 or byte 2 is not 5; else what the handling of its content gives, in a frame of type 6 with the sequence number of the request; and a crash only on an empty content at the end of a full chunk, which an 11-byte batch is not. |
| Rpc.PartialBatch | src/rpc/RPCServer.cpp:73-78 | A frame cut behind any number of bytes is not answered, whatever it is, if its content is below 2^32 bytes; with a longer one it is answered from the byte on at which the length field is satisfied. |
| Rpc.ForeignBatch | src/rpc/RPCServer.cpp:79-89 | A whole frame whose magic is not 9 or whose type is not 5 is not answered, whatever its content, sequence number and version and whatever follows. |
| Rpc.ResultBytes | include/rpc/RPCCommon.h:95-98 | A result is two bytes of code, the length groups and bytes of the message, and the value, which is there whatever the code. |
| Rpc.RefusalBytes | include/rpc/RPCServer.h:79-83 | A refusal starts with the bytes 0, 2, 16 and `params not match`. |
| Rpc.ResponseMessages | include/rpc/RPCClient.h:100-112 | The messages `return value not match` and `Method not find`, byte by byte. |
| Rpc.ConnectionMessages | include/rpc/RPCClient.h:76-90 | The messages `socket closed` and `have not sent data`. |
| Rpc.NoResponseMessage | include/rpc/RPCClient.h:94-98 | The message `The parsed data is empty`. |
| Rpc.RequestExample | include/rpc/RPCClient.h:45-82 | The frame of the call of `add` with the `int32_t` 1 and 2, all 17 bytes. |
| Rpc.CallExample | src/rpc/RPCServer.cpp:54-65 | A server with `add` answers it with the 15 bytes of a response that holds 3, and the client gets code 0 and 3. |
| Rpc.UnknownExample | src/rpc/RPCServer.cpp:43-47 | A name that is not registered is answered with an empty response of 11 bytes, and the client gets code 3. |
| Rpc.AnswerArrives | src/rpc/RPCSession.cpp:108-138 | And the client reads as much of the response. |
| Rpc.ServedUnderstood | include/rpc/RPCCommon.h:80-98 | From what arrives of the response to a served call the client gets the value, narrowed, if and only if the response is below 2^31 bytes and does not end with an empty string where it fills a chunk; it dies exactly in that case or where the response is cut behind such a string, and throws exactly if 2^31 bytes or more arrive. |
| Rpc.RefusedUnderstood | include/rpc/RPCCommon.h:80-98 | The value that is written behind a failure code is never read; the refusal is seen if and only if its code and message arrive in fewer than 2^31 bytes, and more make the client throw. |
| Rpc.ArgumentsServed | include/rpc/RPCServer.h:69-103 | Arguments of the parameter types, all of them: below 2^31 bytes the handler gets them narrowed, which is unchanged if and only if the enumerators fit, and the answer has code 0, or the server dies, by the chunk condition; longer ones throw, or are treated as the part of them that is held. |
| Rpc.ArgumentsCut | include/rpc/RPCServer.h:69-84 | A proper prefix of their bytes is refused, or kills the server, by the exact cut condition, on as much of it as the serializer holds; or throws. |
| Rpc.ResultHead | include/rpc/RPCCommon.h:80-98 | Code and message of a result come back, the value is read behind them if and only if the code is 0. |
| Rpc.CutReply | include/rpc/RPCCommon.h:80-86 | A proper prefix of a successful result never reads as a result; whether it throws or crashes is exact. |
| LoggerSteps.NothingLost | src/base/AsyncLogger.cpp:37-97 | In every interleaving of appenders and the worker no assertion fails, no null pointer is followed, and file, exchanged buffers, dirty buffers and current buffer concatenate to all texts appended (those longer than a buffer are dropped). |
| LoggerSteps.FileIsPrefix | src/base/AsyncLogger.cpp:53-99 | The file is a prefix of the log at every moment of every run. |
| LoggerSteps.RoundWritesTheLog | src/base/AsyncLogger.cpp:66-97 | When a round has written its buffers the file holds exactly what had been appended before its exchange, whatever was appended or stopped meanwhile. |
| LoggerSteps.ExchangeDivides | src/base/AsyncLogger.cpp:66-71 | At every moment of every run the last exchange divides the log: what was appended before it is in the file or being written, what was appended since is not. |
| LoggerSteps.CompleteAtReturn | src/base/AsyncLogger.cpp:106-115 | When the worker has returned, the file is what was appended before its last exchange; it is the whole log if and only if nothing was appended after that exchange. |
| LoggerSteps.TailLost | src/base/AsyncLogger.cpp:106-115 | The whole log need not be there: a run in which `terminate` loses a text. |
| LoggerSteps.JoinEnds | src/base/AsyncLogger.cpp:106-115 | After `terminate` the worker makes exactly a number of steps fixed by its state if it is past its last exchange or left alone, and otherwise at most one more, and one for each `append` meanwhile; it exchanges at most once; it can always go on until it has returned, which is exactly when no step is left. |
| LoggerSteps.StepKeeps | src/base/AsyncLogger.cpp:37-97 | Each step keeps the recycling invariant: a current buffer, empty reserves, a reserve given away leaves a buffer in a list, two spares at the head of a round. |
| LoggerSteps.AppendFills | src/base/AsyncLogger.cpp:37-51 | A text stays in the current buffer if and only if that leaves a byte of the 2048 free; else the buffer becomes dirty and the text starts the next one, or is lost if longer than 2048. |
| LoggerSteps.WorkerMoves | src/base/AsyncLogger.cpp:53-97 | The worker waits exactly for an empty current buffer; an exchange leaves an empty current and an empty next buffer and takes all others in order; a round ends with two empty spares and an empty list. |
| PoolSteps.AllTasksRun | include/base/ThreadPool.hpp:28-36 | With at least one thread, when all threads have returned every task ever submitted, also by tasks after the stop, has been run exactly once, dequeued in push order, and the queue is empty. |
| PoolSteps.NoThreadsNoRun | include/base/ThreadPool.hpp:28-38 | With no thread it fails: the join returns and a submitted task is left. |
| PoolSteps.NoLostWakeup | include/base/ThreadSafeQueue.hpp:41-65 | While a worker sleeps the queue is no longer than the number of awake workers testing it, between the stop and `notify_all` too; so queued work always has a worker that is not asleep. |
| PoolSteps.FirstInFirstOut | include/base/ThreadSafeQueue.hpp:41-65 | At any moment the dequeued tasks are the first ones pushed, and each has returned once or is being run once. |
| PoolSteps.JoinEnds | include/base/ThreadPool.hpp:70-77 | After `notify_all` the pool makes exactly a number of steps fixed by its state, three more for each task a task submits; it is stuck exactly when all threads have returned. |
| PoolSteps.InvStep | include/base/ThreadSafeQueue.hpp:41-97 | Every push, pop, sleep, wakeup, spurious wakeup, stop and broadcast keeps the accounting and wakeup invariants. |
| PoolSteps.StepMoves | include/base/ThreadSafeQueue.hpp:41-97 | Which workers a step moves and where to: a push wakes at most the one sleeper, a test sleeps, exits or takes the first task, and only `notify_all` wakes all. |
| LogStreams.TextUnique | src/base/LogStream.cpp:28-41 | A text is a numeral (digits without leading zero, a minus sign unless it is 0) if and only if it is the text written for the value it reads as. |
| LogStreams.TextReads | src/base/LogStream.cpp:28-41 | The decimal reading of the text is the value; it starts with a minus sign exactly for negative values. |
| LogStreams.TextLength | src/base/LogStream.cpp:28-41 | At most 20 characters for any signed or unsigned integer of up to 64 bits, minimum included. |
| LogStreams.TextAt | src/base/LogStream.cpp:28-41 | Every character: digit i from the end is the quotient of the magnitude by 10^i modulo 10, and the character 45 stands before the digits of a negative value. |
| ByteArrays.ByteArray.constructor | src/base/ByteArray.cpp:26-33 | One chunk, cursor and data at 0. |
| ByteArrays.ByteArray.CachedPointer | src/base/ByteArray.cpp:55-61 | In every valid state the capacity is chunk size times chunks and the cached pointer is the chunk of the cursor, null exactly at full capacity. |
| ByteArrays.ByteArray.Write | src/base/ByteArray.cpp:55-84 | Replaces exactly the bytes from the cursor on, keeps all others, moves the cursor behind them, and grows by no more chunks than needed, for every chunk size and position. |
| ByteArrays.ByteArray.AddCapacity | src/base/ByteArray.cpp:86-112 | Room for the bytes asked for, less than one chunk to spare if it grew, all memory kept, the cached pointer right again. |
| ByteArrays.ByteArray.Read | src/base/ByteArray.cpp:114-141 | Throws exactly when too few bytes are readable, follows the null chunk pointer exactly for a zero-length read at full capacity, and otherwise returns the next bytes and moves behind them. |
| ByteArrays.ByteArray.ReadAt | src/base/ByteArray.cpp:142-169 | What the positional read really returns, also behind the data, where its length test wraps around: bytes starting at the argument's offset in the chunk of the cursor, and a crash where that runs off the list. |
| ByteArrays.ByteArray.StartsAtPosition | src/base/ByteArray.cpp:146-149 | That is the position asked for if and only if it lies in the chunk of the cursor. |
| ByteArrays.ByteArray.SetPosition | src/base/ByteArray.cpp:171-187 | Throws exactly beyond the capacity; else moves the cursor, extends the data to it, and re-finds its chunk. |
| ByteArrays.ByteArray.Clear | src/base/ByteArray.cpp:397-408 | One chunk, no data, cursor at 0, first chunk's memory kept. |
| ByteArrays.ByteArray.ToString | src/base/ByteArray.cpp:461-469 | Exactly the unread bytes, although it goes through the positional read. |
| ByteArrays.ByteArray.TightWhenFull | src/base/ByteArray.cpp:86-112 | A buffer that never grew more than needed has its data end at the end of a chunk exactly when the data is a positive multiple of the chunk size. |
| ByteArrays.WrittenMore | src/base/ByteArray.cpp:55-84 | Two writes one after the other are one write of the concatenation, growth included. |
| ByteArrays.ByteArray.GetReadBuffers | src/base/ByteArray.cpp:486-516 | Disjoint in-bounds segments that spell exactly the next min(len, readable) bytes. |
| ByteArrays.ByteArray.GetReadBuffersAt | src/base/ByteArray.cpp:518-553 | The positional form clamps by what is readable from the cursor: that is what its position promises if and only if it is the cursor's or both leave room for the length; it follows a null pointer exactly if the window leaves the chunks, and otherwise spells the window. |
| ByteArrays.ByteArray.GetWriteBuffers | src/base/ByteArray.cpp:555-583 | Disjoint segments inside chunks covering exactly the window from the cursor on; position, size and contents unchanged. |
| ByteArrays.ByteArray.Gather | src/base/ByteArray.cpp:500-514 | The segment loop yields the chunk-wise cut of its window, or follows the null pointer exactly if the window leaves the chunks. |
| ByteArrays.ByteArray.SegmentsSpell | src/base/ByteArray.cpp:500-514 | That cut, read in order, is the window of the flat memory. |
| ByteArrays.ByteArray.FilledIsSplice | src/base/ByteArray.cpp:566-581 | Filling the segments in order with any shorter data is one overwrite of flat memory at the cursor. |
| ByteArrays.ByteArray.Absorb | src/rpc/RPCSession.cpp:25-29 | After the kernel has filled the start of the segments the buffer is valid again and holds exactly that overwrite, as after `write`. |
| ByteArrays.ByteArray.WriteFint | include/base/ByteArray.h:43-48 | Swap then copy of host memory puts the word's bytes in stream order, big-endian by default; of a swapped byte, signed, unsigned or `bool`, it writes what the one-byte swap leaves. |
| ByteArrays.ByteArray.ReadFint | src/base/ByteArray.cpp:299-318 | Reads exactly that word, or throws when bytes are missing. |
| ByteArrays.ByteArray.WriteVarint | src/base/ByteArray.cpp:236-256 | Writes exactly the base-128 groups of the word, through a scratch array of 5 or 10 bytes that is never overrun. |
| ByteArrays.ByteArray.VarintScratch | src/base/ByteArray.cpp:236-256 | The loop, with mask, marker bit and shift as bit operators, fills the scratch array with the groups, in bounds. |
| ByteArrays.ByteArray.ReadVarint | src/base/ByteArray.cpp:324-350 | The loop that shifts each group and merges it with a bitwise or, on words that cut what is shifted out, returns and consumes what the format says on any input. |
| ByteArrays.ByteArray.WriteZigzag | src/base/ByteArray.cpp:227-233 | The base-128 groups of the ZigZag word. |
| ByteArrays.ByteArray.ReadZigzag | src/base/ByteArray.cpp:321-352 | The inverse, or a throw where the groups end early. |
| ByteArrays.ByteArray.WriteStringVint | src/base/ByteArray.cpp:281-284 | Length groups and bytes as one write. |
| ByteArrays.ByteArray.ReadStringVint | src/base/ByteArray.cpp:390-396 | The string, a throw for too few bytes, or the crash of an empty string at full capacity. |
| ByteArrays.ByteArray.WriteStringFixed | src/base/ByteArray.cpp:269-280 | The length cut to its field, then all the bytes. |
| ByteArrays.ByteArray.ReadStringFixed | src/base/ByteArray.cpp:368-389 | Reads by the length in the field, with the same three outcomes. |
| Varint.EncodedSize | src/base/ByteArray.cpp:236-256 | At most k bytes if and only if the value is below 128^k. |
| Varint.GroupAt | src/base/ByteArray.cpp:236-256 | Byte i of a varint is the quotient by 128^i modulo 128, with 128 added on all bytes but the last. |
| Varint.WordFitsScratch | src/base/ByteArray.cpp:237-244 | Every 32-bit word takes 1 to 5 bytes, every 64-bit word 1 to 10. |
| Varint.RoundTrip | src/base/ByteArray.cpp:236-256 | The reader run on a written word followed by anything returns the word and consumes exactly its bytes. |
| Varint.AnyInput | src/base/ByteArray.cpp:324-350 | On any input that suffices it consumes 1 to 5 or 10 bytes, stops at the first byte below 0x80, returns the weighted sum of the groups modulo the word, and writing that back never takes more bytes. |
| Varint.GroupSumMore | src/base/ByteArray.cpp:324-350 | Each group read counts by its power of 128, without its top bit. |
| Varint.GroupsThrow | src/base/ByteArray.cpp:324-350 | It throws exactly when the input ends before its group sequence does. |
| Varint.Local | src/base/ByteArray.cpp:324-350 | More bytes behind do not change what is read. |
| Varint.SignedSize | src/base/ByteArray.cpp:206-256 | A signed word takes at most k bytes if and only if -2^(7k-1) <= v < 2^(7k-1). |
| Varint.GroupMerged | src/base/ByteArray.cpp:325-334 | At each turn the groups read lie below the lowest bit of the next one, so merging it, cut to the word, adds it. |
| Bits.GroupByte | src/base/ByteArray.cpp:240-241 | Mask, marker bit and shift are remainder, addition and quotient, on words of any size. |
| Bits.OrDisjoint | src/base/ByteArray.cpp:329-332 | Merging a number with a multiple of a power of two above it is adding. |
| Bits.XorIsChoice | src/base/ByteArray.cpp:222-225 | The exclusive or with 0 keeps a word and with all ones complements it. |
| Words.DecodeZigzagValue | src/base/ByteArray.cpp:222-225 | Shift, low bit, wrapped negation and exclusive or decode u to u/2 or -1-u/2. |
| Words.ZigzagBijection | src/base/ByteArray.cpp:206-225 | Encode and decode are mutually inverse between all signed and all unsigned words, wrap-around of negation and doubling included. |
| Words.EncodeZigzagValue | src/base/ByteArray.cpp:206-220 | The wrapped computation is -2v-1 or 2v, the minimum included. |
| Words.ByteSwapInvolution | include/base/util.h:31-42 | Swapping twice is the identity if and only if the width is not 1 or the byte is its own sign: 0, 0xFF of a signed type, or a `bool`. |
| Words.ByteSwapOfByte | include/base/util.h:33-34 | A byte is widened with its sign, swapped as 16 bits and narrowed: what comes of it is 0, or 0xFF for a negative one, and a `bool` stays. |
| Words.ByteSwapIsBigEndian | include/base/util.h:31-42 | For widths 2, 4 and 8 the host bytes of the swapped word are the big-endian bytes of the word. |
| Words.LittleEndianAt | include/base/util.h:31-42 | Byte i of a word from the least significant end is the quotient by 256^i modulo 256. |
| Words.BigEndianAt | include/base/util.h:31-42 | And from the most significant end. |
| Wire.FixedRoundTrip | src/base/ByteArray.cpp:299-306 | A fixed-width word comes back if and only if it is not a swapped byte that differs from its sign. |
| Wire.FixedBytes | include/base/ByteArray.h:43-48 | Each byte of a fixed word of two, four or eight bytes, by the powers of 256: most significant first, in a little-endian stream last. |
| Wire.FixedRead | src/base/ByteArray.cpp:299-318 | What is read is the one word of its width that has these bytes, in that order; fewer bytes throw. |
| Wire.StringRoundTrip | src/base/ByteArray.cpp:390-396 | A length-prefixed string comes back whatever follows, except an empty one that ends the data at full capacity, which crashes. |
| Wire.StringFixedRoundTrip | src/base/ByteArray.cpp:269-280 | With a fixed-width length it comes back if and only if its length fits the field and it is not that empty one. |
| Wire.RowDataExactly | include/rpc/Serializer.h:25-54 | All of a string is held if and only if its size is below 2^31; of a longer one the size modulo 2^32, and if that is 2^31 or more building the serializer throws. |
| Chunks.FlatSplice | src/base/ByteArray.cpp:65-75 | Overwriting inside one chunk is overwriting the flat memory at the chunk's offset. |
| Chunks.RoundUp | src/base/ByteArray.cpp:94-95 | The number of chunks added is the exact ceiling. |
| Serializers.Serializer.Write | include/rpc/Serializer.h:103-142 | The dispatch writes exactly the encoding of the value, at the cursor of the chunked buffer. |
| Serializers.Serializer.Read | include/rpc/Serializer.h:66-101 | On any bytes the dispatch returns what the format says and leaves the cursor there, or throws or crashes as it says. |
| Serializers.Serializer.WriteAll | include/rpc/Serializer.h:189-195 | The element loop writes the elements' encodings one after the other. |
| Serializers.Serializer.ReadAll | include/rpc/Serializer.h:196-223 | The element loop adds the elements to the target as the format says. |
| Serializers.FromBytes | include/rpc/Serializer.h:25-29 | A serializer built from a string holds, unread, as many of its bytes as its size tells when converted to `int`, and throws if that is negative. |
| Serializers.Serializer.WriteRowData | include/rpc/Serializer.h:54-54 | As many bytes as the `int` tells; a negative one throws. |
| Serializers.WriteThenRead | include/rpc/Serializer.h:66-315 | Serialise, reset, deserialise on a buffer of any chunk size: the value narrowed, which is the value if and only if its enumerators fit, unless the encoding fills its last chunk and ends with an empty string, which crashes. |
| Serializers.CrashExample | src/base/ByteArray.cpp:119-120 | Two strings of 4096 encoded bytes, the second one empty, that crash on reading. |
| Protocols.FrameRoundTrip | include/rpc/Protocol.h:76-100 | A frame comes back with the following bytes unread if and only if its content is shorter than 2^32 bytes and it is not an empty frame at full capacity. |
| Protocols.FrameArrives | include/rpc/Protocol.h:76-100 | Whatever its length, a frame is read with as much content as its length field tells, and the rest stays unread. |
| Protocols.HeaderBytes | include/rpc/Protocol.h:65-75 | The eleven bytes: magic, version and type, then sequence number and content length modulo 2^32 as four bytes each, most significant first. |
| Protocols.PartialHeader | include/rpc/Protocol.h:86-92 | The fields that a header cut behind any byte still assigns, all others kept. |
| Protocols.FrameOfAnyBytes | include/rpc/Protocol.h:93-100 | Any bytes read as a frame: the length in bytes 7 to 10 decides between a throw, the crash, and the fields and content byte by byte. |
| Protocols.ParseMetaOf | include/rpc/Protocol.h:65-92 | The header read back tells the content length modulo 2^32. |
| Protocols.MetaOfAnyBytes | include/rpc/Protocol.h:86-92 | Any eleven bytes are exactly one header. |
| Protocols.Protocol.Encode | include/rpc/Protocol.h:76-85 | The buffer holds exactly the frame, unread. |
| Protocols.Protocol.EncodeMeta | include/rpc/Protocol.h:65-75 | The buffer holds exactly the header, with the length of the content. |
| Protocols.Protocol.Decode | include/rpc/Protocol.h:93-100 | On any bytes: the frame parsed and the cursor behind it, or the failure of the parse with exactly the fields assigned that were read before it. |
| Protocols.Protocol.DecodeMeta | include/rpc/Protocol.h:86-92 | On any bytes: the header fields and the length, content kept, or a throw with exactly the fields assigned that were read before it. |
| Protocols.Protocol.Create | include/rpc/Protocol.h:51-58 | A frame with magic 9 and version 1. |
| Sessions.Client.Send | src/net/Client.cpp:122-127 | The transport takes some prefix of the bytes, or fails; nothing when disconnected. |
| Sessions.Client.RecvV | src/net/Client.cpp:111-120 | The kernel fills the segments in order with the next bytes of the stream. |
| Sessions.RPCSession.ReadBuffer | src/rpc/RPCSession.cpp:21-31 | Receiving straight into the chunks moves the received bytes from the stream to the cursor, changes nothing else, and never loses a byte. |
| Sessions.RPCSession.WriteBuffer | src/rpc/RPCSession.cpp:38-48 | Sending straight from the chunks sends a prefix of the unread bytes and moves behind exactly it. |
| Sessions.RPCSession.ReadFixSizeBuffer | src/rpc/RPCSession.cpp:65-76 | All bytes asked for, or the connection is given up with the received prefix in the buffer. |
| Sessions.RPCSession.WriteFixSizeBuffer | src/rpc/RPCSession.cpp:93-106 | All bytes, or the connection is given up with a prefix sent. |
| Sessions.RPCSession.ReadFixSize | src/rpc/RPCSession.cpp:50-63 | The same into a plain buffer. |
| Sessions.RPCSession.WriteFixSize | src/rpc/RPCSession.cpp:78-91 | The same from a plain buffer. |
| Sessions.RPCSession.SendProtocol | src/rpc/RPCSession.cpp:140-143 | A prefix of the frame is sent; it is all of it exactly when the result is positive, and otherwise the connection is given up. |
| Sessions.RPCSession.RecvProtocol | src/rpc/RPCSession.cpp:108-138 | A frame returned is exactly the one at the start of the stream; nothing is returned only on a lost connection or after a header of bad magic; a reliable transport never misses a good frame. |
| Sessions.ReceivedExactly | src/rpc/RPCSession.cpp:108-138 | What the header of a stream tells to be its first frame is that frame if and only if the stream starts with it whole and it is good. |
| RpcPeers.WriteResult | include/rpc/RPCCommon.h:95-98 | Code, message and value, the value whatever the code. |
| RpcPeers.ReadResult | include/rpc/RPCCommon.h:80-86 | Code and message, and the value only if the code is 0. |
| RpcPeers.RPCServer.RegisterMethod | include/rpc/RPCServer.h:45-52 | A later registration of a name replaces the earlier one; all handlers stay valid. |
| RpcPeers.RPCServer.Proxy | include/rpc/RPCServer.h:69-103 | The answer appears in the caller's buffer, although the serializer is passed by value; argument bytes of a size that is negative as an `int` throw. |
| RpcPeers.RPCServer.Call | src/rpc/RPCServer.cpp:43-52 | The returned serializer holds exactly the answer, unread; nothing for an unregistered name; what throws or crashes in the proxy does so here. |
| RpcPeers.RPCServer.HandleMethodCall | src/rpc/RPCServer.cpp:54-65 | The response frame with the answer and the request's sequence number; an unreadable name, or a content of a size that is negative as an `int`, throws. |
| RpcPeers.RPCServer.PublishClientMsg | src/rpc/RPCServer.cpp:67-97 | The response that a task is submitted for, on any delivered batch: none for bytes that are no frame, which is not an exception, for another magic or type, or for a client that is gone. |
| RpcPeers.RPCClient.SendRequest | include/rpc/RPCClient.h:73-90 | Code 4 without sending on a closed client, code 1 if the request cannot be sent, or the whole request frame on the wire. |
| RpcPeers.RPCClient.AwaitResponse | include/rpc/RPCClient.h:92-114 | The outcome, exception included, is that of the one frame taken off the stream, or code 1; on a reliable transport it is exactly that of what has arrived. |
| RpcPeers.RPCClient.Conclude | include/rpc/RPCClient.h:100-113 | A non-empty content read back: a throw for a size that is negative as an `int`, code 2 and `return value not match` for unreadable bytes, else the result they hold. |
| RpcPeers.RPCClient.Call | include/rpc/RPCClient.h:45-114 | Exactly the three failure results, or the request sent whole and the answer concluded from one frame. |
| RpcPeers.Deliver | src/net/Client.cpp:50-86 | What arrived is in a fresh buffer, unread. |
| RpcPeers.Exchange | include/rpc/RPCClient.h:45-114 | Client, both frames, server and client on the heap, over any transports: the outcome is the end-to-end one of which the laws speak or one of the two failure results, and the former on reliable transports. |
| AsyncLoggers.AsyncLogger.Append | src/base/AsyncLogger.cpp:37-51 | On the heap, with unique pointers and fixed arrays, does to the texts what the step says, whatever else has happened before. |
| AsyncLoggers.AsyncLogger.Swap | src/base/AsyncLogger.cpp:66-71 | The moves and the vector swap, statement by statement, are the exchange; no pointer is duplicated or lost. |
| AsyncLoggers.AsyncLogger.WriteNext | src/base/AsyncLogger.cpp:74-79 | One buffer's text is added to the file. |
| AsyncLoggers.AsyncLogger.Recycle | src/base/AsyncLogger.cpp:81-96 | The asserts hold; the spares are taken from the list and emptied without touching a held buffer. |
| AsyncLoggers.AsyncLogger.Enter | src/base/AsyncLogger.cpp:60-72 | Waits exactly if the current buffer is empty, else exchanges. |
| AsyncLoggers.AsyncLogger.Start | src/base/AsyncLogger.cpp:101-105 | A worker with two fresh spares that share nothing with the other buffers. |
| AsyncLoggers.AsyncLogger.Test | src/base/AsyncLogger.cpp:57-57 | Goes on or returns, and then frees its locals. |
| AsyncLoggers.AsyncLogger.BuffersApart | src/base/AsyncLogger.cpp:42-45 | In every valid state no buffer is held by two pointers and no two buffers share memory. |
| AsyncLoggers.Interleave | src/base/AsyncLogger.cpp:37-99 | Any interleaving of the steps on the heap object follows the step functions, its file is a prefix of the log, and all live buffers are pairwise distinct and apart. |
| Buffers.Buffer.Append | include/base/Buffer.hpp:17-22 | All of the text or none of it, and which, by the room left. |
| Buffers.Buffer.Clear | include/base/Buffer.hpp:25-28 | Empty again. |
| ThreadPools.ThreadSafeQueue.Push | include/base/ThreadSafeQueue.hpp:41-45 | The value becomes the last one. |
| ThreadPools.ThreadSafeQueue.Poll | include/base/ThreadSafeQueue.hpp:52-65 | Blocks exactly with nothing and no stop, gives up exactly with nothing and a stop, else removes the first value. |
| ThreadPools.ThreadPool.Submit | include/base/ThreadPool.hpp:55-67 | Keeps the pool invariant and does the step, with the sleeper that is notified. |
| ThreadPools.ThreadPool.Resubmit | include/base/ThreadPool.hpp:55-67 | The same from inside a task, after the stop too. |
| ThreadPools.ThreadPool.Acquire | include/base/ThreadPool.hpp:28-36 | The worker sleeps, exits or takes the first task, keeping the invariant. |
| ThreadPools.ThreadPool.NotifyAll | include/base/ThreadSafeQueue.hpp:91-97 | Nobody is asleep afterwards. |
| LogStreams.Convert | src/base/LogStream.cpp:28-41 | Without negating, the truncating loop, the mirrored table and the in-place reversal leave exactly the text of the value, ended by a zero, and touch nothing behind it. |
| LogStreams.DigitOf | src/base/LogStream.cpp:16-34 | The mirrored table at the truncated remainder is the digit of the magnitude, for either sign. |
| LogStreams.ReverseFront | src/base/LogStream.cpp:39-39 | The front reversed in place, the rest untouched. |
| LogStreams.LogStream.FormatInteger | src/base/LogStream.cpp:42-49 | The whole numeral is appended if 32 of the 2048 bytes are free, and nothing otherwise. |
| TcpClients.TcpClient.SendMsgs | src/net/TcpClient.cpp:156-197 | From an empty buffer, over any run of calls that all succeed, with any partial sends, interruptions and full sockets, the accepted bytes and the kept ones are the messages in order; up to the end of the first failing call the socket has taken a prefix of them. |
| TcpClients.TcpClient.SendMsg | src/net/TcpClient.cpp:156-197 | One call conserves the bytes if it succeeds, and keeps some only on `EWOULDBLOCK`; what each failing exit drops or keeps. |
| TcpClients.TcpClient.Drain | src/net/TcpClient.cpp:166-195 | The loop offers the rest until it is taken, refused or failed, and fails only on an error or a zero. |

## Left out

- Sockets, epoll, `fcntl`, connecting, name lookup, `receive_data`: system calls, represented by the transport oracle.
- Sessions.RPCSession.SendProtocol: the limit of 1024 segments of `sendmsg` is not modelled. It refuses a frame of more than 1024 chunks, about 4 MiB, so no transport is `reliable` for such a frame; what the laws say of longer contents is about the code above the socket.
- `TcpServer` event loop, its removal of dead clients and of their write mutexes: glue over epoll; the write lock of a client is assumed to live as long as its tasks.
- `ZKClient`, service registration, the ini file, provider choice, `parse_path`: foreign libraries and regular expressions.
- Reflection of aggregates: an aggregate is the ordered list of its members, a tuple or a pair a nested product.
- Unordered containers: their iteration order is not determined by the code; `set`, `multiset`, `map` and `multimap` are modelled in their order.
- Writing `char*` and `const char*`, which is writing the string they point to; `writeStringWithoutLength`, which is `write`; `Serializer(const char*, int)`, which is `writeRowData` and `reset`; `offset`, a relative `setPosition`, and `size`, with their conversions to `int`.
- `long long` values match no branch of the dispatch of `Serializer` (`int64_t` is `long`): they are skipped in silence on both sides, and are no type of the model.
- `writeToFile`, `readFromFile`, `toHexString`, floating-point and pointer formatting, timestamps, the text operators of `LogStream`.
- Float and double: 32 and 64 bit patterns, compared as IEEE 754 does in the sorted containers. With a NaN in a key the C++ containers require an order that is not there; the model then searches for the place from the front.
- SortedContainers.SortedRead: for keys without floating-point numbers; with them equal keys need not be equal bits, and with a NaN there is no order to state.
- Memory exhaustion, except where the failed allocation of a string is an exception that the modelled code catches like the others, and where a negative `int` asks for nearly 2^64 bytes.
- A null `client_` in `RPCSession`, and reading into or writing from a buffer with length 0.
- Handlers that throw or do not terminate: a handler is a total function that returns a value of its type.
- Batches that hold part of a frame or several frames: the server decodes one frame a batch, and the end-to-end laws speak of a batch that is one request frame.
- RpcPeers.RPCServer.PublishClientMsg: ends with the response that a task is submitted for; the queue that takes the task is `ThreadPools`, its lock and its send are the steps of `ResponseTasks`.
- ByteArrays.ByteArray.Gather: stands for the loop that the three segment functions of the source each contain.
- LoggerSteps.FileIsPrefix: supposes that every `fwrite` writes all it is given; a short write is only reported by the source.
- LoggerSteps.NothingLost: negative lengths, a file that cannot be opened, and the buffering inside the C library are not modelled; the time-out of `wait_for` is a step that may come at any moment.
- LoggerSteps.JoinEnds: supposes that `fwrite` returns and `wait_for` times out, as it is told to.
- PoolSteps.JoinEnds: supposes that tasks return; futures, packaged tasks and exceptions inside tasks are not modelled.
- PoolSteps.AllTasksRun: supposes that nobody outside the pool submits after the stop, as the destructor requires.
- The copy constructor of `ThreadSafeQueue`, which nothing uses; its second `waitAndPop`, the modelled one with a pointer for the value; `empty`, a test under the lock.
- TcpClients.TcpClient.SendMsgs: says nothing of calls after one that failed; a failed send keeps bytes that the socket has taken, so they would be sent again.
