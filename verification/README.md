# Verified model of bench-lx

This project models the parts of the bench-lx benchmarks that compute
something, and proves what they compute. `dafny verify dfyconfig.toml` checks
all of it.

| files | what they model |
|---|---|
| `Memcpy.dfy` | the word-copying `my_memcpy` on one byte array, regions placed anywhere |
| `PingPong.dfy`, `Deadlock.dfy` | any number of parent/child pairs exchanging typed messages through one System V queue, as interleaved steps |
| `Decimal.dfy`, `ByteOrder.dfy`, `Keys.dfy` | decimal text, LevelDB's byte order, `pack_key` and `unpack_key` with `std::stoll` and the stream extractions |
| `Store.dfy`, `Ops.dfy`, `Scan.dfy`, `ScanExamples.dfy`, `Executor.dfy` | the YCSB key-value executor: a two-level store flattened into ordered string keys, point reads, whole-record reads, range scans |
| `Channel.dfy`, `Wire.dfy`, `Handler.dfy`, `Tcp.dfy`, `Udp.dfy`, `Server.dfy` | the YCSB server: package parser, response framing, frame reassembly, workload replay and the receive/execute/respond loop |
| `Stats.dfy` | integer mean and deviation |
| `Bytes.dfy`, `Wrappers.dfy` | bytes, big-endian words, bitwise or; results that may be missing or failed |

Main results, each for all inputs, runs or reachable states:

- `my_memcpy` leaves exactly the memory of a byte loop that goes upwards, for
  every overlap; that memory is given byte by byte (above the source it is a
  repeating pattern), and the copy is a `memmove` on every memory exactly when
  the destination does not start strictly inside the source.
- With room for one message of every active pair, the ping-pong benchmark
  never deadlocks, never has a send refused, and every run that cannot go on
  is finished, of the same length, and leaves the queue empty. With less room,
  some interleaving makes a parent give up, and some interleaving makes the
  benchmark hang. No run is infinite, whatever the room. A child waits for
  room instead of giving up, so there are also deadlocks in which nobody has
  reported an error; the exact condition is proved, and for at most 1100
  active pairs it is that the queue has room for some message but not for one
  of every active pair.
- The flat store refines the two-level one for every history of packages.
- Every scan returns exactly what is in range and wanted between two places
  of the store: the first entry not before the sought key, and the place where
  as many wanted entries as were asked for have opened a record.
- An unfiltered scan returns exactly the first `scan_length` records in range
  and the first entry of the next one. Two things a caller may expect do not
  hold, and the exact conditions are proved: a scan with a filter returns what
  the filter leaves of the scan without it exactly when, as far as that one
  goes, the filter wants every entry that opens a record, or when nothing more
  is to be taken; and a scan for one field, which seeks to a place in byte order, misses exactly the records
  whose leading digits are smaller than the start key.
- The server executes and answers the packages in the byte stream in order,
  however the reads split the stream, and a client recovers the sizes of the
  answers.

Conventions. Integers are unbounded, and the original's wrap-around is written
out where it can happen. Where the size of a read or a write is up to the
system, the model picks any allowed size. The sources state the record budget
and the seek without further documentation, so the code decides.

## Model

| member | source | states |
|---|---|---|
| Memcpy.MyMemcpy | apps/memcpy/memcpy.c:35-80 | returns dest, and memory ends as a byte-at-a-time ascending copy leaves it, for every length, alignment and overlap |
| Memcpy.CopyByte | apps/memcpy/memcpy.c:44-47 | one byte copy advances the reference copy by one byte and keeps equal alignment equal |
| Memcpy.CopyWord | apps/memcpy/memcpy.c:67-70 | an aligned word load and store advances the reference copy by eight bytes |
| Memcpy.CopyEightWords | apps/memcpy/memcpy.c:52-64 | the unrolled body advances the reference copy by 64 bytes |
| Memcpy.CopyWords | apps/memcpy/memcpy.c:49-73 | both word loops leave less than a word to do, with the reference copy's goal unchanged |
| Memcpy.WordIsBytes | apps/memcpy/memcpy.c:39-50 | equal alignment makes a word copy the same as eight byte copies, whatever the overlap |
| Memcpy.CopyClosedForm | apps/memcpy/memcpy.c:76-79 | which old byte every address ends up with: unchanged outside, intact when going down, the first d - s source bytes repeated when going up |
| Memcpy.MemmoveExactly | apps/memcpy/memcpy.c:35-80 | the source arrives intact on every memory if and only if not s < d < s + n |
| PingPong.System.ParentStep | apps/pingpong/pingpong.c:123-153 | a parent's next queue call or waitpid has the protocol's effect on positions and queue: a message is appended where there is room, the first reply is taken, a refused send changes nothing but ends the parent |
| PingPong.System.ChildStep | apps/pingpong/pingpong.c:88-101 | a child's next queue call has the protocol's effect: the first message of a parent is taken, a reply is appended and fits |
| PingPong.System.RunAll | apps/pingpong/pingpong.c:88-153 | any scheduler of all processes goes on until nobody can move, within the workload and with no more messages than there is room for; then everything is done with an empty queue, or a send was refused, or the queue is too full for a reply; with room for every active pair, everything is done |
| PingPong.ReceiveFirst | apps/pingpong/pingpong.c:90-90 | msgrcv with a type takes the first message of that type and leaves all others in their order |
| PingPong.StepInv | apps/pingpong/pingpong.c:88-141 | every step of every process, a refused send included, keeps the message accounting and uses up one unit of work, whatever the capacity |
| PingPong.Conservation | apps/pingpong/pingpong.c:124-140 | queue length plus children holding an unanswered message equals parents awaiting a reply, at most one per active pair |
| PingPong.RoomToSend | apps/pingpong/pingpong.c:127-131 | when a parent is about to send, the queue holds fewer messages than there are active pairs |
| PingPong.NoDeadlock | apps/pingpong/pingpong.c:88-153 | for every capacity, a state in which nobody can move is finished, or has a refused send, or has a child whose reply does not fit; the last never happens with room for every active pair, even when replies cross between pairs |
| PingPong.RunsEnd | apps/pingpong/pingpong.c:88-153 | for every capacity, no run is longer than the workload, and a finished one is exactly as long and leaves the queue empty; with room for every active pair, a run can go on if and only if it is not finished |
| PingPong.RefusableExactly | apps/pingpong/pingpong.c:127-131 | some interleaving refuses a non-blocking send if and only if the queue has room for fewer messages than there are active pairs |
| PingPong.RefusedNeverFinishes | apps/pingpong/pingpong.c:127-131 | once a send has been refused, some child never gets through its loops |
| PingPong.HangsExactly | apps/pingpong/pingpong.c:88-153 | some interleaving ends with nobody able to move and a parent waiting or a child not through if and only if the queue has room for fewer messages than there are active pairs |
| PingPong.QueueFits | apps/pingpong/pingpong.c:96-130 | in every run, for every capacity, the queue never holds more messages than there is room for |
| PingPong.WaitpidWaits | apps/pingpong/pingpong.c:153-153 | in every run, a parent that has returned from waitpid is through its loops, and so is its child |
| Deadlock.FullQueueBlocks | apps/pingpong/pingpong.c:96-96 | while the queue is full, a child that holds a reply does not go on |
| Deadlock.CloggedExactly | apps/pingpong/pingpong.c:88-101 | some interleaving leads to a child whose reply does not fit if and only if the queue has room for some message but not for one of every active pair |
| Deadlock.DeadlocksExactly | apps/pingpong/pingpong.c:88-141 | some interleaving ends with nobody able to move, nobody having given up and work left if and only if there is room for some message and some children with loops to do are such that one message for each of them and one for every place in the queue number no more than the active pairs, and no more than the iterations of these children |
| Deadlock.FewPairsDeadlock | apps/pingpong/pingpong.c:88-141 | for at most 1100 active pairs, that is if and only if the queue has room for some message but not for one of every active pair |
| Keys.PackKeyInjective | apps/ycsbserver/ops.cc:134-138 | two packed keys are equal if and only if record key and field are |
| Keys.UnpackPacked | apps/ycsbserver/ops.cc:134-145 | unpack_key undoes pack_key for keys below 2^63 and throws out_of_range for all others |
| Keys.StoLLReads | apps/ycsbserver/ops.cc:142-142 | std::stoll reads any number that fits, signed, after white space and before anything but a digit, and throws out_of_range for all others and invalid_argument where there are no digits |
| Keys.ExtractReads | apps/ycsbserver/ops.cc:164-166 | the stream extraction does the same modulo 2^64, stores the largest value and fails where the digits overflow, and stores 0 and fails where there are none |
| Keys.ExtractPacked | apps/ycsbserver/ops.cc:164-169 | the stream extraction reads the record key of a packed key and stops at the slash |
| Keys.PackedOrder | apps/ycsbserver/ops.cc:134-138 | the byte order of packed keys: by record, the shorter number against the leading digits of the longer one, then by field |
| Keys.RecordContiguous | apps/ycsbserver/ops.cc:209-218 | between two keys of one record there are only keys of that record |
| Store.PutSorted | apps/ycsbserver/ops.cc:149-155 | a write keeps the entries in ascending byte order |
| Store.GetPut | apps/ycsbserver/ops.cc:149-182 | a read gives the last written value of its key and is not affected by other keys |
| Ops.StoreAfterValid | apps/ycsbserver/ops.cc:66-156 | after every history the store is in byte order and holds packed keys only |
| Ops.StoreRefines | apps/ycsbserver/ops.cc:147-182 | a point read after any history gives the latest INSERT or UPDATE of that record and field, and nothing if there was none |
| Ops.InsertAllWrites | apps/ycsbserver/ops.cc:147-156 | writing the pairs of a package leaves every pair that no later one overwrites, and no other key is touched |
| Ops.WholeReadAgrees | apps/ycsbserver/ops.cc:161-173 | a read of all fields lists every field that has a value exactly once, in store order, with the value a read by name gives |
| Ops.WholeReadNames | apps/ycsbserver/ops.cc:168-170 | the name it reports is "/" and the field name up to its first white space, so the whole name if and only if there is none |
| Ops.FoundExactly | apps/ycsbserver/ops.cc:174-184 | the fields a read by name lists are exactly the requested ones that have a latest value, with that value, in the order requested and as often as requested |
| Scan.ScanIsPrefix | apps/ycsbserver/ops.cc:198-221 | the result is a prefix of the qualifying entries from the seek position, all of them if budget is left |
| Scan.Grouped | apps/ycsbserver/ops.cc:209-218 | entries of one record are contiguous in the store |
| Scan.RecordsDistinct | apps/ycsbserver/ops.cc:209-218 | a scan that counts key changes meets no record twice |
| Scan.UnfilteredCharges | apps/ycsbserver/ops.cc:211-217 | the budget used is the number of records met, except the first one and one more after record 0 |
| Scan.UnfilteredScan | apps/ycsbserver/ops.cc:198-221 | an unfiltered scan that does not throw returns exactly the first n records in range (n + 1 with record 0) and the first entry of the next |
| Scan.ChargedOpens | apps/ycsbserver/ops.cc:211-217 | the accounting by last_key charges exactly the wanted entries that are the first of their record, after an entry in range of another record than 0 |
| Scan.FilterKeepsBudgetExactly | apps/ycsbserver/ops.cc:209-220 | for one scan from any place: it returns what the filter leaves of the scan without it if and only if, as far as that one goes, the filter wants every entry that opens a record, or nothing more is to be taken from readable entries |
| Scan.FilteredScanExactly | apps/ycsbserver/ops.cc:198-221 | the same for the results of two scans of a store |
| Scan.ScanExactly | apps/ycsbserver/ops.cc:198-221 | every scan, with any filter and budget, returns exactly what is in range and wanted from the first entry not before the key of its only field (or the first of all) to the place where as many wanted entries as were asked for have opened a record; it throws exactly if one of the record keys in between does not fit |
| Scan.TakenExactly | apps/ycsbserver/ops.cc:211-213 | what is in range and wanted: the entries with a record key from the start on and a listed field, with their names and values, in store order |
| Scan.WantedNames | apps/ycsbserver/ops.cc:188-196 | a filter wants the names it lists, or all if it lists none |
| ScanExamples.SeekSkipsField | apps/ycsbserver/ops.cc:203-218 | after three INSERT packages, a scan for field "b" of one record starts behind the field "a" of record 1 and returns two entries |
| ScanExamples.FilterOverruns | apps/ycsbserver/ops.cc:198-221 | after four INSERT packages, a scan for two fields with a budget of one record returns entries of three records, the scan for all fields of two |
| Scan.SeekSkips | apps/ycsbserver/ops.cc:203-206 | the seek passes over a wanted entry if and only if its record key has more digits and smaller leading digits than the start |
| Scan.SingleFieldScanExactly | apps/ycsbserver/ops.cc:203-218 | a one-field scan with budget left returns all qualifying entries if and only if no such record is passed over |
| ScanExamples.SeekMissesTen | apps/ycsbserver/ops.cc:203-218 | after two INSERT packages, a scan for one field from record 9 does not return record 10 |
| Executor.LevelDBExecutor.ExecInsert | apps/ycsbserver/ops.cc:147-156 | all pairs are written in order under the package's key |
| Executor.LevelDBExecutor.ReadRecord | apps/ycsbserver/ops.cc:161-173 | the iteration over the database gives the whole-record read |
| Executor.LevelDBExecutor.ReadFields | apps/ycsbserver/ops.cc:174-184 | the requested names that have a latest value in the history, in the order requested |
| Executor.LevelDBExecutor.ExecScan | apps/ycsbserver/ops.cc:198-221 | the loop with rem and last_key returns exactly what is in range and wanted between the seek position and the place where the budget is spent on records, or throws if there is an unreadable key in between |
| Executor.LevelDBExecutor.Execute | apps/ycsbserver/ops.cc:66-132 | appends the package to the history the database stands for; INSERT and UPDATE write all pairs and answer 4, other operations leave the database unchanged, DELETE answers 4 and an unknown operation 0 |
| Executor.ReadAnswered | apps/ycsbserver/ops.cc:94-108 | a READ answers with the size of the whole record, or of exactly the requested fields that have a value |
| Executor.ScanAnswered | apps/ycsbserver/ops.cc:110-124 | a SCAN answers with the size of exactly what it visits and takes, or throws |
| Executor.SizeAdds | apps/ycsbserver/ops.cc:97-98 | the size of an answer adds up the lengths of all names and values |
| Executor.TakeField | apps/ycsbserver/ops.cc:188-196 | true exactly for an empty filter or a listed name |
| Wire.ReadU64 | apps/ycsbserver/handler.cc:7-17 | shifting and or-ing eight bytes gives their big-endian value |
| Bytes.EightBytes | apps/ycsbserver/handler.cc:7-11 | which is the first byte times 2^56 plus the second times 2^48 and so on |
| Wire.FromBytes | apps/ycsbserver/handler.cc:19-47 | the parser of the theorems below, with position 0 and the pairs so far on failure; header fields and pairs come from their places in the buffer |
| Wire.ParseEncoded | apps/ycsbserver/handler.cc:19-47 | a buffer that starts with an encoded package parses to it and to its length |
| Wire.EncodeParsed | apps/ycsbserver/handler.cc:19-47 | a successful parse has exactly num_kvs pairs and encodes back to the consumed bytes, all within the package size |
| Wire.ParseFailsExactly | apps/ycsbserver/handler.cc:27-36 | the parser returns 0 if and only if no package is encoded at the start |
| Wire.ParsedLongest | apps/ycsbserver/handler.cc:19-47 | whether or not a buffer parses, the package has the fields of its header and the longest list of pairs, up to num_kvs, that is encoded within its size; it fails exactly if that is fewer than num_kvs |
| Wire.ParsedLaidOut | apps/ycsbserver/handler.cc:25-46 | the i-th pair lies where 19 and the lengths 2 + klen + vlen of the pairs before it add up to; the returned position is the end of the last one, or 0 if one reaches over the size |
| Wire.ParseLocal | apps/ycsbserver/handler.cc:26-46 | bytes behind the package size never matter |
| Wire.ParsePrefix | apps/ycsbserver/handler.cc:26-46 | bytes behind the returned position never matter |
| Wire.ResponsesDelimited | apps/ycsbserver/handler.cc:49-68 | a reader of a stream of responses recovers exactly their sizes |
| Handler.Respond | apps/ycsbserver/handler.cc:49-68 | success writes the eight-byte size and that many bytes, failure a proper part of them, in writes of 8 bytes, then full chunks, then the rest |
| Handler.ChunksAre | apps/ycsbserver/handler.cc:59-66 | the chunks of a body are 1024 bytes long, but for what is left at the end |
| Tcp.TcpHandler.Fill | apps/ycsbserver/tcp_handler.cc:55-70 | short reads of any sizes add up to exactly the bytes waited for |
| Tcp.TcpHandler.Receive | apps/ycsbserver/tcp_handler.cc:49-80 | consumes exactly one frame and judges it, with the old buffer contents behind a shorter frame; STOP exactly for "ENDNOW" and for a length over 8192 |
| Tcp.SessionDecodes | apps/ycsbserver/tcp_handler.cc:49-80 | a stream of frames, ended by the end mark or by a length that is too large, decodes to the packages they hold, rejected frames skipped, whatever the buffer held before |
| Tcp.ClientToServer | apps/ycsbserver/tcp_handler.cc:49-80 | packages a client encodes, frames and ends so are the packages the server decodes |
| Udp.UdpHandler.constructor | apps/ycsbserver/udp_handler.cc:33-61 | loads the file, at most 4 MiB of it, through reads of any size, takes the number of operations from it and points to the first package |
| Udp.UdpHandler.Reset | apps/ycsbserver/udp_handler.cc:67-70 | puts the replay back to the first package |
| Udp.UdpHandler.Receive | apps/ycsbserver/udp_handler.cc:72-83 | for any file: the package at the cursor, which moves by its length or stays if it does not parse |
| Udp.UdpHandler.ReceiveNext | apps/ycsbserver/udp_handler.cc:59-83 | for any file with enough bytes: the k-th receive since the last reset gives the k-th package the file delivers, then STOP for ever |
| Udp.WorkloadDelivered | apps/ycsbserver/udp_handler.cc:59-83 | a file with encoded packages behind its header delivers these packages in order |
| Udp.StuckForever | apps/ycsbserver/udp_handler.cc:76-82 | a package that does not parse is delivered by every later receive |
| Udp.BodyAt | apps/ycsbserver/udp_handler.cc:76-77 | the cursor 8 plus the lengths consumed is where the next package starts |
| Server.Serve | apps/ycsbserver/leveldb.cc:107-129 | over TCP: the decoded packages are executed and answered in order, up to the first exception or failed send |
| Server.ServeClient | apps/ycsbserver/leveldb.cc:107-129 | for a client that encodes, frames and ends its stream, the packages executed and answered are the client's |
| Server.Replay | apps/ycsbserver/leveldb.cc:93-129 | over UDP: the same for exactly the first total_ops packages that the file delivers |
| Server.ClientSees | apps/ycsbserver/leveldb.cc:108-129 | after a session that ran to its end, a client reads exactly one size per package, in order |
| Stats.ComputeSum | include/common.h:21-27 | the sum of the samples from the third on; with the first two it would be the sum of all, modulo 2^64 |
| Stats.ComputeAvg | include/common.h:29-31 | that sum divided by the number of samples from the third on |
| Stats.ComputeStddev | include/common.h:33-41 | the rounded-down root of the integer variance of the samples from the third on, on values cast to long |
| Stats.Report | apps/pingpong/pingpong.c:143-148 | stddev called on avg's result: both lie within the range of the samples, and the square of the deviation is the true variance rounded down, up to less than 1, if the sum fits 64 bits and no sample is negative as long |
| Stats.WarmupIgnored | include/common.h:19-41 | average and deviation are the same for any two series that agree from the third sample on |
| Stats.AvgIsMeanExactly | include/common.h:21-31 | the average is the rounded-down mean if and only if the sum fits 64 bits |
| Stats.SpreadAboutMean | include/common.h:33-41 | rounding the mean adds the square of the remainder to n times the sum of squares, and nothing else |
| Stats.VarianceWithinOne | include/common.h:33-41 | the integer variance is less than 1 away from the true one |

## Left out

- Udp.UdpHandler.Receive: requires the cursor inside the file and 19 bytes inside the buffer while operations are left; otherwise the original computes a negative rest of the file, or reads behind the buffer.
- Udp.UdpHandler.ReceiveNext: requires 19 more bytes in the file for every operation; with fewer, what the original reads does not come from the file.
- Udp.UdpHandler.constructor: requires the eight header bytes; the original would read an uninitialised buffer.
- Server.Serve: requires a stream of complete frames that contains a STOP; the original loops for ever at the end of the stream.
- Stats.ComputeStddev: the root is taken on integers, without the rounding of `sqrt` on doubles; a sum of squares of 2^63 or more is undefined in the original. The cast of 2^63 and more to long wraps around, as the compilers for the targets define it.
- Keys.ExtractKey: on a blank string the original leaves its variable unset; no packed key is blank.
- Scan.UnfilteredScan: speaks about scans that return; a scan throws exactly when it visits a record key above 2^63 - 1, which is part of `Executor.LevelDBExecutor.ExecScan`.
- LevelDB itself: a sequence of entries in byte order, whose writes always succeed. A database that holds keys this program did not write.
- Sockets and files: error returns of read, and the datagram that the UDP handler sends for every package it replays.
- `my_memcpy` lets `len` wrap around in its last test, after which it is not used.
- The queue's capacity counts messages of one size; the kernel counts bytes. All pairs of one start of the benchmark use the same message size.
- Errors of msgget, fork, affinity and scheduling calls, message payloads, the times array and its printing.
- Cycle counters, per-operation counters and printed statistics, including the averages at the end of the server's main, which divide by the number of answered packages.
- The other benchmark programs (cat, cp, read, write, memload, pagefault and so on), timeval and timespec helpers, scripts and configuration: loops around system calls and unit conversions, without a result that more than one line of them decides.
