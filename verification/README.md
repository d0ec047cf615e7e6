# mavlink-router core, modelled in Dafny

mavlink-router moves MAVLink packets between a flight controller and the
programs that talk to it: UART, UDP and TCP endpoints, plus two log sinks
that write the vehicle's telemetry stream to disk. This project models the
sequential logic at its core as pure functions over immutable state and
proves what that logic promises:

- **ULog reassembly** (`ulog.cpp`, `ulog.h`). The sink rebuilds a PX4 ULog
  file from LOGGING_DATA chunks.
  - `UlogSeq` models the 16-bit sequence check.
  - `UlogBuffer` models the 2048-byte window, the 1024-byte partial buffer
    and the flush, which writes only whole records.
  - `UlogEngine` models the header check, the resynchronisation after a gap
    or an overflow, and the append.
  - `UlogEndpoint` models the message-id filter of `write_msg` and the
    liveness check with its stop-and-start restart.
- **Router** (`mainloop.cpp`).
  - `Router` models `route_msg`, `write_msg`, the TCP registry with its
    mark-and-sweep of hung-up connections, the reconnection timer and `open`.
  - `Scheduler` models the timer list: `add_timeout`, `del_timeout` and the
    sweep `_del_timeouts`.
- **Master/slave forwarder** (`main.cpp`). `Forwarder` models `handle_read`,
  `handle_canwrite`, one loop event and `parse_argv`.
- **INI parser** (`conf.cpp`). `Conf` models `_trim`, line classification,
  `_add_section`, `_add_config`, `parse_file`, the section walk and
  `next_from_section`.
- **Log endpoint** (`logendpoint.cpp`). `LogEndpoint` models the index scan
  `_get_prefix`, including what `sscanf("%hu-")` reads. It also models the
  candidate loop of `_get_file` and the `start`/`stop`/`_alive_timeout`
  life cycle.

Everything the code gets from the operating system is a parameter of the
model:
- what each `write(2)` of the ULog flush returned, as a list of outcomes;
- what an endpoint's `write_msg` or `read_msg` returned;
- whether `opendir`, `open`, `timerfd_create`/`epoll_ctl` or an allocation
  succeeded;
- the directory entries `readdir` lists;
- the broken-down local time.

The ULog state carries the sequence `file` of bytes the file has accepted.
Ordering and no-loss properties are stated over it.

Integer widths are written out where they matter:
- 16-bit sequence numbers;
- the 16-bit `full_msg_size`, in the as-written half of the first finding;
- the `uint32_t` argument of `add_timeout`;
- the 16-bit truncation and 64-bit saturation of `%hu`.

## Model

| member | source | states |
|---|---|---|
| `UlogSeq.LoggingSeq` | ulog.cpp:301-326 | The chunk classified by its modular forward distance from the expected number. Distance 0 is accepted with no gap. Distances 1..32767 are accepted as a gap. Distances from 32770 up are rejected. For 32768 and 32769 the answer depends on whether the numbers wrapped. A rejected chunk leaves the expected number and the caller's drop flag untouched. |
| `UlogSeq.AcceptedAdvancesPastChunk` | ulog.cpp:303-325 | Every accepted chunk, in order or after a gap, leaves the expected number one past its own, modulo 2^16. |
| `UlogSeq.GapIffAcceptedOutOfOrder` | ulog.cpp:303-325 | The gap flag is set exactly for accepted chunks that were not the expected one. |
| `UlogSeq.HalfRangeAsymmetry` | ulog.cpp:309-321 | The same modular distance 32768 is rejected from 0 to 32768 and accepted as a gap from 32768 to 0. The code's thresholds are not serial-number arithmetic. |
| `UlogBuffer.Memmove` | ulog.cpp:381-384 | Compaction copies the window to the start of the physical buffer and leaves the rest of it as it was. |
| `UlogBuffer.CompactionKeepsWindow` | ulog.cpp:381-384 | After compaction, the window at index 0 of the physical buffer holds the same bytes as before. |
| `UlogBuffer.DrainPartial` | ulog.cpp:409-420 | The first flush loop writes held partial bytes and never touches the window. The file followed by the partial bytes is unchanged. A write error leaves bytes held. |
| `UlogBuffer.StepSpec` | ulog.cpp:422-458 | Each record-loop iteration keeps the bounds. It consumes only whole records from the front of the window. It loses or reorders no byte. A short write with a remainder over 1024 bytes puts the start of the record in the file while the record stays in the window. |
| `UlogBuffer.WriteRecords` | ulog.cpp:422-459 | The record loop stops at a record boundary of the original window and keeps the buffer bounds. |
| `UlogBuffer.WriteRecordsSpec` | ulog.cpp:422-459 | The whole record loop keeps the frame. The window only shrinks at its front and the file only grows at its end. Bytes are conserved except on the corrupt path. |
| `UlogBuffer.Flush` | ulog.cpp:407-462 | A flush keeps the 2048/1024 bounds, consumes no more than the window and reads at most one write result per write. |
| `UlogBuffer.FlushAligned` | ulog.cpp:407-462 | A flush advances the window only by whole ULog records of the window it started with. |
| `UlogBuffer.FlushSpec` | ulog.cpp:407-462 | Held partial bytes reach the file before any record. No byte is lost or reordered, except that the over-long remainder duplicates the start of a record that stays in the window. |
| `UlogBuffer.RecordLoopProgress` | ulog.cpp:430-435 | With the record size computed without truncation, every iteration that continues consumed at least a 3-byte record, so the loop advances. |
| `UlogBuffer.RecordSize16` | ulog.cpp:423-424 | `full_msg_size` in 16 bits equals the true size, or the true size minus 2^16. It falls below the header size exactly when `msg_size` is 65533 to 65535. |
| `UlogBuffer.WrappedRecordSizeNoProgress` | ulog.cpp:424-434 | In the loop as written, a record header with `msg_size` 65533 makes an iteration that consumes nothing and continues from the same state. |
| `UlogBuffer.WrappedRecordSizeExample` | ulog.cpp:424-434 | A concrete 3-byte window `FD FF 41` on which the loop as written spins. |
| `UlogEngine.HeaderStage` | ulog.cpp:336-356 | While waiting for the header, a chunk passes exactly when it has 16 bytes and the magic. Its 16 header bytes become the partial buffer and the chunk is the header followed by the remaining data. Otherwise the chunk is untouched. |
| `UlogEngine.GapStage` | ulog.cpp:358-384 | After a gap the window is emptied at index 0. A chunk that does not fit drops the window. In both cases the engine waits for an offset. A chunk that fits but not at the end moves the window to index 0. Afterwards `index + len + length <= 2048`. |
| `UlogEngine.Appended` | ulog.cpp:386-403 | While waiting, a chunk without an offset appends nothing. A resuming chunk appends its data from the offset on. Otherwise the whole data is appended. |
| `UlogEngine.AppendStage` | ulog.cpp:386-404 | The offset check and the append. Waiting continues exactly when the chunk has no offset. An empty chunk changes no buffer. |
| `UlogEngine.DataProcess` | ulog.cpp:328-405 | A rejected chunk changes nothing. An accepted one leaves the expected number after itself. The invariant (bounds, nothing buffered before the header) is kept. |
| `UlogEngine.BadHeaderIgnored` | ulog.cpp:336-348 | A short or magic-less chunk while waiting for the header is ignored. Only the expected sequence number moves on. |
| `UlogEngine.AppendConserves` | ulog.cpp:398-404 | Appending then flushing never shrinks the file. The file followed by the pending bytes grows by exactly the appended bytes. |
| `UlogEngine.GapKeepsHeld` | ulog.cpp:358-364 | The gap step flushes before emptying the window, so no held byte or written byte is lost. |
| `UlogEngine.InOrderChunkConserves` | ulog.cpp:328-405 | An in-order chunk that fits lands, header included, right after everything already written or pending. |
| `UlogEngine.GapKeepsFile` | ulog.cpp:358-364 | Processing a chunk after a gap never loses bytes already in the file. |
| `UlogEngine.GapWaitsForOffset` | ulog.cpp:358-392 | After a gap, a chunk with offset 255 leaves the window empty at index 0 and the engine waiting. |
| `UlogEngine.GapResync` | ulog.cpp:358-403 | After a gap, a chunk with an offset ends the waiting. Its data from the offset on is the tail of file+pending. Everything written or held before the gap precedes it. |
| `UlogEngine.OverflowDiscards` | ulog.cpp:370-403 | An in-order chunk that does not fit drops the window but keeps the file and the partial bytes. It appends from its offset, or waits when it has none. |
| `UlogEndpoint.WriteMsg` | ulog.cpp:209-296 | The packet length is returned in every case. Other ids change nothing. A data chunk goes through the engine, and only LOGGING_DATA_ACKED yields a LOGGING_ACK (target 1, sender 2). The accepted start acknowledgement arms the 5000 ms liveness timer. The statistics count data chunks and start acknowledgements only. |
| `UlogEndpoint.StopDrain` | ulog.cpp:178-183 | Stop's loop writes the held bytes in order and loses none. It ends only when they are all written, a write fails, or the file's answers run out. |
| `UlogEndpoint.StopEngine` | ulog.cpp:150-189 | Stopping drops the window, drains the held bytes into the file in order, and leaves the sequence state as it was. |
| `UlogEndpoint.AliveCheck` | ulog.cpp:197-207 | A restart is due exactly when no packet was counted since the previous check. A restart cancels the liveness timer and the pending start. A successful start resets the engine and waits for the start acknowledgement again. A failed one leaves the stopped engine. The check records the total and the callback returns true. |
| `UlogEndpoint.RestartAwaitsNewAck` | ulog.cpp:197-207 | After a restart no liveness check is armed. After a successful start, the next accepted start acknowledgement is counted and arms the check again. After a failed start, no acknowledgement is taken as the start's. |
| `UlogEndpoint.IdleIntervalRestarts` | ulog.cpp:197-207 | Two checks with nothing counted in between: the second one restarts. |
| `UlogEndpoint.CountedPacketKeepsAlive` | ulog.cpp:229-295 | Between two checks, a packet prevents the restart exactly when it is one the statistics count. |
| `UlogEndpoint.UnhandledIgnored` | ulog.cpp:228-232 | A message id the filter does not handle changes no state and returns the length. |
| `UlogEndpoint.AckedChunkProcessedAlike` | ulog.cpp:266-289 | LOGGING_DATA_ACKED is processed exactly like LOGGING_DATA, plus the acknowledgement. |
| `UlogEndpoint.Initial` | ulog.h:47-61 | A fresh sink: sequence 0, waiting for the header, not waiting for an offset, empty buffers, no timers, counters equal. |
| `Scheduler.ToInterval` | mainloop.cpp:489-492 | The interval has whole milliseconds below one second and denotes exactly the requested milliseconds. |
| `Scheduler.IntervalRoundTrip` | mainloop.cpp:489-492 | Milliseconds to interval and back is the identity. Every millisecond-aligned interval comes from exactly one count. |
| `Scheduler.AddTimeout` | mainloop.cpp:476-506 | On success the new unmarked timer heads the list, with first expiry equal to its period and the period equal to the argument mod 2^32. On failure nothing changes. |
| `Scheduler.DelTimeout` | mainloop.cpp:508-511 | Deleting only marks the timers with that identity. Nothing else changes. |
| `Scheduler.DelTimeouts` | mainloop.cpp:513-539 | The two-phase unlink leaves exactly the unmarked timers, in order. |
| `Scheduler.SweepMarked` | mainloop.cpp:513-539 | Sweeping a list marked exactly on the timers failing a predicate leaves the timers passing it. |
| `Scheduler.DeleteThenSweep` | mainloop.cpp:508-539 | Delete then sweep removes exactly that timer. The others keep their order. |
| `Scheduler.SweepIdempotent` | mainloop.cpp:513-539 | A second sweep removes nothing. |
| `Router.WriteMsg` | mainloop.cpp:105-117 | The endpoint's result is passed on unchanged. EPOLLOUT is requested exactly on -EAGAIN. |
| `Router.DeliverWatchesBlocked` | mainloop.cpp:105-117 | After a message is written to a list of endpoints, the ones watched for writability are exactly those that answered -EAGAIN. |
| `Router.DeliverSpec` | mainloop.cpp:158-174 | Each delivery of a broadcast goes to the endpoint at the same position and carries that endpoint's answer. |
| `Router.MarkSpec` | mainloop.cpp:166-172 | A broadcast marks exactly the TCP connections written to that answered -EPIPE. All else is unchanged. |
| `Router.AnyHangupSpec` | mainloop.cpp:166-172 | The hang-up flag is raised exactly when some written TCP connection answered -EPIPE. |
| `Router.BroadcastFixed` | mainloop.cpp:161-164 | The fixed array is written once per endpoint outside the sender's system, in array order. |
| `Router.BroadcastTcp` | mainloop.cpp:166-174 | The TCP list is written once per endpoint outside the sender's system, in list order, with hung-up connections marked. |
| `Router.RouteMsg` | mainloop.cpp:119-176 | A positive target is written once, to the first match in the fixed array, else the first in the TCP list, else nowhere. Only a TCP target can be marked. Otherwise the message is broadcast to the fixed endpoints then the TCP ones, skipping the sender's system. |
| `Router.BroadcastSkipsSender` | mainloop.cpp:158-174 | No broadcast delivery goes to the sender's system, and connections of that system are never marked. |
| `Router.ProcessTcpHangups` | mainloop.cpp:178-218 | The live connections are kept in order. The marked ones go to the retry list if their period is positive, to the delete list otherwise, in order. The flag is cleared. |
| `Router.HangupsPartition` | mainloop.cpp:178-218 | Every connection leaves the sweep in exactly one way, and no marked one is kept. |
| `Router.AddTcpEndpoint` | mainloop.cpp:220-233 | The new unmarked connection becomes the head. An allocation failure returns -ENOMEM with the list untouched. |
| `Router.AddedConnectionReceivesBroadcast` | mainloop.cpp:160-174 | A registered connection of another system gets every later broadcast: its delivery comes right after the fixed endpoints' and before the older connections'. |
| `Router.AddTcpRetry` | mainloop.cpp:541-558 | A period of 0 or less does nothing. Otherwise the socket is closed and a timer of 1000 x period ms (mod 2^32) is armed when it can be. |
| `Router.RetryPeriod` | mainloop.cpp:550-552 | Periods up to 4294967 s give timers of exactly that many seconds. 4294968 s wraps to 704 ms. |
| `Router.RetryTimeoutCb` | mainloop.cpp:560-574 | A failed reopen keeps the timer. A failed registration closes the socket and keeps the timer. Success prepends the connection and stops the timer. |
| `Router.RetryStopsOnlyWhenRegistered` | mainloop.cpp:560-574 | The timer stops exactly when the connection joined the TCP list. Otherwise the list is unchanged. |
| `Router.Open` | mainloop.cpp:50-63 | An existing instance gives -EBUSY. A failed creation gives -1. Otherwise 0 with the new descriptor. |
| `Router.SecondOpenBusy` | mainloop.cpp:50-63 | A second open after a successful one is refused and keeps the instance. |
| `Forwarder.WriteMsg` | main.cpp:158-168 | The write goes to the given endpoint. EPOLLOUT is requested exactly on -EAGAIN. |
| `Forwarder.Delivered` | main.cpp:185 | Reading stops at the first result of 0 or less. Every packet before it was read. |
| `Forwarder.HandleRead` | main.cpp:170-194 | The writes of a read burst: for each packet read, all array endpoints if it came from the master, the master alone otherwise. |
| `Forwarder.MasterFansOut` | main.cpp:186-189 | Packet k from the master reaches array endpoint j in write number k x n + j. Every endpoint gets every packet once, in order. |
| `Forwarder.OthersReachMaster` | main.cpp:190-192 | Packet k from any other endpoint is write number k, to the master. |
| `Forwarder.AfterWrites` | main.cpp:166-167 | The watched set grows by exactly the destinations whose write blocked. Each of them is watched for input and output. Every other endpoint keeps its state. |
| `Forwarder.HandleCanwrite` | main.cpp:196-206 | Unless the flush would block again, the endpoint is watched for input only. |
| `Forwarder.HandleEvent` | main.cpp:224-232 | One event handles reading before writing. |
| `Forwarder.BlockedWriteWatched` | main.cpp:224-232 | A destination whose write blocked during an event is still watched for output after the event's write side ran for another endpoint. |
| `Forwarder.DrainedAfterRead` | main.cpp:227-231 | A drained endpoint ends the event watched for input only, whatever its reads did. |
| `Forwarder.ParseArgv` | main.cpp:68-111 | 0 exactly when `-h` comes after only valid baudrates. 2 exactly when every option is a valid baudrate and two positional arguments remain, with uart and addr taken from them in order and the last baudrate applied. -EINVAL otherwise. |
| `Forwarder.DefaultBaudrateKept` | main.cpp:51-55 | Without options the baudrate stays 57600. |
| `Forwarder.SecondOpenBusy` | main.cpp:113-126 | The forwarder's open refuses a second call with -EBUSY. |
| `Conf.Trim` | conf.cpp:268-283 | The result is the contiguous piece of the input with no whitespace at either end and only whitespace around it. |
| `Conf.TrimUnique` | conf.cpp:268-283 | That description admits exactly one piece. |
| `Conf.TrimIdempotent` | conf.cpp:268-283 | Trimming twice is trimming once. |
| `Conf.Classify` | conf.cpp:88-106 | An empty trimmed line, or one starting with ';' or '#', is blank. '[' starts a section. Anything else is a key=value line. |
| `Conf.IndexOf` | conf.cpp:144 | `strchr`: the first occurrence of the character, or none when it does not occur. |
| `Conf.AddSection` | conf.cpp:140-183 | -EINVAL exactly when there is no ']' or text follows the first one. A name equal to an existing one, ignoring case, reselects that section. A new name is prepended and made current. Distinct names stay distinct. |
| `Conf.AddConfig` | conf.cpp:185-219 | -EINVAL exactly when '=' is missing, first or last. Otherwise the trimmed key and value around the first '=' are prepended to the current section. |
| `Conf.SplitNonEmpty` | conf.cpp:195-213 | A valid key=value line yields a non-empty key and a non-empty value. |
| `Conf.ParseLine` | conf.cpp:88-106 | One line gives 0 exactly when it is blank or a comment, a header with nothing after its ']', or a `key = value` entry with '=' neither first nor last, and -EINVAL otherwise. |
| `Conf.ParseLines` | conf.cpp:83-109 | The line loop returns 0 exactly when every line is blank, a comment, a well-formed header or a well-formed entry, and -EINVAL otherwise. It stops at the first rejected line and keeps section names distinct. |
| `Conf.AllLinesOk` | conf.cpp:83-109 | All lines are accepted exactly when the first one is and the rest are. |
| `Conf.ParseFile` | conf.cpp:67-123 | An unopened file is -EIO. A rejected line gives -EINVAL. When every line is accepted, the result is 0 exactly when a section exists and the newest one has an entry. Success leaves no current section. Names are distinct. |
| `Conf.BlankLinesIgnored` | conf.cpp:88-94 | Inserting a blank or comment line anywhere does not change the outcome of the parse. |
| `Conf.FirstSection` | conf.cpp:125-129 | The newest section becomes current and its name is returned. |
| `Conf.NextSection` | conf.cpp:131-138 | Moves to the next older section, or returns NULL at the last one. |
| `Conf.WalkSectionsInOrder` | conf.cpp:125-138 | k calls after `first_section` make the k-th section current. |
| `Conf.NextMatch` | conf.cpp:257-263 | The first entry at or after the start whose key matches ignoring case, or none. |
| `Conf.NextFromSection` | conf.cpp:221-266 | An unknown section gives NULL. A returned value belongs to the current section, whose name matches, and to the cursor entry, whose key matches. |
| `Conf.SearchSection` | conf.cpp:250-265 | The search inside a section moves the cursor to the entry whose value it returns. |
| `Conf.LookupSteps` | conf.cpp:250-265 | Repeated lookups in the current section return the matching entries in list order, then NULL. A different key restarts at the head. |
| `Conf.FirstLookupTakesNewest` | conf.cpp:226-227 | With no current section, as `parse_file` leaves it, a lookup behaves exactly as one from the newest section. |
| `Conf.FirstLookupFindsFirstMatch` | conf.cpp:221-266 | The first lookup after `parse_file` makes the named section current and returns its first entry with the key, or NULL when it has none. |
| `Conf.SwitchSectionRestarts` | conf.cpp:233-256 | Naming another section moves to it and restarts the search at its head. |
| `Conf.OneEntryParses` | conf.cpp:67-219 | A file of one header and one clean key=value line parses into exactly that section with that entry. |
| `Conf.OneEntryRoundTrip` | conf.cpp:67-266 | The value written in such a file is what `next_from_section` returns for its section and key, in any case. |
| `LogEndpoint.DigitsLength` | logendpoint.cpp:108 | An index has at most three digits exactly when it is below 1000, so `%03u` pads every candidate to three. |
| `LogEndpoint.PadRoundTrip` | logendpoint.cpp:108 | Zero-padded decimal text reads back as the number. |
| `LogEndpoint.ScanShort` | logendpoint.cpp:82 | `sscanf("%hu-")` matches exactly when optional whitespace and sign are followed by a digit. The stored value is below 2^16. |
| `LogEndpoint.ScanOwnName` | logendpoint.cpp:82-108 | The scan reads index i back from the name of log file i. |
| `LogEndpoint.NameLength` | logendpoint.cpp:108-116 | All candidate names have the same length, so the PATH_MAX check passes for all or none. |
| `LogEndpoint.NamesDistinct` | logendpoint.cpp:107-111 | Different indices give different names. |
| `LogEndpoint.PrefixOfSpec` | logendpoint.cpp:79-87 | The scan's result is one more than the largest index below 999 found, or 0. It is at most 999. |
| `LogEndpoint.PrefixOrderFree` | logendpoint.cpp:81-87 | The prefix does not depend on the order or repetition of the directory entries. |
| `LogEndpoint.PrefixAboveOwnFiles` | logendpoint.cpp:79-87 | A directory holding log file i (below 999) gives a prefix above i. |
| `LogEndpoint.GetPrefix` | logendpoint.cpp:68-92 | An unopenable directory gives -errno and writes no prefix. Otherwise 0 and the order-free prefix. |
| `LogEndpoint.TryFrom` | logendpoint.cpp:107-136 | For any behaviour of `open`, the result is the descriptor of the first candidate whose open succeeded after every earlier one answered EEXIST, with its name. -EINVAL exactly when the name does not fit PATH_MAX. -1 on another open error or when indices run out. -ENOMEM only when the copy of the name fails, and success needs the copy. A first candidate that fits and opens, with the copy succeeding, is the result. |
| `LogEndpoint.FirstCandidateDecides` | logendpoint.cpp:107-131 | With an `open` that never answers EEXIST, as with O_CREAT and no O_EXCL, the first candidate alone decides the result: its name on success, -1 exactly when its open fails or the index is past 999. |
| `LogEndpoint.UninitialisedIndexDecides` | logendpoint.cpp:101-107 | As written, with an unlistable directory the uninitialised index decides the file: stack value 5 gives file 5, stack value 1000 gives no file. |
| `LogEndpoint.StartIndex` | logendpoint.cpp:101-107 | The corrected start index is the prefix, or 0 when the scan failed. |
| `LogEndpoint.GetFile` | logendpoint.cpp:94-137 | The opened file is a candidate from the start index on whose open succeeded, every candidate before it having answered EEXIST. With an unlistable directory, index 0 is taken whenever its open succeeds. |
| `LogEndpoint.TruncatesExisting` | logendpoint.cpp:118-119 | As written, with an unlistable directory and file 0 of the current second already there, `_get_file` opens that existing file again. |
| `LogEndpoint.ExclusiveOpenIsNew` | logendpoint.cpp:107-136 | With O_EXCL added, the opened file was never in the directory, every skipped candidate was, and the descriptor is the open's. |
| `LogEndpoint.ExclusiveOpenFindsNew` | logendpoint.cpp:107-136 | With O_EXCL added, when the first name fits and some candidate from the start index to 999 is not in the directory, a file is opened. |
| `LogEndpoint.NewFileIsNew` | logendpoint.cpp:79-137 | After a successful scan the new file is never one whose index the scan found. |
| `LogEndpoint.Start` | logendpoint.cpp:157-188 | Already started: false, no change. File failure: false, closed. Timer failure: false, closed, timer cleared. Success: the file and a 1 s start timer. |
| `LogEndpoint.Stop` | logendpoint.cpp:139-155 | Both armed timers are marked and forgotten, the file closed, the system id 0. The counters are kept. |
| `LogEndpoint.StopLeavesNoTimer` | logendpoint.cpp:139-155 | After the sweep, exactly the endpoint's timers are gone. The others keep their order. |
| `LogEndpoint.StartAfterStop` | logendpoint.cpp:139-188 | A stop always makes the next start possible. |
| `LogEndpoint.RemoveStartTimeout` | logendpoint.cpp:202-206 | The start timer is marked and forgotten. |
| `LogEndpoint.StartTimerSwept` | logendpoint.cpp:202-206 | After the main loop's sweep, the start timer is gone and every other timer is kept, in order. |
| `LogEndpoint.StartAliveTimeout` | logendpoint.cpp:208-213 | The result says whether the timer was created. Its period is 5000 ms and it heads the list. |
| `LogEndpoint.AliveTimerSurvivesSweep` | logendpoint.cpp:208-213 | The armed liveness timer is unmarked, so the sweep keeps it at the head and its check keeps running. |
| `LogEndpoint.AliveCheck` | logendpoint.cpp:190-200 | Stop-then-start happens exactly when the write total did not change since the last check. The total is recorded and the callback returns true. |
| `LogEndpoint.RestartDropsAliveTimer` | logendpoint.cpp:190-200 | A restart marks the liveness timer itself, so it is swept despite returning true. |
| `LogEndpoint.IdleIntervalRestarts` | logendpoint.cpp:190-200 | Two checks with no write in between: the second restarts. |
| `LogEndpoint.Initial` | logendpoint.h:47-51 | A new endpoint is closed, has no timers and has equal counters. |

Where the documented behaviour and the code differ, the model follows the
code:
- A chunk with a bad ULog header, received while waiting for the header,
  is ignored and the sink keeps waiting. The session is not rejected, and
  the expected sequence number has already advanced.
- A flush whose short-write remainder exceeds the 1024-byte partial buffer
  clears the partial buffer and leaves the record in the window. It is
  written again later.
- `_retry_timeout_cb` re-registers the connection in the TCP list but does
  not call `add_fd` for it.
- The forwarder writes a master packet to every entry of `g_endpoints`
  without excluding any of them.

## Left out

- `ULog::logging_start_timeout`, the file naming and `access` probing of
  `ULog::start`, and the MAV_CMD_LOGGING_STOP command, `fsync` and `close`
  of `ULog::stop` (ulog.cpp:58-189). They depend on the wall clock, the
  file system and the MAVLink encoder library. The state a successful
  start restores is `UlogEngine.Fresh`.
- `UlogEndpoint.AliveCheck`: whether the `start` after the restart
  succeeded is a parameter, because it depends on the file system. What
  `stop` does to the engine is modelled (`UlogEndpoint.StopEngine`).
- `_send_msg` of both sinks. It encodes a MAVLink message and hands it to
  `route_msg`. `UlogEndpoint.WriteMsg` returns the acknowledgement as a value
  instead.
- MAVLink decoding, `get_trimmed_zeros` and the zero padding of truncated
  payloads. Frames arrive already decoded.
- epoll, timerfd, sockets, `fsync`/`close`, descriptor and memory leaks,
  signal handling, the blocking `loop` of both programs,
  `handle_tcp_connection`, `add_endpoints` and `free_endpoints`. Only their
  success or failure enters the model.
- Log output of every kind.
- `getopt_long` and `safe_atoul` (library code). `Forwarder.ParseArgv`
  receives the options getopt reports and the conversion as a function.
- `UlogEndpoint.AliveCheck`: the counters are unbounded. In the code
  `_timeout_write_total` is a `uint32_t`, and `_stat.write.total` is
  declared in endpoint.h, which is not part of this model. A check that
  falls exactly 2^32 packets after the previous one is therefore not
  modelled.
- `LogEndpoint.AliveCheck`: the same unbounded counters as
  `UlogEndpoint.AliveCheck`.
- `Router.AddTcpRetry`: `MSEC_PER_SEC * retry_timeout` is taken as an exact
  product reduced modulo 2^32 when passed as `uint32_t`. util.h, which
  defines `MSEC_PER_SEC`, is not part of this model, so a signed overflow
  of the product is not modelled.
- `Conf.AddSection`: the -ENOMEM of a failed allocation (conf.cpp:174) is
  not modelled.
- `Conf.AddConfig`: the -ENOMEM of a failed allocation (conf.cpp:206) is
  not modelled.
- `Conf.ParseFile`: requires that no key=value line comes before the first
  section header. Such a line makes the code dereference a null
  `_current_section` (conf.cpp:215).
- `Conf.FirstSection`: requires at least one section. The code dereferences
  `_sections` unchecked.
- `LogEndpoint.RemoveStartTimeout`: requires an armed start timer, which
  the code dereferences.
- `Conf.NextSection`: requires a current section. The code dereferences
  `_current_section` (conf.cpp:133), which `parse_file` leaves NULL
  (conf.cpp:111), so a call before `first_section` is not modelled.
- `LogEndpoint.TryFrom`: compares the length of the name in characters
  with PATH_MAX, while `snprintf` counts bytes. A directory or extension
  with multi-byte characters can therefore fit in the model and not in
  the buffer.
- `UlogBuffer.StepSpec`: uses the record size computed without 16-bit
  truncation, the corrected half of the first finding. For `msg_size`
  65533 the code as written spins, and for 65534 or 65535 it advances 1 or
  2 bytes into a record (ulog.cpp:424); neither is modelled here.
- `UlogBuffer.WriteRecords`: uses the same untruncated record size as
  `UlogBuffer.StepSpec`, so the loop as written for `msg_size`
  65533-65535 is not modelled.
- `UlogBuffer.Flush`: uses the same untruncated record size as
  `UlogBuffer.StepSpec`.
- `UlogBuffer.FlushAligned`: uses the same untruncated record size as
  `UlogBuffer.StepSpec`.
- `Forwarder.HandleRead`: requires fewer than 10 endpoints, because the
  array of 10 is null-terminated.
- `LogEndpoint.ScanShort`: follows glibc's `%hu` with a 64-bit
  `unsigned long`, and treats whitespace as `isspace` does in the C
  locale.
- `UlogEngine.DataProcess`: requires that a resuming offset lies within
  the chunk's data (`OffsetFits`). Line 401 of ulog.cpp subtracts it
  unchecked, and a larger offset would wrap the 8-bit length.
- The bytes of the physical 2048-byte buffer outside the window. They are
  never read, so only the window is kept. `UlogBuffer.Memmove` shows
  compaction on the physical buffer.

## Findings

| source | as written | input that shows it | evidently intended | confidence | as-written member | corrected member |
|---|---|---|---|---|---|---|
| ulog.cpp:424-434 | `full_msg_size` is a `uint16_t`, so `msg_size + 3` wraps to 0, 1 or 2 for `msg_size` 65533-65535. With 0, `write(fd, p, 0)` returns 0, which equals the size, so the loop "consumes" nothing and repeats forever. | A LOGGING_DATA stream whose next record header is `FD FF` (`msg_size` 65533) | Compute the record size without truncation, so that every iteration that continues consumes at least one whole record | not executed | `UlogBuffer.WrappedRecordSizeNoProgress` | `UlogBuffer.RecordLoopProgress` |
| logendpoint.cpp:101-107 | When `_get_prefix` fails, the local `uint16_t i` is never assigned, and the candidate loop starts from whatever the stack holds. | A log directory that can be written but not listed (mode 0300): `opendir` fails while `open` would succeed | Start from index 0 when the directory cannot be scanned | not executed | `LogEndpoint.UninitialisedIndexDecides` | `LogEndpoint.GetFile` |
| logendpoint.cpp:118-119 | The log file is opened with O_CREAT and O_TRUNC but not O_EXCL, so `open` never fails with EEXIST. The retry on EEXIST (line 129) is dead, and a file that already exists is truncated, which the message at line 135 says the loop should avoid. | The prefix is 999 and `999-<time>.<ext>` of the current second exists, or the directory cannot be listed and `000-<time>.<ext>` exists | Open with O_EXCL so that an existing file moves the loop to the next index | not executed | `LogEndpoint.TruncatesExisting` | `LogEndpoint.ExclusiveOpenIsNew` |
