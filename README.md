# genbuf core, modelled in Dafny

genbuf is a line relay. Sources hand it bytes. Each stream source frames its
bytes into newline-terminated records in a fixed-size circular buffer; a
datagram source turns each datagram into one record. A reader thread polls
every registered source with `select` and pushes each record onto a message
queue. The queue is a chain of 1000-slot segments, and a message can be put
back at its front. A logger thread pops the records and delivers each one to
the single destination, a TCP peer or a file, through a connection state
machine and a bounded-retry loop. While the destination is down, it parks
records in a backlog file and reads them back in order.

This project models that pipeline. Each piece is modelled as the C code does
it: classes whose methods change fields in place, arrays where the C code
uses buffers, and loops with their invariants.

- **Records.** `Bytes` gives a record's shape: a line, its newline, then a NUL.
- **Framing.** `Framing.Lines` and `Framing.Rest` say which lines a byte
  stream holds and which bytes are left over.
- **Framing buffer.** `InputBuffers.InputBuffer` is `struct input_buffer`:
  - an `array` of bytes;
  - `current`, `border`, `available` and `write` as offsets and counters;
  - `Validates` is the integrity test of `input_buffer_validate`, and the buffer's `Validate` applies it to its fields;
  - the ghost `Pending()` is the unread bytes in ring order.
- **Stream read step.** `InputTools.InputHandler.Read` is the stream-source
  read step as written, with the `is_ready`/`is_err`/`is_eof` states and the
  line-purge that can leave the read position on the buffer's end.
  `InputTools.InputHandler.ReadFixed` is the same step with the corrected
  purge. `InputUdp.UdpRead` is the datagram read step.
- **Message queue.** `Queues.Queue` is the segmented queue. Its segments are
  an array chain, and the ghost `Contents` holds the messages in order.
- **Reader.** `Readers.Reader` is the source registry and the dispatch loop.
- **Destinations.** `Destinations.Destination` is an output handler with its
  connect, disconnect, timeout and resumable write.
- **Delivery loop.** `Delivery.Deliver` is `deliver_message`.
- **Logger.** `Loggers.Logger` is the logger:
  - the backlog file becomes a sequence of lines;
  - `logger_run`'s two handles become flags;
  - the ghost `Out` holds every message delivered;
  - the ghost `Pending()` holds every message still to go out, in order.
- **Small parsers.** `NetTools` covers the host/port parser and the address
  built from it. `Options` covers the type keyword and the `-v` cap.

The system's answers are parameters of the operations that meet them:

- what `ioctl`, `read`, `recv`, `select`, `fcntl`, `connect`, `open`, `close`,
  `write`, `fopen` and `fputs` answer;
- what the host lookup answers;
- the status each input handler's read returns.

Shared constants follow the source:

- `REALLOC_SIZE` is 1000;
- `GENCACHE_MAX_MSG_SIZE` is 1000000;
- `HANDLERS_STEPPING` is 8;
- the retry budget is 3;
- the errno values are Linux's.

## Model

| member | source | states |
|---|---|---|
| `Bytes.FirstIndex` | input_buffer.c:115 | the offset `memchr` finds: at most the length, and when below it the byte there is the one sought |
| `Bytes.FirstIndexIsFirst` | input_buffer.c:115 | no byte before that offset is the one sought, so it is the first occurrence |
| `Bytes.FirstIndexFound` | input_buffer.c:118 | the search stops short of the end exactly when the byte occurs |
| `Bytes.FirstIndexConcat` | input_buffer.c:114-136 | searching the tail and then the head finds the first occurrence in the tail followed by the head |
| `Bytes.CStrLen` | output.c:20 | `strlen`: the bytes before it hold no NUL, and the byte at it, when there is one, is NUL |
| `Bytes.RecordStrLen` | output.c:20 | on a record, `strlen` counts everything up to and including the newline, leaving out the NUL |
| `Framing.LinesRoundTrip` | input_tools.c:123-128 | the records extracted from a byte stream, without their NULs, followed by the leftover bytes, give back the stream |
| `Framing.RestHasNoNewline` | input_tools.c:123-128 | once extraction stops, no newline is left in the buffer |
| `Framing.LinesEndInNewline` | input_buffer.c:259-296 | every extracted record ends in a newline and then a NUL |
| `Framing.LinesChunked` | input_tools.c:104-128 | extracting after each read gives the same records, in the same order, as extracting once from all the bytes |
| `Framing.LinesStep` | input_buffer.c:248-296 | the first record is the bytes up to the first newline plus a NUL, and the rest are those of what follows |
| `Framing.RestStep` | input_buffer.c:248-296 | taking a line leaves the same leftover bytes |
| `Framing.LinesNone` | input_buffer.c:248-256 | with no newline there are no lines, and every byte is left over |
| `Framing.Kept` | input_udp.c:78-92 | keeps, in order, the lines without a NUL before their end, and all of them when none holds one |
| `Framing.LinesNulFree` | input_buffer.c:259-281 | bytes without a NUL frame into lines without a NUL before their end |
| `Framing.KeptRecords` | input_udp.c:78-92 | getline's lines, once those holding a NUL are dropped, are records |
| `Framing.RecordLines` | input_tools.c:122-128 | the corrected stream framing: every line reported is a record, and bytes without a NUL frame exactly as written |
| `InputBuffers.Validates` | input_buffer.c:158-185 | the integrity test of input_buffer_validate, branch for branch. With `border` inside the buffer, a buffer that passes has `write` within the room from `current` to the end, and `available` between `write` and the buffer's size |
| `InputBuffers.RingLength` | input_buffer.c:160-173 | under the integrity test, the unread bytes number `size - available`, and `write` fits between `current` and the end |
| `InputBuffers.UpdateCounters` | input_buffer.c:45-62 | an update of `n` bytes within `write` keeps the integrity test, except when `border` sits at the end and the read fills the buffer |
| `InputBuffers.UpdateRing` | input_buffer.c:47-53 | the bytes written at `current` join the unread bytes at their end |
| `InputBuffers.FillRing` | input_tools.c:55 | bytes written at `current` leave the unread bytes as they were |
| `InputBuffers.TakeRing` | input_buffer.c:262-293 | after getline's arithmetic on a line of `len` bytes, the unread bytes are the old ones without their first `len` |
| `InputBuffers.LineRing` | input_buffer.c:262-281 | the line is the bytes from `border`, joined across the end when it wraps |
| `InputBuffers.PurgeRunRing` | input_buffer.c:213-231 | a non-wrapping purge drops exactly the purged bytes from the unread ones |
| `InputBuffers.PurgeWrapBreaks` | input_buffer.c:215-217 | a purge that wraps sets `border` below the start, and the integrity test fails |
| `InputBuffers.Memchr` | input_buffer.c:115 | the loop finds the first occurrence of the byte in the range, or the range's length |
| `InputBuffers.Put` | input_tools.c:55 | the bytes land at the offset, and the rest of the array is unchanged |
| `InputBuffers.Copy` | input_buffer.c:266-273 | `memcpy`: the destination range holds the source range, and the rest is unchanged |
| `InputBuffers.CopyRun` | input_buffer.c:270-281 | a line in one piece is copied into a fresh array, followed by a NUL |
| `InputBuffers.CopySplit` | input_buffer.c:262-269 | a wrapping line is copied tail first, then head, followed by a NUL |
| `InputBuffers.InputBuffer.PendingLength` | input_buffer.c:160-173 | a valid buffer holds `size - available` unread bytes |
| `InputBuffers.InputBuffer.LostEmpty` | input_buffer.c:157-185 | the broken state left by a filling read after a purge to the end fails the integrity test and shows no unread byte |
| `InputBuffers.InputBuffer.constructor` | input_buffer.c:19-43 | offsets at the start, `available == write == size`, nothing unread, and the integrity test holds |
| `InputBuffers.InputBuffer.Fill` | input_tools.c:55 | bytes received at `current` leave the state valid and the unread bytes unchanged |
| `InputBuffers.InputBuffer.Update` | input_buffer.c:45-67 | `current` advances by `n`, wrapping only at the end; `available` drops by `n`; `write` is recomputed from the order of the offsets; the integrity test holds iff `border` was not at the end of a filling read, and when it fails the buffer is in the one broken state `Lost`; when it holds, the new bytes join the unread ones |
| `InputBuffers.InputBuffer.Find` | input_buffer.c:81-156 | -1 exactly when no unread byte is the one sought, empty buffer included; otherwise one more than its first offset among the unread bytes |
| `InputBuffers.InputBuffer.FindAcross` | input_buffer.c:96-136 | with the unread bytes split across the end, the tail is searched before the head, with the same result as one search |
| `InputBuffers.InputBuffer.CopyOut` | input_buffer.c:259-281 | the line is a fresh array holding the first `len` unread bytes and a NUL |
| `InputBuffers.InputBuffer.Consume` | input_buffer.c:262-293 | `border` advances by `len`, wrapping back to the start; `available` grows by `len`; `write` is recomputed; the state stays valid; the unread bytes lose their first `len` |
| `InputBuffers.InputBuffer.GetLine` | input_buffer.c:240-303 | NULL with every field unchanged iff no newline is unread, which is always so in the broken state; otherwise a fresh line of the bytes up to the first newline, newline included, then a NUL; the buffer advances past that line and stays valid |
| `InputBuffers.InputBuffer.Clear` | input_buffer.c:199-203 | offsets at the start, the whole buffer free, nothing unread |
| `InputBuffers.InputBuffer.Discard` | input_buffer.c:212-231 | purgeline's arithmetic as written: `border` moves by `len` and, past the end, to the start minus the overflow; valid with the line dropped when no wrap happens, invalid when it does |
| `InputBuffers.InputBuffer.PurgeLine` | input_buffer.c:187-238 | as written: TRUE iff a newline is unread; without one the buffer is emptied; with one, `available` grows by the line's length and `border` moves as purgeline moves it |
| `InputBuffers.InputBuffer.PurgeLineFixed` | input_buffer.c:187-238 | corrected purge: TRUE iff a newline is unread; without one the buffer is emptied; with one, exactly that line is dropped, wrapping as getline wraps; the state stays valid |
| `BufferFindings.FillEmpty` | input_tools.c:55-104 | reading 4 bytes into an empty 4-byte buffer leaves them all unread and the buffer full |
| `BufferFindings.ReadAndTakeLine` | input_tools.c:55-128 | reading `a`, newline, `b` into a 4-byte buffer and taking one line leaves `b` unread, with `border` at 2 |
| `BufferFindings.PurgeAtEndHidesLine` | input_buffer.c:214 | a line purged from a buffer whose end it reaches leaves `border` at the end; after the next read fills the buffer, `find` reports no line though a newline is unread |
| `BufferFindings.PurgeAtEndFixedFindsLine` | input_buffer.c:187-238 | with the corrected purge the same reads find that line |
| `BufferFindings.Prepare` | input_buffer.c:45-67 | a buffer whose unread bytes `b`, `c`, newline run from offset 2 across the end |
| `BufferFindings.PurgeAcrossEndBreaksBuffer` | input_buffer.c:217 | purging that line as written leaves a buffer that fails the integrity test |
| `BufferFindings.PurgeAcrossEndFixedKeepsBuffer` | input_buffer.c:213-231 | purging it with the corrected arithmetic keeps the integrity test |
| `InputTools.Resync` | input_tools.c:108-120 | while discarding, a purge keeps what follows the first newline, or nothing |
| `InputTools.LinesAdvance` | input_tools.c:123-128 | taking one more line keeps the lines reported plus those still in the buffer equal to the lines of the bytes at the start |
| `InputTools.InputHandler.constructor` | input_tools.c:183-217 | state `is_ready`, a fresh empty buffer of `GENCACHE_MAX_MSG_SIZE` bytes |
| `InputTools.InputHandler.Read` | input_tools.c:17-140 | as written. -1 iff the source ends `is_eof`. At `is_eof` nothing changes. A failed or empty probe, a fatal error or a zero-byte read give -1 with nothing reported. EAGAIN/EINTR give 0 with nothing changed. Bytes read are absorbed as `Absorb` states: reported as `Framing.Lines` of the unread bytes plus the new ones, except that when the read position stood on the end and the read fills the buffer, nothing is reported and the source starts discarding with its buffer empty. A discarding source whose full read ends in its newline is left with the read position on the end. A source left ready has its write position moved past the bytes read |
| `InputTools.InputHandler.ReadFixed` | input_tools.c:17-140 | with the corrected purge: the same answers, and the read position stays inside the buffer, so the bytes of every read are absorbed: the discarded prefix dropped, the complete lines reported in order, and the partial line kept or, when it fills the buffer, dropped with the source discarding |
| `InputTools.InputHandler.Receive` | input_tools.c:24-105 | the probe and the read: -1 iff the source ends `is_eof`; bytes are returned iff the read returned some, and then exactly those, never more than the room to write |
| `InputTools.InputHandler.Absorb` | input_tools.c:104-136 | as written: a discarding source first drops up to its first newline (or everything); the complete lines are reported in order; a buffer left full of one partial line is emptied and the source starts discarding. When the read position stood on the end and the bytes fill the buffer, nothing is reported and everything unread is dropped |
| `InputTools.InputHandler.AbsorbFixed` | input_tools.c:104-136 | the same with the corrected purge: the outcome is always the resynchronised lines and rest of the unread bytes plus the new ones, and the read position stays inside the buffer |
| `InputTools.InputHandler.Accept` | input_tools.c:104 | the write position advances past the bytes read; they join the unread bytes, unless the read position is on the end and they fill the buffer, which leaves the broken state |
| `InputTools.InputHandler.Resynchronise` | input_tools.c:108-120 | as written: TRUE iff a newline was unread; the buffer keeps what follows it; the state becomes `is_ready` with the read position just past the newline, on the end when the newline is the buffer's last byte, or stays `is_err` with an empty buffer |
| `InputTools.InputHandler.ResynchroniseFixed` | input_tools.c:108-120 | with the corrected purge: the same outcome, and the read position stays inside the buffer |
| `InputTools.InputHandler.Extract` | input_tools.c:123-136 | reports exactly the complete lines; when the partial line left fills the buffer, the state becomes `is_err` and the purge empties it, so room is always left; from the broken state nothing is reported and the buffer is emptied |
| `InputTools.InputHandler.ReportLines` | input_tools.c:123-128 | the loop reports exactly the lines of the unread bytes, in order, and leaves the remainder, which holds no newline; the write position does not move, and the read position only moves when a line is reported |
| `InputTools.InputHandler.NextLine` | input_tools.c:123-128 | one getline: at NULL the reported lines are complete, and otherwise the loop's invariant holds with fewer unread bytes |
| `InputFindings.ReadOversized` | input_tools.c:130-136 | a full read without a newline reports nothing and sets the source discarding with an empty buffer |
| `InputFindings.ReadOversizedFixed` | input_tools.c:130-136 | with the corrected purge the same read has the same outcome |
| `InputFindings.ReadTail` | input_tools.c:108-119 | as written, the rest of that line ending on the buffer's last byte makes the source ready with its read position on the end |
| `InputFindings.ReadTailFixed` | input_tools.c:108-119 | with the corrected purge, the same read leaves an empty buffer with room for a full read |
| `InputFindings.LineLostAfterPurgeAtEnd` | input_buffer.c:214 | as written, a third full read opening with the line `de` reports nothing and the source is discarding again |
| `InputFindings.ReadNextFixed` | input_tools.c:122-128 | with the corrected purge, a full read opening with the line `de` into the emptied buffer reports `de` and keeps the rest |
| `InputFindings.LineKeptWithFixedPurge` | input_buffer.c:213-231 | with the corrected purge, the same three reads report `de` and keep the rest of the third read |
| `InputFindings.NulLineReported` | input_tools.c:122-128 | as written, the stream bytes `a`, NUL, `b`, newline are reported as one line that is no record and whose `strlen` is 1; the corrected framing reports nothing |
| `InputUdp.FramedDropped` | input_udp.c:79-92 | a datagram is dropped exactly when a NUL comes before some other byte |
| `InputUdp.FramedIsRecord` | input_udp.c:95-125 | a kept datagram becomes a record: its bytes up to the first NUL, a newline unless it already ends in one, then a NUL |
| `InputUdp.Trailer` | input_udp.c:110-125 | the trailer adds a newline only when the last kept byte is not one, then a NUL |
| `InputUdp.Keep` | input_udp.c:79-128 | the NUL check, the cut and the trailer give the datagram's record, or drop it |
| `InputUdp.UdpRead` | input_udp.c:27-132 | at `is_eof`, -1. EAGAIN/EINTR give 0 and other failures -1. A zero-length datagram gives -1 and `is_eof`. A truncated one gives 0 with nothing reported. Otherwise 0 with exactly its record reported. The buffer's counters never change |
| `Queues.JoinIndex` | buffer.h:11-14 | slot `i` of segment `k` is message `1000 * k + i` of the chain |
| `Queues.LayoutPush` | buffer.c:30-37 | a message stored at `endindex` joins the contents at the back, and a filled segment is followed by a fresh one |
| `Queues.LayoutPop` | buffer.c:86-95 | the front message is the one at `headindex`, and advancing past it leaves the rest |
| `Queues.LayoutPutBack` | buffer.c:64-66 | a message stored before `headindex` joins the contents at the front |
| `Queues.LayoutNewHead` | buffer.c:54-66 | with `headindex` at 0, a fresh segment goes in front and the message takes its last slot |
| `Queues.Queue.constructor` | buffer.c:114-135 | one segment, `headindex == endindex == 0`, count 0, empty contents |
| `Queues.Queue.Push` | buffer.c:23-45 | the message joins the back; `endindex` advances; a new segment is chained when it reaches 1000 |
| `Queues.Queue.Store` | buffer.c:30-32 | the message goes into slot `endindex` of the last segment and the count grows |
| `Queues.Queue.Chain` | buffer.c:33-37 | a full last segment gets a fresh successor and `endindex` resets to 0 |
| `Queues.Queue.Pop` | buffer.c:76-103 | with a message queued, returns the front one and removes it; the head segment is dropped when `headindex` reaches 1000 |
| `Queues.Queue.Unpop` | buffer.c:47-74 | the message becomes the front, the rest keep their order, and a fresh head segment is added when `headindex` is 0 |
| `Queues.Queue.PutBack` | buffer.c:64-66 | with room in the head segment, the message goes just before `headindex` |
| `Queues.Queue.PutBackNewHead` | buffer.c:54-62 | with no room, a fresh segment is prepended and the message takes its last slot |
| `Queues.Queue.Size` | buffer.c:105-112 | the semaphore's value is the number of messages queued |
| `Queues.Queue.FreeRun` | buffer.c:157-161 | the inner loop frees the slots from `index` up to `end` |
| `Queues.Queue.Cleanup` | buffer.c:137-171 | as written: frees all messages of a one-segment queue, but only the head segment's otherwise; fewer than all are freed iff messages lie beyond the head segment |
| `Queues.Queue.CleanupFixed` | buffer.c:137-171 | corrected: frees exactly the queued messages, in order |
| `QueueFindings.UnpopThenPop` | buffer.c:47-103 | a message put back is the next one taken, and the queue is as before |
| `QueueFindings.Filled` | buffer.c:23-45 | pushing `0` to `n - 1` queues them in push order |
| `QueueFindings.CleanupLeaks` | buffer.c:162 | 1001 queued messages, of which the cleanup as written frees 1000 |
| `QueueFindings.CleanupFixedFreesAll` | buffer.c:146-166 | the corrected cleanup frees all 1001 |
| `Readers.MaxFdIsMax` | reader.c:136-141 | `n` bounds every registered descriptor and, when positive, is one of them |
| `Readers.Close` | reader.c:71-79 | the `memmove` drops the entry at `index` and keeps the others in order |
| `Readers.CopyEntries` | reader.c:29 | `realloc` keeps the registered entries |
| `Readers.Reader.constructor` | reader.c:207-226 | no sources, an empty descriptor set, the given queue |
| `Readers.Reader.AddSource` | reader.c:20-55 | when the array grows, `(fd, handler)` is appended; when it cannot, the handler is cleaned up and the registry is unchanged |
| `Readers.Reader.RemoveHandler` | reader.c:57-90 | the entry at `index` leaves the registry; the others keep their order; its descriptor leaves the set; its cleanup runs once |
| `Readers.Reader.Pass` | reader.c:103-131 | as written: the ready sources are read in order; the first whose status is not 0 is removed and the scan ends there, to start over; without one, nothing is removed |
| `Readers.Reader.ReadAt` | reader.c:106-129 | one step of that scan: a ready source is read, and a status other than 0 removes it |
| `Readers.Reader.PassOnce` | reader.c:103-131 | corrected: every source ready at the start is read exactly once, in order; the entries kept are exactly those whose read answered 0, in their order, and the handlers cleaned up are exactly the others, in order |
| `Readers.Reader.ScanOne` | reader.c:104-130 | one entry of the corrected scan keeps the scan's bookkeeping |
| `Readers.Reader.Visit` | reader.c:106-129 | the source at `i` is read when its descriptor is set, and a status other than 0 removes it |
| `Readers.Reader.Rebuild` | reader.c:133-141 | the descriptor set becomes exactly the registered descriptors, and `n` their maximum |
| `Readers.Reader.Recover` | reader.c:151-174 | after EBADF, the first registered descriptor `fcntl` rejects is removed; if none is, nothing changes |
| `Readers.Reader.Run` | reader.c:92-177 | returns iff the registry is empty; the set is the registered descriptors; a failure end carries the errno `select` gave. That is the cause of the failure, not the value SysErr logs at reader.c:176, which is 0 after an EBADF scan that removes nothing (reader.c:154). Every removal cleans up one handler |
| `Readers.Reader.Restarts` | reader.c:96-131 | a pass that removes a source restarts the scan; one that removes none leaves the registry as it was |
| `Readers.Reader.RunFixed` | reader.c:92-177 | the same loop with the corrected pass, with the same guarantees |
| `Readers.Reader.Selecting` | reader.c:149-174 | readiness narrows the set to the ready descriptors; a failure goes to recovery, which reruns only after removing a source |
| `Readers.Reader.ReportData` | reader.c:179-184 | a record joins the back of the queue |
| `Readers.Reader.Cleanup` | reader.c:186-205 | every registered handler is cleaned up in order, then the end marker joins the queue |
| `Readers.Reader.CleanupHandlers` | reader.c:190-194 | the loop cleans up each registered handler once, in order |
| `ReaderFindings.RereadAfterRemoval` | reader.c:119 | two ready sources, the second at end of file: the as-written loop reads sources 1, 2, then 1 again after one `select` |
| `ReaderFindings.ReadOnceAfterRemoval` | reader.c:104-131 | with the corrected pass the same sources are read once each |
| `Destinations.Taken` | output_tools.c:31-40 | a write never takes more than asked, and takes less than nothing only on failure |
| `Destinations.AttemptStops` | output_tools.c:34-56 | the write loop stops short only at a write that took nothing |
| `Destinations.AttemptCompletes` | output_tools.c:34-48 | when every write takes a byte or more, the message goes out in full |
| `Destinations.Destination.Common` | output_tools.c:106-131 | disconnected on `fd`, no error, a retry budget of 3 |
| `Destinations.Destination.TcpInit` | output_tcp.c:115-131 | a disconnected TCP destination without a socket |
| `Destinations.Destination.FileInit` | output_file.c:83-92 | as written: fd 1 for `-` and -1 otherwise, with the state already `ready` |
| `Destinations.Destination.FileInitFixed` | output_file.c:83-92 | corrected: the same fd, left `disconnected` so that the first delivery opens the file |
| `Destinations.Destination.Write` | output_tools.c:17-79 | each write resumes at `strlen - todo`, so the kernel takes the next bytes of the message in order; TRUE iff `todo` reaches 0, then `ready`; otherwise errno 0 or EAGAIN gives `sending`, and anything else `error` |
| `Destinations.Destination.TcpConnect` | output_tcp.c:23-81 | from disconnected, a new socket first. The address comes from the corrected net_get_socketaddr: an invalid resource, or a host whose lookup gives no entry or no usable address, gives `error`/FALSE with the errno left behind. Otherwise success or EISCONN gives `ready`/TRUE; EAGAIN, EINPROGRESS or EALREADY give `connecting`/TRUE; other errors give `error`/FALSE |
| `Destinations.Destination.Call` | output_tcp.c:42-80 | the steps after the socket exists: no address gives `error`/FALSE with the errno left behind; then `connect` decides as in TcpConnect; the descriptor is kept |
| `Destinations.Destination.TcpDisconnect` | output_tcp.c:83-105 | always `disconnected` with fd -1, and TRUE iff `close` succeeded |
| `Destinations.Destination.TcpTimeout` | output_tcp.c:107-113 | disconnects and returns FALSE |
| `Destinations.Destination.FileConnect` | output_file.c:18-46 | standard output becomes `ready` without an open; a failed open records errno and stays `disconnected`; a successful one gives `ready` |
| `Destinations.Destination.FileDisconnect` | output_file.c:48-81 | standard output stays `ready`; a failed close sets fd -1 and keeps the state; a successful one gives `disconnected` |
| `Destinations.Destination.Connect` | output_tcp.c:126 | the connect callback of the destination's kind; it ends `ready` exactly when the link comes up |
| `Destinations.Destination.Disconnect` | output_tcp.c:127 | the disconnect callback of the destination's kind |
| `Destinations.Destination.Timeout` | output_tcp.c:128 | a TCP destination disconnects and reports FALSE; a file destination keeps the default callback, which changes nothing and reports TRUE |
| `Destinations.Destination.Cleanup` | output_tools.c:92-103 | disconnects iff the state is not `disconnected` |
| `Delivery.Step` | output.c:24-116 | one round of the retry loop: it connects when disconnected, then acts on what `select` answers. A failure gives 0 with nothing sent. A timeout costs a retry. Activity while `ready` or `sending` resets the budget to 3 and writes. The round ends in error exactly when the write fails, the connect fails from `disconnected`, or the state was already `error`; an error costs one more retry and a TCP destination disconnects |
| `Delivery.Deliver` | output.c:12-122 | the kernel takes a prefix of the message, all of it iff 1 is returned. With no budget, 0 and nothing sent. A destination that no round can move never delivers. Without activity the budget runs out. A first round that connects, is selected and writes everything delivers |
| `DestinationFindings.NamedFileNeverDelivers` | output_file.c:87 | a destination for a named file never delivers, whatever the system answers |
| `DestinationFindings.NamedFileFixedDelivers` | output_file.c:83-92 | with the corrected init the same destination delivers in its first round |
| `DestinationFindings.FailedConnectCostsTwo` | output.c:26-116 | a TCP destination whose host lookup gives an entry without an address, in a round that times out, ends the round `Again` with one retry of three left: one for the timeout, one for the error |
| `Loggers.ValuesSplit` | logger.c:39-67 | the messages of a queue cut in two are those of the front, then those of the back |
| `Loggers.Conserved` | logger.c:39-67 | whatever logger_write_backlog returns, the messages written, then those left (an end marker taken aside), are the queue's messages |
| `Loggers.Shift` | logger.c:43-66 | one pass pops the front item and writes it; it stops on the end marker or a failed write, and a failed message is put back at the front |
| `Loggers.Move` | logger.c:40-67 | one pass of the loop keeps its invariant: the first `i` items were messages written in order |
| `Loggers.Transfer` | logger.c:27-70 | pops at most the size seen on entry; 0 when all were written, -1 with the failed message back at the front, -2 after the end marker; the messages written are those popped before the stop, in order |
| `Loggers.RecordsRemain` | logger.c:116 | messages still pending after some went out are still records |
| `Loggers.Logger.constructor` | logger.c:320-341 | a logger on the queue, with no destination and no backlog file |
| `Loggers.Logger.UseBacklog` | main.c:271-272 | the backlog file gets a name, with whatever lines the file already holds |
| `Loggers.Logger.SetDestination` | logger.c:13-25 | requires that no destination is set, then records it |
| `Loggers.Logger.Take` | logger.c:112 | an empty queue leaves the logger waiting; otherwise its front message comes into hand |
| `Loggers.Logger.Start` | logger.c:88-113 | the first line of an existing backlog comes into hand first; otherwise the first queued message does; no message is lost or added |
| `Loggers.Logger.Sent` | logger.c:126-177 | the message in hand counts as delivered. The next comes from the backlog while lines remain. At its end both handles close and the file is emptied. Then, or with no backlog, the queue's front comes next, and delivered plus pending is unchanged |
| `Loggers.Logger.Handed` | logger.c:128-131 | the message in hand joins the delivered ones |
| `Loggers.Logger.Advance` | logger.c:133-177 | the next message is chosen as after a delivery, and the pending messages keep their order |
| `Loggers.Logger.NextLine` | logger.c:133-171 | the next backlog line comes into hand and the append handle closes; at end of file both close and the lines are dropped |
| `Loggers.Logger.WriteBacklog` | logger.c:27-70 | the popped messages append to the backlog lines in pop order, so unread lines plus queue are unchanged; -2 closes the append handle |
| `Loggers.Logger.Drain` | logger.c:203-223 | a failed write closes the append handle; the end marker closes both and finishes; when every write succeeds, the whole queue moves to the backlog |
| `Loggers.Logger.OpenBacklog` | logger.c:238-249 | the append handle opens when the file system allows it, and the read handle finds the file once it exists |
| `Loggers.Logger.Reread` | logger.c:289-297 | the first unread backlog line comes into hand |
| `Loggers.Logger.Stage` | logger.c:252-263 | the message in hand becomes the fresh backlog's first line |
| `Loggers.Logger.Record` | logger.c:252-297 | the message in hand goes to the backlog first, then the queue, and the first backlog line comes back into hand |
| `Loggers.Logger.Spill` | logger.c:227-300 | as written: a failed first write puts the message back on the queue and also keeps it in hand, so it is pending twice; otherwise as the corrected branch |
| `Loggers.Logger.SpillFixed` | logger.c:227-300 | corrected: without a named or openable backlog, or when the write fails, the message stays in hand and the queue is untouched; otherwise it becomes the first backlog line; nothing is lost or repeated |
| `Loggers.Logger.Reopen` | logger.c:183-226 | as written: with the append handle closed, a failed reopen aborts; a successful one retries without draining the queue; with it open, the queue is drained |
| `Loggers.Logger.ReopenFixed` | logger.c:183-226 | corrected: a failed reopen only retries; once the append handle is open the queue is drained into the backlog, in order |
| `Loggers.Logger.Flush` | logger.c:203-223 | the drain only appends to the backlog's lines, and moves the whole queue when every write succeeds |
| `Loggers.Logger.Undelivered` | logger.c:179-301 | as written: it aborts exactly on a failed reopen, and a failed first write duplicates the message |
| `Loggers.Logger.UndeliveredFixed` | logger.c:179-301 | corrected: the failure branch never loses, adds or aborts |
| `Loggers.Logger.Cleanup` | logger.c:307-318 | the destination, if any, is cleaned up |
| `Loggers.Logger.Serve` | logger.c:116-302 | one pass of `while (msg)` with the corrected failure branch `UndeliveredFixed`: `error` exits; delivered plus pending is unchanged; messages only ever join the delivered ones |
| `Loggers.Logger.Run` | logger.c:72-305 | starting as logger_run does, the messages delivered followed by those pending always equal the pending ones at the start; waiting means nothing is left; exit means the destination is in `error` |
| `LoggerFindings.Started` | logger.c:88-113 | a logger with a named backlog and a destination, started on an empty queue |
| `LoggerFindings.SpillDuplicates` | logger.c:252-259 | as written, a failed first write leaves the same record in hand and at the front of the queue |
| `LoggerFindings.SpillFixedKeepsOne` | logger.c:252-259 | corrected, the record is in hand only |
| `LoggerFindings.ReopenAborts` | logger.c:195 | as written, failing to reopen the backlog stops the logger |
| `LoggerFindings.ReopenSkipsDrain` | logger.c:195-200 | as written, a successful reopen leaves the queued record in the queue |
| `LoggerFindings.ReopenFixedRetries` | logger.c:188-201 | corrected, a failed reopen only retries |
| `LoggerFindings.ReopenFixedDrains` | logger.c:188-223 | corrected, a successful reopen moves the queued record into the backlog |
| `NetTools.Clamp` | net_tools.c:34 | a value out of the range of `long` becomes the nearest bound |
| `NetTools.Strtol` | net_tools.c:34 | `strtol` base 10 (section 7.22.1.4 of ISO C11): the value is a `long`, nothing is read when no digit is found, and the end pointer follows the last digit |
| `NetTools.StrtolSubject` | net_tools.c:34 | on white space, a sign and digits, `strtol` gives the clamped signed value and ends after the digits |
| `NetTools.StrtolNoDigits` | net_tools.c:34 | without a digit after the white space and sign, the value is 0 and the end pointer stays at the start |
| `NetTools.StrtolNumeral` | net_tools.c:34 | `strtol` reads back the decimal numeral of any `long` |
| `NetTools.ToInt` | net_tools.c:34 | the `long` to `int` conversion is modulo 2^32, and identity in range |
| `NetTools.LastIndex` | net_tools.c:23 | `rindex`: the last occurrence, or none |
| `NetTools.PortText` | net_tools.c:23-34 | the port text is what follows the last colon, or all of the resource |
| `NetTools.ParseResourceSpec` | net_tools.c:18-38 | a host exactly when a colon occurs, the text before the last one; the port is `strtol` of the port text; accepted iff the end pointer reaches the end of that text |
| `NetTools.SpecAccepted` | net_tools.c:37 | the port text is accepted iff it is empty or wholly one number |
| `NetTools.HostAndPort` | net_tools.c:18-38 | `host:port` with a decimal port parses to that host and port |
| `NetTools.PortOnly` | net_tools.c:24-34 | a bare numeral is a port with no host |
| `NetTools.EmptyPortAccepted` | net_tools.c:34-37 | an empty port text is accepted as port 0 |
| `NetTools.TrailingTextRejected` | net_tools.c:37 | anything after the digits makes the resource invalid |
| `NetTools.Htons` | net_tools.c:55 | the port taken modulo 2^16, most significant byte first |
| `NetTools.GetSocketAddr` | net_tools.c:40-79 | invalid iff the parse fails. With no host, INADDR_ANY. With one, the host goes to the lookup. Either way AF_INET and the port in network order |
| `NetTools.ListenOnPort` | net_tools.c:54-76 | a bare 16-bit port binds INADDR_ANY on that port |
| `NetTools.SocketAddr` | net_tools.c:39-80 | as written, given the lookup's answer: an invalid resource gives FALSE; no host gives INADDR_ANY; with a host, an entry without an address or with a length other than 4 gives FALSE, a usable entry gives its first address, and no entry at all reads through NULL; the family and port are those of the parse |
| `NetTools.SocketAddrFixed` | net_tools.c:57-70 | corrected: no entry gives FALSE as an unusable one does; FALSE exactly when the resource is invalid or a host has no usable entry; every other answer as written |
| `NetTools.UnknownHostReadsNull` | net_tools.c:59-63 | the resource `example:1` with a host that does not resolve reads through NULL as written, and gives FALSE when corrected |
| `Options.StrCaseCmp` | main.c:92-99 | `strcasecmp` is 0 exactly when the strings are equal up to ASCII case |
| `Options.ParseType` | main.c:90-102 | `file`, `udp`, `tcp` and `unix`, in any case, map to their types, and anything else is unknown |
| `Options.ParseKeyword` | main.c:92-99 | each keyword, in any mix of cases, gives its own type |
| `Options.ParseCaseBlind` | main.c:92-101 | the type depends only on the letters, not on their case |
| `Options.Raise` | main.c:197-198 | one `-v` raises the level unless it is `debug` |
| `Options.VerbosityCapped` | main.c:176-198 | after `n` occurrences of `-v` from `impossible`, the level is `min(n, debug)` |

## Left out

- Threads are left out: mutexes, cancellation states, `pthread_testcancel`, thread start and join, and signals. The queue is sequential, and the blocking `pop` becomes a precondition that a message is queued.
- Logging and diagnostics (`log.c`, `input_buffer_print`) are left out. `Require`/`Fatal` become preconditions or `assert false`.
- The transport setup and factory files are not part of this model: `input_tcp.c`, `input_unix.c`, `input_file.c`, `input_tcp_connection.c`, `setup.c`, `net_create_socket`, `net_create_listening_socket` and `net_get_protocol`. They only open descriptors and fill in callbacks.
- The stub destinations `output_udp.c` and `output_unix.c` are left out, and so are pidfile handling and `getopt` in `main.c`.
- Memory allocation failures are left out: every `malloc` succeeds. The one exception is `reader_add_source`'s `realloc`, whose outcome is a parameter. Freeing is modelled only where it states ownership: the queue cleanup returns the messages it frees.
- System calls are answers passed in, not calls, except for the three backlog calls listed below. Deliveries take `nat -> Written` and `nat -> Round`; the logger takes `nat -> Disk`; the reader takes a `select` script, a status oracle `(handler, read number) -> int` and the set of descriptors `fcntl` rejects.
- Clocks are left out: the 30- and 5-second `select` timeouts only appear as `SelectTimeout` answers.
- `NetTools.GetSocketAddr`: the DNS branch stops at `Resolve(host, …)`. `NetTools.SocketAddr` completes it from the answer of `gethostbyname2`, which is a parameter, not a call.
- `Destinations.Destination.TcpConnect`: it uses the corrected `NetTools.SocketAddrFixed`. As written, a host that does not resolve makes net_get_socketaddr read through NULL (see Findings); the model gives FALSE there instead.
- `Delivery.Deliver`: activity resets the retry budget (output.c:86), so the loop need not end. After `fuel` rounds the model reports `Again`.
- `Loggers.Logger.Run`: the logger's loop runs at most `fuel` passes, each delivery at most `dfuel` rounds. Running out ends with `Running`. An empty queue ends with `Waiting` where the logger would block on the reader.
- `Readers.Reader.Run`: `select`'s answers are a finite script. When it runs out, the loop ends with `Waiting`.
- `Readers.Reader.Run`: a failure end reports the errno of `select`, not the errno SysErr logs; after an EBADF scan that finds no bad descriptor the C logs 0.
- `Readers.Reader.RunFixed`: its corrected pass assumes distinct descriptors, as open sources have.
- `Loggers.Logger.Run`: it uses the corrected failure branch `UndeliveredFixed`; the as-written `Undelivered` is kept beside it.
- `Readers.Reader.Run`: it uses the as-written pass `Pass`, and `RunFixed` uses the corrected `PassOnce`.
- `Loggers.Logger.Run`: it requires every pending message to be a record (`Records(Pending())`). Datagram sources queue only records (`InputUdp.FramedIsRecord`), and so does the corrected stream framing `Framing.RecordLines`. As written, a stream line with a NUL inside is queued (see Findings). `strlen` and `fputs` then cut it at the NUL, so its delivery aborts on the missing newline (output_tools.c:28), or reads before the message when it starts with a NUL, and a spilled copy merges with the next backlog line. The model claims nothing for such lines.
- `Loggers.Logger.Serve`: it requires `Records(Pending())` for the same reason as `Loggers.Logger.Run`.
- `Loggers.Logger.Serve`: it uses the corrected failure branch `UndeliveredFixed`; the as-written `Undelivered` is kept beside it. As written, a pass whose first backlog write fails leaves the message both in hand and queued, and a failed reopen aborts, so conservation holds only for the corrected pass.
- `InputTools.InputHandler.Read`: it reports lines as written, NULs included. The corrected `Framing.RecordLines` is stated on the bytes, not built into the read step.
- `Loggers.Logger.Start`: it requires a destination, as `Fatal` at logger.c:86 aborts without one.
- `Options.ParseType`: it requires a C string (no NUL inside).
- `Destinations.Destination.Write`: the bytes taken are recorded in the ghost `Stream` once per call, not per `write`.
- `Bytes`: the model uses unbounded integers for offsets and counts. `GENCACHE_MAX_MSG_SIZE` is far below `INT_MAX`, so no C `int` wraps there.
- Each backlog line is one whole message. `getline` on the real file would split a datagram record with an interior newline into several lines.
- `Loggers.Logger.NextLine`: a failing `truncate` (logger.c:147-150) is only logged in the C, so lines already delivered stay in the file and would be read again. The model assumes the truncate succeeds and always drops the lines.
- `Loggers.Logger.OpenBacklog`: a failing read open (logger.c:240) after a successful append open leaves the C reading from a NULL handle at logger.c:289. The model assumes the read handle opens whenever the append handle has.
- `Loggers.Logger.Reread`: a failing `getline` at logger.c:289 is not modelled. The model assumes the line just written is read back.
- `Loggers.Logger.Drain`: after a -1 from logger_write_backlog, `ferror` is taken as set, so the append handle is closed.
- On the -2 path, logger_write_backlog's `fclose(backlog_out)` is followed by a second one in logger_run. Only the closed flags are modelled, not the double `fclose`.
- logger.c:190-194 (`backlog_file == NULL` while the read handle is open) is modelled as a branch. It is unreachable, since the read handle needs a named file.
- A connecting TCP destination is never selected (output.c:44-50), so a connect that answered EINPROGRESS is never completed. `Delivery.Deliver` proves that such a destination never delivers. When a TCP connect fails for good (no usable address, or a `connect` error other than EISCONN, EAGAIN, EINPROGRESS and EALREADY), a round moves to `error` and disconnects. That costs a retry for the timeout and one more for the error.
- When a delivery gives up after a partial write, the next attempt starts at offset 0 of the same message (output.c:20). `Delivery.Deliver` states what one call sends, not what repeated calls do to the stream.

## Findings

| source | as written | input that shows it | evidently intended | confidence | as-written member | corrected member |
|---|---|---|---|---|---|---|
| input_buffer.c:214 | a purge that ends exactly at the buffer's end leaves `border == end`. A later read that fills the buffer wraps `current` onto the start, the counters fail the integrity test, `find` sees no line, and input_handler_common_read (input_tools.c:108-136) reports nothing and purges the unread bytes | a stream source: a full read with no newline, then a full read whose last byte is the newline, then a full read opening with `de\n`; `de` is never reported | wrap `border` back to the start, as getline does at input_buffer.c:276-280 | not executed | `InputFindings.LineLostAfterPurgeAtEnd` | `InputTools.InputHandler.ReadFixed` |
| input_buffer.c:217 | a purged line that wraps past the end sets `border = start - overflow`, outside the buffer. input_handler_common_read cannot reach it: its purges start at `border == start` or find no newline | a 4-byte buffer holding `b`, `c`, newline from offset 2 across the end; after the purge the integrity test fails | `border = start + overflow`, as getline does at input_buffer.c:268 | not executed | `BufferFindings.PurgeAcrossEndBreaksBuffer` | `BufferFindings.PurgeAcrossEndFixedKeepsBuffer` |
| buffer.c:162 | after the first segment, `index = REALLOC_SIZE` makes the inner loop skip every later segment, so their messages are never freed | 1001 messages pushed on a fresh queue: the cleanup frees the first 1000 | `index = 0` for each later segment | not executed | `QueueFindings.CleanupLeaks` | `Queues.Queue.CleanupFixed` |
| reader.c:119 | after a removal, `goto rerun` scans the old descriptor set again, so sources already read after this `select` are read a second time; a drained stream source then finds 0 bytes pending and is marked end of file (input_tools.c:47-52) | two ready sources whose second returns -1: the reads go to 1, 2, then 1 again | go on with the rest of the scan and rebuild the set, reading each ready source once | not executed | `ReaderFindings.RereadAfterRemoval` | `Readers.Reader.PassOnce` |
| output_file.c:87 | a destination for a named file starts `ready` with fd -1; deliver_message never calls connect, never selects on a descriptor and never writes | any named file such as `out.log`, whatever the system answers | start `disconnected`, so that the first round opens the file | not executed | `DestinationFindings.NamedFileNeverDelivers` | `Destinations.Destination.FileInitFixed` |
| logger.c:252-259 | when the first write to a fresh backlog fails, the same pointer is put back on the queue and also stays in hand. After the first delivery frees it (logger.c:128), the queued entry dangles: its later delivery reads freed memory, and a spill or the cleanup frees it a second time | a named backlog that opens, a first `fputs` that fails, a record in hand: it is both in hand and at the queue's front | keep the message in hand only and retry | not executed | `LoggerFindings.SpillDuplicates` | `Loggers.Logger.SpillFixed` |
| net_tools.c:59-63 | a NULL from `gethostbyname2` is only logged; the next line reads `lookup->h_addr_list[0]` through it | the resource `example:1` whose host does not resolve | give FALSE, as for an entry without a usable address | not executed | `NetTools.UnknownHostReadsNull` | `NetTools.SocketAddrFixed` |
| input_tools.c:122-128 | every line getline finds is queued, even one with a NUL inside, while a datagram with a NUL inside is dropped (input_udp.c:78-92). `strlen` at output.c:20 and `fputs` at logger.c:55 and :252 then cut it at the NUL | a stream source fed `a`, NUL, `b`, newline: the queued line has `strlen` 1 and no newline, so its delivery aborts at output_tools.c:28 | drop such a line, as a datagram source does | not executed | `InputFindings.NulLineReported` | `Framing.RecordLines` |
| logger.c:195 | the test on `fopen(..., "a")` is inverted: a failed reopen falls through to `logger_write_backlog(this, NULL)`, whose `Require` aborts. A successful one logs an error and retries without draining | an old backlog being read back, a failed delivery, and a reopen that fails (abort) or succeeds (the queued record stays queued) | retry when the open fails; drain the queue once it succeeds | not executed | `LoggerFindings.ReopenAborts` | `Loggers.Logger.ReopenFixed` |
