# Data-acquisition scripts: file writer and event-file reader

This project models two programs from a small data-acquisition toolkit and
proves properties of the models in Dafny.

- **The subscriber's file writer** (`sub_file_writer.go`) receives messages
  and appends each one to the open output file. It rotates to a new numbered
  file once the open one has reached 500 MiB, or an hour after the last
  rotation made by that threshold check.
  Once a second it reports how many messages and bytes came in, then resets
  those counters.
  - `SubFileWriter.Writer` is a class whose fields are the package variables
    `messageCount`, `byteCount`, `currentFile`, `currentSize`, `fileCounter`,
    `lastPrintTime` and `lastRotate`.
  - `currentFile` is `None` when the Go variable is nil. Otherwise it holds
    the open file: its sequence number, its name's timestamp, its bytes, and
    the length of the last message written to it.
  - The field `closed` lists the files closed so far.
  - The clock (`now`, in nanoseconds) and the outcome of each write and open
    (`writeOk`, `openOk`) are parameters.
  - `ProcessMessage` returns the statistics report it printed, if it printed
    one.
- **The event-file reader** (`binaryToRoot.cpp`) reads an input file as a run
  of 2-byte markers. After the event marker `0xEFFE` it reads an event record
  over its `Event` struct and prints the event id. The model fixes the host
  layout: little-endian, with `sizeof(Event) == 24` (event id, timestamp,
  control-board count, 4 padding bytes).
  - The time-fragment marker `0xFEEF`, the control-board marker `0xCBCB` and
    any other value consume only their own two bytes.
  - `BinaryToRoot.EventIds` is the whole scan as a function.
  - `ReadBinaryToRoot` is the loop over an array of bytes. It returns the ids
    it printed, and returns nothing when the file cannot be opened.
  - `ProgramMain` models `main`'s argument check.
  - The `Frame` datatype describes what the file format looks like. The
    lemmas `ScanEncoded` and `Decompose` show that the scan prints exactly the
    ids of the event frames, whichever way round the input is built.

Points where the code decides something its comments or its design
description put differently. The model follows the code:

- `maxFileSize` is `500 * 1024 * 1024` bytes, although its comment says
  100MB.
- A rotation triggered by a failed write does not reset `lastRotate`. Only a
  successful rotation after a threshold check does. So the file opened after a
  write error can be rotated early on age.
- Statistics are reported only from inside `processMessage`, after a
  successful write. An idle interval therefore produces no report at all, not
  a report of zero.
- Both thresholds are inclusive (`>=`). The message that crosses the size
  threshold is written to the old file, which is closed after it.

## Model

| member | source | states |
|---|---|---|
| SubFileWriter.AddUint64 | sub_file_writer.go:100-101 | the counter update is unsigned 64-bit addition: the result is the sum modulo 2^64 |
| SubFileWriter.Writer.constructor | sub_file_writer.go:24-33 | counters are zero, no file is open, fileCounter is 0, and both clocks hold the start time |
| SubFileWriter.Writer.ProcessMessage | sub_file_writer.go:98-130 | message and byte counters rise by 1 and by len(msg) (mod 2^64) whatever happens to the write. A failed write, including one with no file open, stores nothing: it closes the open file, takes the next sequence number, opens a new empty file if the open succeeds, leaves lastRotate and lastPrintTime alone and reports nothing. A successful write appends the message to the open file. A rotation follows exactly when size+len(msg) >= 500 MiB or now-lastRotate >= 1h; the message stays in the file being closed, and lastRotate becomes now only if the new open succeeds. A report is made exactly when now-lastPrintTime >= 1s: it carries the counts from before the reset, and lastPrintTime becomes now. The new closed files and open file are stated exactly, through Written and NewFile, so WriteStoresMessage and RotationStoresNothing give the bytes stored: exactly msg more on a successful write, nothing more otherwise. Valid (sizes and sequence numbers well formed) is preserved |
| SubFileWriter.Writer.RotateFile | sub_file_writer.go:132-150 | closes the open file, then increments fileCounter even if the open fails. The new file, if opened, is empty (its name is taken to be new) and numbered with the old counter; the result says whether the open succeeded |
| SubFileWriter.Writer.CloseCurrentFile | sub_file_writer.go:152-161 | afterwards no file is open, the size is 0 and the open file has joined the closed ones; with no file open nothing changes at all, so calling it twice is the same as calling it once |
| SubFileWriter.Writer.PrintStats | sub_file_writer.go:163-175 | returns the message and byte counts as they were and the open file's size, and leaves both counters at zero |
| SubFileWriter.Writer.FilesWellFormed | sub_file_writer.go:132-150 | in every consistent state the files, closed and open, carry strictly increasing sequence numbers, and each held less than 500 MiB before its last write |
| SubFileWriter.SeqNosIncrease | sub_file_writer.go:137-138 | among well-formed files (any well-formed prefix of the list) every earlier file has a smaller sequence number than every later one, so the numbers in file names are unique |
| SubFileWriter.EveryFileBelowMax | sub_file_writer.go:113-118 | among well-formed files (any well-formed prefix of the list) every file held less than 500 MiB before its last write: a file overshoots the threshold by less than the one message that crossed it |
| SubFileWriter.CloseKeepsDiskWellFormed | sub_file_writer.go:152-161 | closing a file that was below the threshold before its last write and is numbered above every closed one keeps the closed files well formed |
| SubFileWriter.WriteStoresMessage | sub_file_writer.go:104-113 | a successful write adds exactly the message's bytes after everything already stored |
| SubFileWriter.RotationStoresNothing | sub_file_writer.go:141-147 | a rotation adds no byte to what is stored, whether the open succeeds or not |
| SubFileWriter.MessageStoresItsBytes | sub_file_writer.go:98-130 | taking the files before and after one message as ProcessMessage states them, the bytes stored grow by exactly the message when its write succeeds (with or without a rotation after it) and not at all when it fails: the bytes stored are the messages whose write succeeded |
| SubFileWriter.AllBytesAppend | sub_file_writer.go:152-161 | moving a file to the end of the list adds its bytes after those of the earlier files |
| BinaryToRoot.LittleEndian | binaryToRoot.cpp:60-61 | the marker (or any field) read from n bytes, least significant first, is below 256^n, so a 2-byte marker is a uint16_t value |
| BinaryToRoot.ToLittleEndian | binaryToRoot.cpp:60-61 | the n-byte little-endian encoding of x has n bytes and decodes back to x |
| BinaryToRoot.LittleEndianRoundTrip | binaryToRoot.cpp:60-61 | any byte string decodes to a value whose encoding is that same string |
| BinaryToRoot.DecodeEncodeEvent | binaryToRoot.cpp:12-18 | a record decoded from the 24-byte layout (two 8-byte fields, one 4-byte field, 4 padding bytes) gives back the event, whatever the padding |
| BinaryToRoot.DecodeEvent | binaryToRoot.cpp:65-67 | the record read over the struct yields event_id, timestamp and n_cbs, and loses no byte: the 24 bytes are exactly the layout of the decoded event with their last 4 bytes as padding |
| BinaryToRoot.EventIds | binaryToRoot.cpp:58-79 | every id printed consumes its 2-byte marker and a 24-byte record of input, so at most length/26 ids are printed |
| BinaryToRoot.ReadBinaryToRoot | binaryToRoot.cpp:27-84 | when the input cannot be opened nothing is printed; otherwise the loop prints exactly the ids EventIds gives for the file's bytes |
| BinaryToRoot.ProgramMain | binaryToRoot.cpp:86-94 | exits with 1 and reads nothing unless argc is 3; otherwise exits with 0 after printing the ids of the input file |
| BinaryToRoot.ScanEventFrame | binaryToRoot.cpp:64-67 | an event marker followed by a whole record prints that record's id and resumes right after the 26 bytes |
| BinaryToRoot.ScanMarkerFrame | binaryToRoot.cpp:71-78 | any marker other than the event marker prints nothing and resumes right after its two bytes |
| BinaryToRoot.ScanFrame | binaryToRoot.cpp:58-79 | each frame is scanned on its own: its id, if it is an event, then the scan of what follows |
| BinaryToRoot.TailScansNothing | binaryToRoot.cpp:58-66 | fewer than 2 bytes left, or an event marker with fewer than 24 bytes after it, prints nothing more |
| BinaryToRoot.ScanEncoded | binaryToRoot.cpp:58-79 | frames laid end to end followed by an incomplete tail are scanned into exactly the ids of their event frames |
| BinaryToRoot.FirstFrame | binaryToRoot.cpp:58-79 | any input that is not an incomplete tail starts with one frame, and the scan prints that frame's id before scanning the rest |
| BinaryToRoot.Decompose | binaryToRoot.cpp:58-79 | every input is some run of frames followed by an incomplete tail, and the scan prints exactly those frames' ids; with ScanEncoded this characterises the scan completely |

## Left out

- The ZeroMQ subscription, the receive loop in `main` of `sub_file_writer.go`, and the extraction of the message part from a multipart message are not modelled. They are network I/O; the model starts at `processMessage`.
- The signal handler, which closes the file and exits the process, is left out. It is concurrency and process control; what it does to the file is `CloseCurrentFile`.
- The counters use atomic operations (`sub_file_writer.go:100-101`, `165-166`), but only the receive loop touches them, so a sequential model loses nothing there. The concurrency the model does drop is the signal handler's `closeCurrentFile` racing `processMessage` on `currentFile` and `currentSize`.
- File names are not modelled. A file is identified by the sequence number and timestamp in its name, not by the formatted text or its directory.
- The Go code reads the clock three times: for the threshold checks, for the new file's name inside `rotateFile`, and for the report's timestamp in `printStats`. The model uses the single reading `now` for `lastRotate`, `lastPrintTime` and the new file's `stamp`, and leaves the report's timestamp out; no property proved here depends on the readings differing.
- Console and log output is left out, including the float megabyte sizes. `PrintStats` returns the values it would print.
- Close errors are only logged, so they are not modelled.
- A write either stores the whole message or fails and stores nothing. Partial writes by the operating system are left out.
- SubFileWriter.Writer.ProcessMessage: requires len(msg) to fit Go's 64-bit int, and `currentSize` is an unbounded integer. Go's `currentSize += int64(len(msg))` would wrap negative, and skip the size rotation the model makes, only for a message longer than 2^63 - 1 - 500 MiB bytes; no process can hold such a slice in memory, so that wrap is not modelled. The clock is unbounded too; Go's `time.Sub` saturates and keeps its sign, so the `>=` tests are unaffected.
- The ROOT output file and tree in `binaryToRoot.cpp` are commented out in the source and not modelled. The output file name is accepted and unused.
- `BinaryToRoot.ReadBinaryToRoot` does not model stream states beyond what the loop tests. When a marker read fails on a final odd byte, the scan stops, as it does at end of file. The indeterminate marker value then read makes no difference, because a following record read would fail as well.
- `CBData` is declared but never used, so it is not modelled. The source reads no time-fragment payload: after the time-fragment marker it goes straight to the next marker.
- SubFileWriter.Writer.RotateFile: assumes the file name is new, so the opened file starts empty. The open uses append mode without truncation, so a name that already exists keeps its bytes and new messages follow them. Within one run names are unique through `fileCounter`, but the counter restarts at 0 and the timestamp has one-second resolution, so a restart within the same second reopens an existing file; the model does not capture those earlier bytes.
- BinaryToRoot.ReadBinaryToRoot: assumes a little-endian host on which `sizeof(Event)` is 24 (8-byte alignment of `uint64_t`). The source reads markers and records by copying raw bytes into memory, so on a big-endian host the markers and fields come out byte-swapped, and where `uint64_t` is 4-byte aligned (i386) the record is 20 bytes; those layouts are not modelled.
