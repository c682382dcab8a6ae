/**
 * The segment-rotating writer of the subscriber: every received message is
 * counted, appended to the open output file (a "segment"), and the segment is
 * rotated once it has reached the size threshold or the age threshold; once a
 * second the throughput counters are read and reset.
 *
 * The package-level variables become the fields of class Writer. The file
 * system is abstracted to the open file (`currentFile`, with its contents)
 * and `closed`, the files closed so far in order of creation. The outcome of
 * every file-system call and the clock are parameters.
 */
module SubFileWriter {
  import opened Primitives

  /** maxFileSize: 500 MiB per segment. */
  const MaxFileSize: nat := 500 * 1024 * 1024

  /** One second of Go's time.Duration, which counts nanoseconds. */
  const Second: nat := 1_000_000_000

  /** fileRotateTime: one hour. */
  const FileRotateTime: nat := 3600 * Second

  /** Go's int is 64 bits wide: no slice is longer than this. */
  const MaxInt: nat := 0x7FFF_FFFF_FFFF_FFFF

  /** atomic.AddUint64: unsigned 64-bit addition, wrapping around. */
  function AddUint64(a: u64, delta: u64): (r: u64)
    ensures r == (a + delta) % 0x1_0000_0000_0000_0000
  {
    if a + delta < 0x1_0000_0000_0000_0000 then a + delta else a + delta - 0x1_0000_0000_0000_0000
  }


  /**
   * One output file. `seqNo` is the fileCounter value embedded in its name,
   * `stamp` the clock reading embedded beside it, `data` the bytes written to
   * it (the messages laid end to end, with no framing between them), and
   * `lastWrite` the length of the last message written to it (0 if none).
   */
  datatype Segment = Segment(seqNo: nat, stamp: int, data: seq<byte>, lastWrite: nat)

  /** A successful currentFile.Write(msg): the message goes at the end of the file. */
  function Written(s: Segment, msg: seq<byte>): Segment {
    s.(data := s.data + msg, lastWrite := |msg|)
  }

  /** The file a rotation leaves open: a new, empty one, or none if the open failed. */
  function NewFile(seqNo: nat, stamp: int, openOk: bool): Option<Segment> {
    if openOk then Some(Segment(seqNo, stamp, [], 0)) else None
  }

  /** The open file as a list of zero or one files. */
  function FileList(f: Option<Segment>): seq<Segment> {
    if f.Some? then [f.value] else []
  }

  /** The bytes stored in the first n files, file after file. */
  function StoredUpTo(segs: seq<Segment>, n: nat): seq<byte>
    requires n <= |segs|
  {
    if n == 0 then [] else StoredUpTo(segs, n - 1) + segs[n - 1].data
  }

  /** Every byte stored, file after file. */
  function AllBytes(segs: seq<Segment>): seq<byte> {
    StoredUpTo(segs, |segs|)
  }

  /** The bytes in the first n files depend on those files only. */
  lemma {:induction false} StoredUpToPrefix(segs: seq<Segment>, other: seq<Segment>, n: nat)
    requires n <= |segs| && n <= |other|
    requires segs[..n] == other[..n]
    ensures StoredUpTo(segs, n) == StoredUpTo(other, n)
  {
    if n > 0 {
      assert segs[..n - 1] == other[..n - 1] by {
        assert segs[..n - 1] == segs[..n][..n - 1];
        assert other[..n - 1] == other[..n][..n - 1];
      }
      assert segs[n - 1] == segs[..n][n - 1] == other[..n][n - 1] == other[n - 1];
      StoredUpToPrefix(segs, other, n - 1);
    }
  }

  /** Adding a file after the others adds exactly its bytes after theirs. */
  lemma AllBytesAppend(segs: seq<Segment>, s: Segment)
    ensures AllBytes(segs + [s]) == AllBytes(segs) + s.data
  {
    var r := segs + [s];
    assert r[..|segs|] == segs[..|segs|];
    StoredUpToPrefix(r, segs, |segs|);
  }

  /** A successful write adds exactly the message's bytes, after everything stored before. */
  lemma WriteStoresMessage(closed: seq<Segment>, cur: Segment, msg: seq<byte>)
    ensures AllBytes(closed + [Written(cur, msg)]) == AllBytes(closed + [cur]) + msg
  {
    AllBytesAppend(closed, Written(cur, msg));
    AllBytesAppend(closed, cur);
  }

  /** A rotation stores no byte: the file it opens, if any, is empty. */
  lemma RotationStoresNothing(files: seq<Segment>, seqNo: nat, stamp: int, openOk: bool)
    ensures AllBytes(files + FileList(NewFile(seqNo, stamp, openOk))) == AllBytes(files)
  {
    if openOk {
      AllBytesAppend(files, Segment(seqNo, stamp, [], 0));
    } else {
      assert files + FileList(NewFile(seqNo, stamp, openOk)) == files;
    }
  }

  /**
   * The bytes one processMessage call stores, given the files before it
   * (`closed`, `cur`) and after it (`closed'`, `cur'`) as ProcessMessage
   * states them: exactly the message when the write succeeds, whether or not
   * a rotation follows, and nothing when it fails.
   */
  lemma MessageStoresItsBytes(closed: seq<Segment>, cur: Option<Segment>, msg: seq<byte>, writeOk: bool,
                              due: bool, seqNo: nat, stamp: int, openOk: bool,
                              closed': seq<Segment>, cur': Option<Segment>)
    requires !(cur.Some? && writeOk) ==>
      closed' == closed + FileList(cur) && cur' == NewFile(seqNo, stamp, openOk)
    requires cur.Some? && writeOk && !due ==>
      closed' == closed && cur' == Some(Written(cur.value, msg))
    requires cur.Some? && writeOk && due ==>
      closed' == closed + [Written(cur.value, msg)] && cur' == NewFile(seqNo, stamp, openOk)
    ensures AllBytes(closed' + FileList(cur')) ==
            AllBytes(closed + FileList(cur)) + (if cur.Some? && writeOk then msg else [])
  {
    if !(cur.Some? && writeOk) {
      RotationStoresNothing(closed + FileList(cur), seqNo, stamp, openOk);
    } else {
      WriteStoresMessage(closed, cur.value, msg);
      if due {
        RotationStoresNothing(closed + [Written(cur.value, msg)], seqNo, stamp, openOk);
      }
    }
  }

  /**
   * Append-then-check leaves at most one write past the size threshold: before
   * its last write the file held fewer than MaxFileSize bytes.
   */
  ghost predicate BelowMaxBeforeLastWrite(s: Segment) {
    s.lastWrite <= |s.data| && |s.data| - s.lastWrite < MaxFileSize
  }

  /**
   * The first n files as the writer leaves them: each was below the size
   * threshold before its last write, and sequence numbers go up from each
   * file to the next. Stated file by file from the n-th one back.
   */
  ghost predicate WellFormedUpTo(segs: seq<Segment>, n: nat)
    requires n <= |segs|
  {
    n == 0 ||
      (&& WellFormedUpTo(segs, n - 1)
       && BelowMaxBeforeLastWrite(segs[n - 1])
       && (n > 1 ==> segs[n - 2].seqNo < segs[n - 1].seqNo))
  }

  /** All the files as the writer leaves them. */
  ghost predicate DiskWellFormed(segs: seq<Segment>) {
    WellFormedUpTo(segs, |segs|)
  }

  /** Whether the first n files are well formed depends on those files only. */
  lemma {:induction false} WellFormedUpToPrefix(segs: seq<Segment>, other: seq<Segment>, n: nat)
    requires n <= |segs| && n <= |other|
    requires segs[..n] == other[..n]
    requires WellFormedUpTo(segs, n)
    ensures WellFormedUpTo(other, n)
  {
    if n > 0 {
      assert segs[..n - 1] == other[..n - 1] by {
        assert segs[..n - 1] == segs[..n][..n - 1];
        assert other[..n - 1] == other[..n][..n - 1];
      }
      assert segs[n - 1] == segs[..n][n - 1] == other[..n][n - 1] == other[n - 1];
      if n > 1 {
        assert segs[n - 2] == segs[..n][n - 2] == other[..n][n - 2] == other[n - 2];
      }
      WellFormedUpToPrefix(segs, other, n - 1);
    }
  }

  /** Closing a file numbered above every earlier one keeps the files well formed. */
  lemma CloseKeepsDiskWellFormed(segs: seq<Segment>, s: Segment)
    requires DiskWellFormed(segs) && BelowMaxBeforeLastWrite(s)
    requires segs != [] ==> segs[|segs| - 1].seqNo < s.seqNo
    ensures DiskWellFormed(segs + [s])
  {
    var r := segs + [s];
    assert segs[..|segs|] == r[..|segs|];
    WellFormedUpToPrefix(segs, r, |segs|);
  }

  /**
   * Sequence numbers of well-formed files are unique and increase with the
   * order of creation (for all the files, take n == |segs|).
   */
  lemma {:induction false} SeqNosIncrease(segs: seq<Segment>, n: nat, i: nat, j: nat)
    requires n <= |segs| && WellFormedUpTo(segs, n)
    requires i < j < n
    ensures segs[i].seqNo < segs[j].seqNo
  {
    if j < n - 1 {
      SeqNosIncrease(segs, n - 1, i, j);
    } else if i < j - 1 {
      SeqNosIncrease(segs, n - 1, i, j - 1);
    }
  }

  /**
   * Every well-formed file held less than MaxFileSize bytes before its last
   * write (for all the files, take n == |segs|).
   */
  lemma {:induction false} EveryFileBelowMax(segs: seq<Segment>, n: nat, i: nat)
    requires n <= |segs| && WellFormedUpTo(segs, n)
    requires i < n
    ensures |segs[i].data| - segs[i].lastWrite < MaxFileSize
  {
    if i < n - 1 {
      EveryFileBelowMax(segs, n - 1, i);
    }
  }

  /** What printStats writes: messages and bytes in the interval, and the open file's size. */
  datatype Stats = Stats(messages: u64, bytes: u64, fileSize: int)

  class Writer {
    var messageCount: u64
    var byteCount: u64
    /** The open file and what it holds; None is a nil currentFile. */
    var currentFile: Option<Segment>
    var currentSize: int
    var fileCounter: nat
    var lastPrintTime: int
    var lastRotate: int
    /** The files closed so far, oldest first. */
    var closed: seq<Segment>

    /** The fields agree with the files; this holds even mid-message, before the threshold check. */
    ghost predicate Consistent()
      reads this`currentFile, this`currentSize, this`fileCounter, this`closed
    {
      && (currentFile.None? ==> currentSize == 0)
      && (currentFile.Some? ==>
            && currentSize == |currentFile.value.data|
            && BelowMaxBeforeLastWrite(currentFile.value)
            && currentFile.value.seqNo < fileCounter)
      && DiskWellFormed(closed)
      && (closed != [] ==> closed[|closed| - 1].seqNo < fileCounter)
      && (closed != [] && currentFile.Some? ==> closed[|closed| - 1].seqNo < currentFile.value.seqNo)
    }

    /** Between messages, the open file is also below the size threshold. */
    ghost predicate Valid()
      reads this`currentFile, this`currentSize, this`fileCounter, this`closed
    {
      Consistent() && currentSize < MaxFileSize
    }

    /** Every file created so far, oldest first: the closed ones, then the open one. */
    ghost function Files(): seq<Segment>
      reads this`currentFile, this`closed
    {
      closed + FileList(currentFile)
    }

    /** Closed and open files together are well formed: sequence numbers are unique and increasing. */
    lemma FilesWellFormed()
      requires Consistent()
      ensures DiskWellFormed(Files())
    {
      if currentFile.Some? {
        CloseKeepsDiskWellFormed(closed, currentFile.value);
      } else {
        assert Files() == closed;
      }
    }

    /** The package variables at start-up; `start` is the clock reading then. */
    constructor (start: int)
      ensures Valid()
      ensures messageCount == 0 && byteCount == 0
      ensures currentFile.None? && currentSize == 0 && fileCounter == 0 && closed == []
      ensures lastPrintTime == start && lastRotate == start
    {
      messageCount, byteCount := 0, 0;
      currentFile, currentSize, fileCounter := None, 0, 0;
      lastPrintTime, lastRotate := start, start;
      closed := [];
    }

    /**
     * closeCurrentFile: closes the open file, if any. A close error is only
     * logged, so the outcome is the same either way.
     */
    method CloseCurrentFile()
      requires Consistent()
      modifies this`currentFile, this`currentSize, this`closed
      ensures Valid()
      ensures currentFile.None? && currentSize == 0
      ensures closed == old(Files())
      ensures old(currentFile).None? ==> unchanged(this)
    {
      if currentFile.Some? {
        CloseKeepsDiskWellFormed(closed, currentFile.value);
        closed := closed + [currentFile.value];
        currentFile := None;
        currentSize := 0;
      }
    }

    /**
     * rotateFile: closes the open file, takes the next sequence number (even
     * when the open then fails) and opens a new, empty file. `now` is the
     * clock reading for the file name; `openOk` the outcome of the open.
     * Returns whether the open succeeded.
     */
    method RotateFile(now: int, openOk: bool) returns (ok: bool)
      requires Consistent()
      modifies this`currentFile, this`currentSize, this`fileCounter, this`closed
      ensures Valid()
      ensures ok == openOk
      ensures closed == old(Files())
      ensures currentFile == NewFile(old(fileCounter), now, openOk) && currentSize == 0
      ensures fileCounter == old(fileCounter) + 1
    {
      CloseCurrentFile();
      var seqNo := fileCounter;
      fileCounter := fileCounter + 1;
      if !openOk {
        return false;
      }
      currentFile := Some(Segment(seqNo, now, [], 0));
      currentSize := 0;
      return true;
    }

    /** printStats: reads both counters, resets them to zero, and reports them with the open file's size. */
    method PrintStats() returns (stats: Stats)
      modifies this`messageCount, this`byteCount
      ensures stats == Stats(old(messageCount), old(byteCount), currentSize)
      ensures messageCount == 0 && byteCount == 0
    {
      stats := Stats(messageCount, byteCount, currentSize);
      messageCount, byteCount := 0, 0;
    }

    /**
     * processMessage: counts the message, writes it to the open file and,
     * after a successful write, rotates if a threshold is met and reports the
     * statistics if a second has passed since the last report. A failed write
     * (which includes writing with no file open) drops the message, forces a
     * rotation and returns at once.
     * `now` is the clock; `writeOk` and `openOk` are the outcomes of the
     * write and of the open a rotation would do. Returns the report, if one
     * was made.
     */
    method ProcessMessage(msg: seq<byte>, now: int, writeOk: bool, openOk: bool) returns (report: Option<Stats>)
      requires Valid()
      requires |msg| <= MaxInt
      modifies this
      ensures Valid()
      // The counters go up first, whatever happens to the write.
      ensures report.None? ==>
        && messageCount == AddUint64(old(messageCount), 1)
        && byteCount == AddUint64(old(byteCount), |msg|)
      ensures report.Some? ==>
        && report.value.messages == AddUint64(old(messageCount), 1)
        && report.value.bytes == AddUint64(old(byteCount), |msg|)
        && report.value.fileSize == currentSize
        && messageCount == 0 && byteCount == 0
      // A failed write stores nothing, forces a rotation and skips both checks.
      ensures !(old(currentFile).Some? && writeOk) ==>
        && closed == old(Files())
        && currentFile == NewFile(old(fileCounter), now, openOk) && currentSize == 0
        && fileCounter == old(fileCounter) + 1
        && lastRotate == old(lastRotate) && lastPrintTime == old(lastPrintTime)
        && report.None?
      // A successful write lands in the open file; the thresholds are checked after it.
      ensures old(currentFile).Some? && writeOk ==>
        var written := Written(old(currentFile).value, msg);
        var due := old(currentSize) + |msg| >= MaxFileSize || now - old(lastRotate) >= FileRotateTime;
        && (!due ==>
              && closed == old(closed)
              && currentFile == Some(written) && currentSize == |written.data|
              && fileCounter == old(fileCounter) && lastRotate == old(lastRotate))
        && (due ==>
              && closed == old(closed) + [written]
              && currentFile == NewFile(old(fileCounter), now, openOk) && currentSize == 0
              && fileCounter == old(fileCounter) + 1
              && lastRotate == (if openOk then now else old(lastRotate)))
        && (report.Some? <==> now - old(lastPrintTime) >= Second)
        && lastPrintTime == (if report.Some? then now else old(lastPrintTime))
    {
      messageCount := AddUint64(messageCount, 1);
      byteCount := AddUint64(byteCount, |msg|);

      if !(currentFile.Some? && writeOk) {
        var _ := RotateFile(now, openOk);
        return None;
      }

      currentFile := Some(Written(currentFile.value, msg));
      currentSize := currentSize + |msg|;

      if currentSize >= MaxFileSize || now - lastRotate >= FileRotateTime {
        var ok := RotateFile(now, openOk);
        if ok {
          lastRotate := now;
        }
      }

      report := None;
      if now - lastPrintTime >= Second {
        var stats := PrintStats();
        report := Some(stats);
        lastPrintTime := now;
      }
    }
  }
}
