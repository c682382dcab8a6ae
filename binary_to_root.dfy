/**
 * The reader of the raw event files: it scans a file as a run of 2-byte
 * markers, and for every event marker reads the fixed-size event record that
 * follows and emits its event id. Markers for time fragments and control
 * boards are recognised but carry no payload as far as the reader is
 * concerned, and any other value is skipped the same way.
 *
 * The file is an array of bytes (None when it cannot be opened); what the
 * reader prints is the sequence of event ids it returns.
 */
module BinaryToRoot {
  import opened Primitives

  const CbMarker: u16 := 0xCBCB
  const EventMarker: u16 := 0xEFFE
  const TimeFragmentMarker: u16 := 0xFEEF

  /** sizeof(uint16_t): a marker, read in host byte order, here taken to be little-endian. */
  const MarkerSize: nat := 2

  /**
   * sizeof(Event) on a host that aligns uint64_t to 8 bytes: event_id (8
   * bytes), timestamp (8), n_cbs (4), and 4 bytes of padding.
   */
  const EventSize: nat := 24

  /** The bytes an event occupies in the file: its marker, then the record. */
  const EventStride: nat := MarkerSize + EventSize

  /** 256 to the power n: one more than the largest n-byte unsigned value. */
  function Pow256(n: nat): (p: nat)
    ensures p > 0
  {
    if n == 0 then 1 else 256 * Pow256(n - 1)
  }

  /** The widths the reader works with. */
  lemma Pow256Widths()
    ensures Pow256(2) == 0x1_0000
    ensures Pow256(4) == 0x1_0000_0000
    ensures Pow256(8) == 0x1_0000_0000_0000_0000
  {
  }

  /** The unsigned integer stored in s, least significant byte first. */
  function LittleEndian(s: seq<byte>): (n: nat)
    ensures n < Pow256(|s|)
  {
    if s == [] then 0 else s[0] + 256 * LittleEndian(s[1..])
  }

  /** The n bytes that store x, least significant byte first. */
  function ToLittleEndian(x: nat, n: nat): (s: seq<byte>)
    requires x < Pow256(n)
    ensures |s| == n && LittleEndian(s) == x
  {
    if n == 0 then []
    else
      var s := [x % 256] + ToLittleEndian(x / 256, n - 1);
      assert s[1..] == ToLittleEndian(x / 256, n - 1);
      s
  }

  /** Bytes decoded and encoded again give back the same bytes. */
  lemma {:induction false} LittleEndianRoundTrip(s: seq<byte>)
    ensures ToLittleEndian(LittleEndian(s), |s|) == s
  {
    if s != [] {
      var x, rest := LittleEndian(s), LittleEndian(s[1..]);
      assert x == s[0] + 256 * rest;
      assert x % 256 == s[0] && x / 256 == rest;
      LittleEndianRoundTrip(s[1..]);
      assert s == [s[0]] + s[1..];
    }
  }

  /** The fields the reader declares for an event record. */
  datatype Event = Event(eventId: u64, timestamp: u64, nCbs: u32)

  /**
   * The record as the reader sees it after copying EventSize bytes over the
   * struct. No byte is lost: the record is the layout of the event it decodes
   * to, with its last 4 bytes as padding.
   */
  function DecodeEvent(r: seq<byte>): (e: Event)
    requires |r| == EventSize
    ensures EncodeEvent(e, r[20..]) == r
  {
    Pow256Widths();
    var e := Event(LittleEndian(r[0..8]), LittleEndian(r[8..16]), LittleEndian(r[16..20]));
    assert ToLittleEndian(e.eventId, 8) == r[0..8] by { LittleEndianRoundTrip(r[0..8]); }
    assert ToLittleEndian(e.timestamp, 8) == r[8..16] by { LittleEndianRoundTrip(r[8..16]); }
    assert ToLittleEndian(e.nCbs, 4) == r[16..20] by { LittleEndianRoundTrip(r[16..20]); }
    assert r == r[0..8] + r[8..16] + r[16..20] + r[20..];
    e
  }

  /** An event record as laid out in the file, with the given padding bytes. */
  function EncodeEvent(e: Event, padding: seq<byte>): (r: seq<byte>)
    requires |padding| == EventSize - 20
    ensures |r| == EventSize
  {
    Pow256Widths();
    ToLittleEndian(e.eventId, 8) + ToLittleEndian(e.timestamp, 8) + ToLittleEndian(e.nCbs, 4) + padding
  }

  /** Decoding an encoded record gives back the event, whatever the padding. */
  lemma DecodeEncodeEvent(e: Event, padding: seq<byte>)
    requires |padding| == EventSize - 20
    ensures DecodeEvent(EncodeEvent(e, padding)) == e
  {
    Pow256Widths();
    var a, b, c := ToLittleEndian(e.eventId, 8), ToLittleEndian(e.timestamp, 8), ToLittleEndian(e.nCbs, 4);
    var r := EncodeEvent(e, padding);
    assert r[0..8] == a && r[8..16] == b && r[16..20] == c;
  }

  /**
   * The event ids the reader prints for input s. A marker needs two bytes;
   * with fewer left the read fails and the scan ends. After an event marker
   * a whole record must follow, or the read fails and the scan stops. Any
   * other marker is consumed on its own: the scan does not look for the next
   * marker, it takes the next two bytes as one.
   */
  function EventIds(s: seq<byte>): (ids: seq<u64>)
    ensures |ids| * EventStride <= |s|
    decreases |s|
  {
    if |s| < MarkerSize then []
    else if LittleEndian(s[..MarkerSize]) == EventMarker then
      if |s| < EventStride then []
      else
        var event := DecodeEvent(s[MarkerSize..EventStride]);
        var rest := EventIds(s[EventStride..]);
        assert (1 + |rest|) * EventStride == |rest| * EventStride + EventStride;
        [event.eventId] + rest
    else EventIds(s[MarkerSize..])
  }

  /**
   * readBinaryToRoot: when the input opens, scans it marker by marker and
   * returns the id of every complete event, in file order; when it does not,
   * returns nothing.
   */
  method ReadBinaryToRoot(input: Option<array<byte>>) returns (ids: seq<u64>)
    ensures input.None? ==> ids == []
    ensures input.Some? ==> ids == EventIds(input.value[..])
  {
    if input.None? {
      return [];
    }
    var a := input.value;
    var pos := 0;
    ids := [];
    while pos + MarkerSize <= a.Length
      invariant 0 <= pos <= a.Length
      invariant ids + EventIds(a[pos..]) == EventIds(a[..])
      decreases a.Length - pos
    {
      ghost var rest := a[pos..];
      assert rest[..MarkerSize] == a[pos..pos + MarkerSize];
      var marker := LittleEndian(a[pos..pos + MarkerSize]);
      pos := pos + MarkerSize;
      if marker == EventMarker {
        if a.Length - pos < EventSize {
          break;
        }
        assert rest[MarkerSize..EventStride] == a[pos..pos + EventSize];
        assert rest[EventStride..] == a[pos + EventSize..];
        var evt := DecodeEvent(a[pos..pos + EventSize]);
        ids := ids + [evt.eventId];
        pos := pos + EventSize;
      } else if marker == TimeFragmentMarker {
        // A time fragment carries nothing the reader decodes.
        assert rest[MarkerSize..] == a[pos..];
      } else if marker == CbMarker {
        // Nor does a control-board marker.
        assert rest[MarkerSize..] == a[pos..];
      } else {
        assert rest[MarkerSize..] == a[pos..];
      }
    }
  }

  /**
   * main: with exactly two arguments besides the program name, reads the
   * input file and exits with 0; otherwise prints the usage line and exits
   * with 1. `input` is the file named by argv[1], if it could be opened.
   */
  method ProgramMain(argv: seq<string>, input: Option<array<byte>>) returns (exitCode: int, ids: seq<u64>)
    ensures |argv| != 3 ==> exitCode == 1 && ids == []
    ensures |argv| == 3 ==> exitCode == 0 && ids == (if input.Some? then EventIds(input.value[..]) else [])
  {
    if |argv| != 3 {
      return 1, [];
    }
    ids := ReadBinaryToRoot(input);
    return 0, ids;
  }

  /**
   * One unit of the file format: an event marker and its record, or any
   * other marker on its own.
   */
  datatype Frame = EventFrame(event: Event, padding: seq<byte>) | MarkerFrame(marker: u16)

  ghost predicate FrameWellFormed(f: Frame) {
    match f
    case EventFrame(_, padding) => |padding| == EventSize - 20
    case MarkerFrame(marker) => marker != EventMarker
  }

  function EncodeFrame(f: Frame): (s: seq<byte>)
    requires FrameWellFormed(f)
  {
    match f
    case EventFrame(e, padding) => ToLittleEndian(EventMarker, MarkerSize) + EncodeEvent(e, padding)
    case MarkerFrame(m) => Pow256Widths(); ToLittleEndian(m, MarkerSize)
  }

  function EncodeFrames(fs: seq<Frame>): seq<byte>
    requires forall i :: 0 <= i < |fs| ==> FrameWellFormed(fs[i])
  {
    if fs == [] then [] else EncodeFrame(fs[0]) + EncodeFrames(fs[1..])
  }

  /** The ids of the event frames, in order. */
  function FrameIds(fs: seq<Frame>): seq<u64> {
    if fs == [] then []
    else (if fs[0].EventFrame? then [fs[0].event.eventId] else []) + FrameIds(fs[1..])
  }

  /** What is left after the last frame: too short for a marker, or an event marker without its whole record. */
  ghost predicate IncompleteTail(t: seq<byte>) {
    |t| < MarkerSize || (LittleEndian(t[..MarkerSize]) == EventMarker && |t| < EventStride)
  }

  /** An event frame: the scan prints its id and goes on with exactly the bytes after it. */
  lemma ScanEventFrame(e: Event, padding: seq<byte>, rest: seq<byte>)
    requires |padding| == EventSize - 20
    ensures EventIds(EncodeFrame(EventFrame(e, padding)) + rest) == [e.eventId] + EventIds(rest)
  {
    var m := ToLittleEndian(EventMarker, MarkerSize);
    var r := EncodeEvent(e, padding);
    var s := m + r + rest;
    assert s[..MarkerSize] == m;
    assert s[MarkerSize..EventStride] == r;
    assert s[EventStride..] == rest;
    DecodeEncodeEvent(e, padding);
  }

  /** Any other marker: the scan prints nothing and goes on with exactly the bytes after it. */
  lemma ScanMarkerFrame(marker: u16, rest: seq<byte>)
    requires marker != EventMarker
    ensures EventIds(EncodeFrame(MarkerFrame(marker)) + rest) == EventIds(rest)
  {
  }

  /** The scan reads one frame and goes on with exactly the bytes after it. */
  lemma ScanFrame(f: Frame, rest: seq<byte>)
    requires FrameWellFormed(f)
    ensures EventIds(EncodeFrame(f) + rest) == FrameIds([f]) + EventIds(rest)
  {
    assert [f][1..] == [];
    match f
    case EventFrame(e, padding) => ScanEventFrame(e, padding, rest);
    case MarkerFrame(marker) => ScanMarkerFrame(marker, rest);
  }

  /** An incomplete tail holds no event the scan would print. */
  lemma TailScansNothing(t: seq<byte>)
    requires IncompleteTail(t)
    ensures EventIds(t) == []
  {
  }

  /** Encoding and listing ids both go frame by frame. */
  lemma ConsFrame(f: Frame, fs: seq<Frame>, tail: seq<byte>)
    requires FrameWellFormed(f)
    requires forall i :: 0 <= i < |fs| ==> FrameWellFormed(fs[i])
    ensures forall i :: 0 <= i < |[f] + fs| ==> FrameWellFormed(([f] + fs)[i])
    ensures EncodeFrames([f] + fs) + tail == EncodeFrame(f) + (EncodeFrames(fs) + tail)
    ensures FrameIds([f] + fs) == FrameIds([f]) + FrameIds(fs)
  {
  }

  /** Frames laid end to end, then an incomplete tail: the scan finds exactly the frames' events. */
  lemma {:induction false} ScanEncoded(fs: seq<Frame>, tail: seq<byte>)
    requires forall i :: 0 <= i < |fs| ==> FrameWellFormed(fs[i])
    requires IncompleteTail(tail)
    ensures EventIds(EncodeFrames(fs) + tail) == FrameIds(fs)
  {
    if fs == [] {
      assert EncodeFrames(fs) + tail == tail;
      TailScansNothing(tail);
    } else {
      ScanEncoded(fs[1..], tail);
      assert fs == [fs[0]] + fs[1..];
      ConsFrame(fs[0], fs[1..], tail);
      ScanFrame(fs[0], EncodeFrames(fs[1..]) + tail);
    }
  }

  /**
   * Unless the input is an incomplete tail, it starts with a frame of n
   * bytes, and the scan prints that frame's id, if any, before scanning the rest.
   */
  lemma FirstFrame(s: seq<byte>) returns (f: Frame, n: nat)
    requires !IncompleteTail(s)
    ensures FrameWellFormed(f) && 0 < n <= |s|
    ensures EncodeFrame(f) == s[..n]
    ensures EventIds(s) == FrameIds([f]) + EventIds(s[n..])
  {
    var m := LittleEndian(s[..MarkerSize]);
    Pow256Widths();
    LittleEndianRoundTrip(s[..MarkerSize]);
    if m == EventMarker {
      var r := s[MarkerSize..EventStride];
      f, n := EventFrame(DecodeEvent(r), r[20..]), EventStride;
      assert s[..n] == s[..MarkerSize] + r;
    } else {
      f, n := MarkerFrame(m), MarkerSize;
    }
    assert [f][1..] == [];
  }

  /**
   * Every input is some run of frames followed by an incomplete tail, and
   * the scan prints the ids of exactly those frames.
   */
  lemma {:induction false} Decompose(s: seq<byte>) returns (fs: seq<Frame>, tail: seq<byte>)
    ensures forall i :: 0 <= i < |fs| ==> FrameWellFormed(fs[i])
    ensures IncompleteTail(tail)
    ensures EncodeFrames(fs) + tail == s
    ensures FrameIds(fs) == EventIds(s)
    decreases |s|
  {
    if IncompleteTail(s) {
      TailScansNothing(s);
      return [], s;
    }
    var f, n := FirstFrame(s);
    var fs', tail' := Decompose(s[n..]);
    ConsFrame(f, fs', tail');
    fs, tail := [f] + fs', tail';
    assert s == s[..n] + s[n..];
  }
}
