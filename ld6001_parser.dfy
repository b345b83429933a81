/**
 * The LD6001 dialect: fixed binary frames
 *   0x4D, type, body length L, ..., checksum, 0x4A
 * of 6 + L bytes, where the checksum is the 8-bit sum of every byte before it.
 * The parser accumulates bytes, skips to a start byte, and decodes status
 * (type 0x11) and radar (type 0x62) frames for its handler.
 */
module Ld6001Parser {
  import opened Bytes
  import opened Wrappers

  const FRAME_START: byte := 0x4D
  const FRAME_END: byte := 0x4A
  const HEADER_SIZE: nat := 6
  const MAX_TARGETS: nat := 10
  const TYPE_STATUS: byte := 0x11
  const TYPE_RADAR: byte := 0x62

  /** The two requests the component sends (the version request and the normal and precise radar requests). */
  const CMD_GET_VERSION: seq<byte> := [0x44, 0x11, 0x00, 0x00, 0x55, 0x4B]
  const CMD_RADAR_REQUEST_NORMAL: seq<byte> :=
    [0x44, 0x62, 0x08, 0x00, 0x10, 0x00, 0x00, 0x00, 0x00, 0x00, 0x00, 0x00, 0xBE, 0x4B]
  const CMD_RADAR_REQUEST_PRECISE: seq<byte> :=
    [0x44, 0x62, 0x08, 0x00, 0x20, 0x00, 0x00, 0x00, 0x00, 0x00, 0x00, 0x00, 0xCE, 0x4B]

  datatype StatusResponse = StatusResponse(
    softwareVersionMinor: byte, softwareVersionMajor: byte,
    hardwareVersionMinor: byte, hardwareVersionMajor: byte,
    initialized: bool)

  /** One target slot: distance in millimetres-like units (raw * 10), x and y as raw signed * 10. */
  datatype Target = Target(id: byte, pitchAngle: byte, horizontalAngle: byte, distance: uint16, x: int16, y: int16)

  datatype RadarResponse = RadarResponse(targets: byte, faultStatus: byte, people: seq<Target>)

  /**
   * Calls into the frame handler, in order. A payload is `None` exactly when
   * building it makes the source read past the end of the frame.
   */
  datatype Event = StatusEvent(status: Option<StatusResponse>) | RadarEvent(radar: Option<RadarResponse>)

  const EMPTY_TARGET: Target := Target(0, 0, 0, 0, 0, 0)

  /** `StatusResponse::create`; it reads bytes 4 to 9 of the frame. */
  function StatusOf(frame: seq<byte>): (r: Option<StatusResponse>)
    ensures r.None? <==> |frame| < 10
    ensures r.Some? ==> (r.value.initialized <==> frame[9] == 0)
  {
    if |frame| < 10 then None
    else Some(StatusResponse(frame[4], frame[5], frame[6], frame[7], frame[9] == 0))
  }

  /** How many of the ten slots `RadarResponse::create` fills from the frame. */
  function Occupied(frame: seq<byte>): nat
    requires |frame| >= HEADER_SIZE
  {
    if frame[5] < MAX_TARGETS then frame[5] else MAX_TARGETS
  }

  /** Slot `t` as decoded from the eight bytes at 12 + 8t (bytes 4 and 5 of a slot are skipped). */
  function SlotOf(frame: seq<byte>, t: nat): Target
    requires 12 + 8 * t + 8 <= |frame|
  {
    var o := 12 + 8 * t;
    Target(frame[o], frame[o + 2], frame[o + 3], 10 * (frame[o + 1] as int), 10 * Signed(frame[o + 6]), 10 * Signed(frame[o + 7]))
  }

  /** `RadarResponse::create`: ten slots, filled for t < targets and zero afterwards. */
  function RadarOf(frame: seq<byte>): (r: Option<RadarResponse>)
    requires |frame| >= HEADER_SIZE
    ensures r.None? <==> Occupied(frame) > 0 && 12 + 8 * Occupied(frame) > |frame|
    ensures r.Some? ==> r.value.faultStatus == frame[4] && r.value.targets == frame[5]
    ensures r.Some? ==> |r.value.people| == MAX_TARGETS
    ensures r.Some? ==> forall t :: 0 <= t < MAX_TARGETS ==>
      r.value.people[t] == if t < frame[5] then SlotOf(frame, t) else EMPTY_TARGET
  {
    var n := Occupied(frame);
    if n > 0 && 12 + 8 * n > |frame| then None
    else Some(RadarResponse(frame[5], frame[4],
      seq(MAX_TARGETS, t requires 0 <= t < MAX_TARGETS => if t < frame[5] then SlotOf(frame, t) else EMPTY_TARGET)))
  }

  /** `process_frame_`: the callback a complete frame triggers, by its type byte. */
  function Dispatch(frame: seq<byte>): (r: seq<Event>)
    requires |frame| >= HEADER_SIZE
    ensures |r| <= 1
    ensures r != [] <==> frame[1] == TYPE_STATUS || frame[1] == TYPE_RADAR
  {
    if frame[1] == TYPE_STATUS then [StatusEvent(StatusOf(frame))]
    else if frame[1] == TYPE_RADAR then [RadarEvent(RadarOf(frame))]
    else []
  }

  /** `drain_until_frame_start_`: drop leading bytes until the buffer starts with 0x4D or is empty. */
  function Drain(buf: seq<byte>): (r: seq<byte>)
    ensures |r| <= |buf| && r == buf[|buf| - |r|..]
    ensures r == [] || r[0] == FRAME_START
    ensures forall i :: 0 <= i < |buf| - |r| ==> buf[i] != FRAME_START
  {
    if buf == [] || buf[0] == FRAME_START then buf else Drain(buf[1..])
  }

  /** The frame length 6 + L announced by the length byte. */
  function TotalLen(buf: seq<byte>): nat
    requires |buf| >= HEADER_SIZE
  {
    HEADER_SIZE + buf[2]
  }

  /** A complete frame at the head of the buffer: enough bytes, terminator, and checksum all right. */
  predicate WellFormedAt(buf: seq<byte>)
  {
    && |buf| >= HEADER_SIZE
    && TotalLen(buf) <= |buf|
    && buf[TotalLen(buf) - 1] == FRAME_END
    && buf[TotalLen(buf) - 2] == SumOf(buf[..TotalLen(buf) - 2])
  }

  /** What one pass of the `try_parse_frame_` loop does to the buffer. */
  datatype Step = Wait | Resync(rest: seq<byte>) | Accept(frame: seq<byte>, rest: seq<byte>)

  /**
   * One pass of the loop, with the terminator-mismatch branch corrected to
   * drop the head byte before realigning (see StepAsWritten).
   */
  function StepOf(buf: seq<byte>): (r: Step)
    ensures r.Resync? ==> |r.rest| < |buf|
    ensures r.Accept? ==> |r.frame| >= HEADER_SIZE && buf == r.frame + r.rest
  {
    if |buf| < HEADER_SIZE then Wait
    else
      var total := TotalLen(buf);
      if |buf| < total then Wait
      else if buf[total - 1] != FRAME_END then Resync(Drain(buf[1..]))
      else if buf[total - 2] != SumOf(buf[..total - 2]) then Resync(buf[1..])
      else
        assert buf == buf[..total] + buf[total..];
        Accept(buf[..total], buf[total..])
  }

  /** One pass of the loop exactly as the source writes it: a terminator mismatch only realigns. */
  function StepAsWritten(buf: seq<byte>): Step
  {
    if |buf| < HEADER_SIZE then Wait
    else
      var total := TotalLen(buf);
      if |buf| < total then Wait
      else if buf[total - 1] != FRAME_END then Resync(Drain(buf))
      else if buf[total - 2] != SumOf(buf[..total - 2]) then Resync(buf[1..])
      else Accept(buf[..total], buf[total..])
  }

  datatype Parsed = Parsed(rest: seq<byte>, events: seq<Event>)

  /** The `while (buffer_.size() >= HEADER_SIZE)` loop, run to completion. */
  function ParseLoop(buf: seq<byte>): Parsed
    decreases |buf|
  {
    match StepOf(buf)
    case Wait => Parsed(buf, [])
    case Resync(rest) => ParseLoop(rest)
    case Accept(frame, rest) =>
      var p := ParseLoop(rest);
      Parsed(p.rest, Dispatch(frame) + p.events)
  }

  /** `try_parse_frame_`: realign, then loop. */
  function TryParse(buf: seq<byte>): Parsed
  {
    ParseLoop(Drain(buf))
  }

  /** A stream of bytes pushed one at a time with `push_data`, starting from buffer `buf`. */
  function Feed(buf: seq<byte>, bytes: seq<byte>): Parsed
  {
    if bytes == [] then Parsed(buf, [])
    else
      var p := Feed(buf, bytes[..|bytes| - 1]);
      var q := TryParse(p.rest + [bytes[|bytes| - 1]]);
      Parsed(q.rest, p.events + q.events)
  }

  // ---------------------------------------------------------------------------
  // The parser object

  class FrameParser {
    var buffer: seq<byte>
    var current: seq<byte>
    var events: seq<Event>

    constructor ()
      ensures buffer == [] && current == [] && events == []
    {
      buffer := [];
      current := [];
      events := [];
    }

    /** `push_data`: append the byte and parse. */
    method PushData(b: byte)
      modifies this
      ensures buffer == TryParse(old(buffer) + [b]).rest
      ensures events == old(events) + TryParse(old(buffer) + [b]).events
    {
      buffer := buffer + [b];
      TryParseFrame();
    }

    /** `get_iterator_checksum`: the 8-bit sum of a byte range. */
    static method GetIteratorChecksum(s: seq<byte>) returns (sum: byte)
      ensures sum == SumOf(s)
      ensures sum == SumInt(s) % 0x100
    {
      sum := 0;
      for i := 0 to |s|
        invariant sum == SumOf(s[..i])
      {
        assert s[..i + 1][..i] == s[..i];
        sum := (sum + s[i]) % 0x100;
      }
      assert s[..|s|] == s;
      SumOfIsSumMod256(s);
    }

    method DrainUntilFrameStart()
      modifies this`buffer
      ensures buffer == Drain(old(buffer))
    {
      while buffer != [] && buffer[0] != FRAME_START
        invariant Drain(buffer) == Drain(old(buffer))
        decreases |buffer|
      {
        buffer := buffer[1..];
      }
    }

    method ProcessFrame(frame: seq<byte>)
      requires |frame| >= HEADER_SIZE
      modifies this`events
      ensures events == old(events) + Dispatch(frame)
    {
      var msgType := frame[1];
      if msgType == TYPE_STATUS {
        events := events + [StatusEvent(StatusOf(frame))];
      } else if msgType == TYPE_RADAR {
        events := events + [RadarEvent(RadarOf(frame))];
      }
    }

    /** `try_parse_frame_`, with the terminator branch corrected as in StepOf. */
    method TryParseFrame()
      modifies this`buffer, this`current, this`events
      ensures buffer == TryParse(old(buffer)).rest
      ensures events == old(events) + TryParse(old(buffer)).events
    {
      DrainUntilFrameStart();
      ghost var goal := ParseLoop(buffer);
      while |buffer| >= HEADER_SIZE
        invariant ParseLoop(buffer).rest == goal.rest
        invariant events + ParseLoop(buffer).events == old(events) + goal.events
        decreases |buffer|
      {
        var more := ParseOnce();
        if !more {
          break;
        }
      }
      if |buffer| < HEADER_SIZE {
        LoopOnWait(buffer);
      }
    }

    /**
     * One pass of the loop body: wait for the rest of the frame, realign on
     * a bad terminator, drop a byte on a bad checksum, or take the frame and
     * hand it to `process_frame_`. `more` is false when the pass waits.
     */
    method ParseOnce() returns (more: bool)
      requires |buffer| >= HEADER_SIZE
      modifies this`buffer, this`current, this`events
      ensures more ==> |buffer| < |old(buffer)|
      ensures more ==> ParseLoop(buffer).rest == ParseLoop(old(buffer)).rest
      ensures more ==> events + ParseLoop(buffer).events == old(events) + ParseLoop(old(buffer)).events
      ensures !more ==> buffer == old(buffer) && events == old(events) && ParseLoop(buffer) == Parsed(buffer, [])
    {
      hide ParseLoop, StepOf, Dispatch, SumOf, Drain, StepAsWritten;
      ghost var before := buffer;
      var bodyLen := buffer[2];
      var totalLen := HEADER_SIZE + bodyLen;
      if |buffer| < totalLen {
        LoopOnWait(buffer);
        return false;
      }
      if buffer[totalLen - 1] != FRAME_END {
        TerminatorMismatchRealigns(buffer);
        buffer := buffer[1..];
        DrainUntilFrameStart();
        return true;
      }
      var checksum := buffer[totalLen - 2];
      var expected := GetIteratorChecksum(buffer[..totalLen - 2]);
      if checksum != expected {
        ChecksumMismatchDropsOneByte(buffer);
        buffer := buffer[1..];
        return true;
      }
      current := buffer[..totalLen];
      buffer := buffer[totalLen..];
      LoopOnAccept(before);
      ProcessFrame(current);
      return true;
    }
  }

  // ---------------------------------------------------------------------------
  // Properties of the loop

  lemma LoopOnWait(buf: seq<byte>)
    requires |buf| < HEADER_SIZE || |buf| < TotalLen(buf)
    ensures ParseLoop(buf) == Parsed(buf, [])
  {
  }

  lemma LoopOnAccept(buf: seq<byte>)
    requires WellFormedAt(buf)
    ensures ParseLoop(buf).rest == ParseLoop(buf[TotalLen(buf)..]).rest
    ensures ParseLoop(buf).events == Dispatch(buf[..TotalLen(buf)]) + ParseLoop(buf[TotalLen(buf)..]).events
  {
    StepAcceptsExactlyWellFormed(buf);
  }

  /** A pass accepts a frame exactly when the frame at the head is well formed, and takes exactly its bytes. */
  lemma StepAcceptsExactlyWellFormed(buf: seq<byte>)
    ensures StepOf(buf).Accept? <==> WellFormedAt(buf)
    ensures StepOf(buf).Accept? ==>
      StepOf(buf).frame == buf[..TotalLen(buf)] && StepOf(buf).rest == buf[TotalLen(buf)..]
  {
  }

  /** A checksum mismatch drops exactly one byte and does not realign to 0x4D. */
  lemma ChecksumMismatchDropsOneByte(buf: seq<byte>)
    requires |buf| >= HEADER_SIZE && TotalLen(buf) <= |buf|
    requires buf[TotalLen(buf) - 1] == FRAME_END
    requires buf[TotalLen(buf) - 2] != SumOf(buf[..TotalLen(buf) - 2])
    ensures StepOf(buf) == Resync(buf[1..])
    ensures ParseLoop(buf) == ParseLoop(buf[1..])
  {
  }

  /** A terminator mismatch drops the head byte and everything up to the next 0x4D. */
  lemma TerminatorMismatchRealigns(buf: seq<byte>)
    requires |buf| >= HEADER_SIZE && TotalLen(buf) <= |buf|
    requires buf[TotalLen(buf) - 1] != FRAME_END
    ensures StepOf(buf) == Resync(Drain(buf[1..]))
    ensures ParseLoop(buf) == ParseLoop(Drain(buf[1..]))
  {
  }

  /** Too few bytes for a header, or for the announced length: nothing beyond the drain is removed, no callback. */
  lemma ShortBufferIsKept(buf: seq<byte>)
    requires var d := Drain(buf); |d| < HEADER_SIZE || |d| < TotalLen(d)
    ensures TryParse(buf) == Parsed(Drain(buf), [])
  {
  }

  // ---------------------------------------------------------------------------
  // The terminator-mismatch stall

  /** The as-written loop makes no progress on a start byte whose announced terminator is wrong. */
  lemma AsWrittenTerminatorMismatchStalls(buf: seq<byte>)
    requires |buf| >= HEADER_SIZE && buf[0] == FRAME_START
    requires TotalLen(buf) <= |buf| && buf[TotalLen(buf) - 1] != FRAME_END
    ensures StepAsWritten(buf) == Resync(buf)
  {
  }

  /** Concretely: with 4D 00 00 00 00 00 buffered the source's loop repeats the same pass forever. */
  lemma AsWrittenHangsOnSixBytes()
    ensures StepAsWritten([0x4D, 0, 0, 0, 0, 0]) == Resync([0x4D, 0, 0, 0, 0, 0])
    ensures StepOf([0x4D, 0, 0, 0, 0, 0]) == Resync([])
  {
    hide StepAsWritten, StepOf, Drain, SumOf, ParseLoop;
    StallsOnZeroLength([0x4D, 0, 0, 0, 0, 0]);
  }

  /** A start byte followed by five zeros announces a six-byte frame whose last byte is not 0x4A. */
  lemma StallsOnZeroLength(buf: seq<byte>)
    requires |buf| == 6 && buf[0] == FRAME_START && buf[1] == 0 && buf[2] == 0
    requires buf[3] == 0 && buf[4] == 0 && buf[5] == 0
    ensures StepAsWritten(buf) == Resync(buf)
    ensures StepOf(buf) == Resync([])
  {
    hide StepAsWritten, StepOf, Drain, SumOf, ParseLoop;
    AsWrittenTerminatorMismatchStalls(buf);
    TerminatorMismatchRealigns(buf);
    NoStartDrainsAll(buf[1..]);
  }

  lemma NoStartDrainsAll(s: seq<byte>)
    requires forall i :: 0 <= i < |s| ==> s[i] != FRAME_START
    ensures Drain(s) == []
  {
  }

  /** Wherever the as-written pass does make progress, the corrected pass does the same thing. */
  lemma CorrectionOnlyAffectsTheStall(buf: seq<byte>)
    requires buf == [] || buf[0] != FRAME_START
    ensures StepAsWritten(buf) == StepOf(buf)
  {
    if |buf| >= HEADER_SIZE && TotalLen(buf) <= |buf| && buf[TotalLen(buf) - 1] != FRAME_END {
      assert Drain(buf) == Drain(buf[1..]);
    }
  }

  // ---------------------------------------------------------------------------
  // Frames, pushed byte by byte

  /** A frame body followed by its checksum and terminator, as the tests' `write_with_checksum` sends it. */
  function WithChecksum(body: seq<byte>): (f: seq<byte>)
    ensures |f| == |body| + 2 && f[..|body|] == body
  {
    body + [SumOf(body), FRAME_END]
  }

  /** A whole frame that starts with 0x4D and whose length byte matches its size. */
  predicate IsFrame(f: seq<byte>)
  {
    WellFormedAt(f) && |f| == TotalLen(f) && f[0] == FRAME_START
  }

  /** Any body with a start byte and a consistent length byte becomes a frame once the trailer is added. */
  lemma WithChecksumIsFrame(body: seq<byte>)
    requires |body| >= 4 && body[0] == FRAME_START && body[2] as int + 4 == |body|
    ensures IsFrame(WithChecksum(body))
  {
    var f := WithChecksum(body);
    assert f[..TotalLen(f) - 2] == body;
  }

  /** Every proper prefix of a frame is kept whole and triggers nothing. */
  lemma PrefixOfFrameWaits(f: seq<byte>, k: nat)
    requires IsFrame(f) && 0 < k < |f|
    ensures TryParse(f[..k]) == Parsed(f[..k], [])
  {
  }

  lemma SplitLast(s: seq<byte>)
    requires s != []
    ensures s[..|s| - 1] + [s[|s| - 1]] == s
  {
  }

  lemma FeedSnoc(buf: seq<byte>, bytes: seq<byte>, x: byte)
    ensures Feed(buf, bytes + [x]) ==
      Parsed(TryParse(Feed(buf, bytes).rest + [x]).rest,
             Feed(buf, bytes).events + TryParse(Feed(buf, bytes).rest + [x]).events)
  {
    assert (bytes + [x])[..|bytes|] == bytes;
  }

  lemma {:induction false} FeedPrefix(f: seq<byte>, k: nat)
    requires IsFrame(f) && k < |f|
    ensures Feed([], f[..k]) == Parsed(f[..k], [])
  {
    hide *;
    if k == 0 {
      assert f[..k] == [];
      FeedNothing([]);
    } else {
      FeedPrefix(f, k - 1);
      assert f[..k - 1] + [f[k - 1]] == f[..k];
      FeedSnoc([], f[..k - 1], f[k - 1]);
      PrefixOfFrameWaits(f, k);
    }
  }

  lemma FeedNothing(buf: seq<byte>)
    ensures Feed(buf, []) == Parsed(buf, [])
  {
  }

  /** Pushing a frame byte by byte into an empty parser decodes it exactly once and leaves nothing behind. */
  lemma FeedFrameDecodesOnce(f: seq<byte>)
    requires IsFrame(f)
    ensures Feed([], f) == Parsed([], Dispatch(f))
  {
    FeedFrameIsOneParse(f);
    FrameParsesAlone(f);
  }

  /** Feeding a frame amounts to parsing it in one go: no earlier push does anything. */
  lemma FeedFrameIsOneParse(f: seq<byte>)
    requires IsFrame(f)
    ensures Feed([], f) == TryParse(f)
  {
    hide *;
    FrameNotEmpty(f);
    FeedPrefix(f, |f| - 1);
    FeedLastOnly(f);
  }

  lemma FrameNotEmpty(f: seq<byte>)
    requires IsFrame(f)
    ensures |f| > 0
  {
  }

  lemma FeedLastOnly(bytes: seq<byte>)
    requires bytes != []
    requires Feed([], bytes[..|bytes| - 1]) == Parsed(bytes[..|bytes| - 1], [])
    ensures Feed([], bytes) == TryParse(bytes)
  {
    var n := |bytes| - 1;
    SplitLast(bytes);
    FeedSnoc([], bytes[..n], bytes[n]);
  }

  lemma FrameParsesAlone(f: seq<byte>)
    requires IsFrame(f)
    ensures TryParse(f) == Parsed([], Dispatch(f))
  {
    assert Drain(f) == f;
    LoopOnAccept(f);
    assert f[TotalLen(f)..] == [] && f[..TotalLen(f)] == f;
    assert ParseLoop([]) == Parsed([], []);
  }

  /** The bytes of a status frame as the module sends it. */
  function StatusBody(s: StatusResponse): (b: seq<byte>)
    ensures |b| == 12 && b[0] == FRAME_START && b[1] == TYPE_STATUS && b[2] == 8
  {
    [FRAME_START, TYPE_STATUS, 8, 0,
     s.softwareVersionMinor, s.softwareVersionMajor,
     s.hardwareVersionMinor, s.hardwareVersionMajor,
     0, if s.initialized then 0 else 1, 0, 0]
  }

  /** Any status, sent as a frame and pushed byte by byte, reaches the handler unchanged, exactly once. */
  lemma StatusRoundTrip(s: StatusResponse)
    ensures Feed([], WithChecksum(StatusBody(s))) == Parsed([], [StatusEvent(Some(s))])
  {
    var f := WithChecksum(StatusBody(s));
    WithChecksumIsFrame(StatusBody(s));
    FeedFrameDecodesOnce(f);
  }

  /** The radar frame of the tests: one target, 255 * 10 away, at pitch 120 and bearing 90, at (-1000, -1100). */
  lemma RadarTestVector()
    ensures var body := [0x4D, 0x62, 16, 0, 0, 1, 0, 0, 0, 0, 0, 0, 1, 255, 120, 90, 0, 0, 156, 146];
      Feed([], WithChecksum(body)) ==
        Parsed([], [RadarEvent(Some(RadarResponse(1, 0,
          [Target(1, 120, 90, 2550, -1000, -1100)] + seq(9, _ => EMPTY_TARGET))))])
  {
    var body: seq<byte> := [0x4D, 0x62, 16, 0, 0, 1, 0, 0, 0, 0, 0, 0, 1, 255, 120, 90, 0, 0, 156, 146];
    var f := WithChecksum(body);
    WithChecksumIsFrame(body);
    FeedFrameDecodesOnce(f);
    RadarTestSlots(f);
  }

  lemma RadarTestSlots(f: seq<byte>)
    requires |f| == 22 && f[..20] == [0x4D, 0x62, 16, 0, 0, 1, 0, 0, 0, 0, 0, 0, 1, 255, 120, 90, 0, 0, 156, 146]
    ensures Dispatch(f) == [RadarEvent(Some(RadarResponse(1, 0,
          [Target(1, 120, 90, 2550, -1000, -1100)] + seq(9, _ => EMPTY_TARGET))))]
  {
    assert f[1] == 0x62 && f[4] == 0 && f[5] == 1;
    assert f[12] == 1 && f[13] == 255 && f[14] == 120 && f[15] == 90 && f[18] == 156 && f[19] == 146;
    var r := RadarOf(f);
    assert r.Some?;
    var expected := [Target(1, 120, 90, 2550, -1000, -1100)] + seq(9, _ => EMPTY_TARGET);
    assert r.value.people[0] == SlotOf(f, 0) == expected[0];
    assert forall t :: 1 <= t < MAX_TARGETS ==> r.value.people[t] == expected[t];
    assert r.value.people == expected;
  }

  /** A frame announcing no targets reads only bytes 4 and 5, so it decodes however short it is. */
  lemma RadarWithoutTargets(frame: seq<byte>)
    requires |frame| >= HEADER_SIZE && frame[5] == 0
    ensures RadarOf(frame) == Some(RadarResponse(0, frame[4], seq(MAX_TARGETS, _ => EMPTY_TARGET)))
  {
    var r := RadarOf(frame);
    var empty := seq(MAX_TARGETS, _ => EMPTY_TARGET);
    assert r.Some? && |r.value.people| == |empty|;
    assert forall t :: 0 <= t < MAX_TARGETS ==> r.value.people[t] == empty[t];
    assert r.value.people == empty;
  }

  /** The shortest radar frame, `4D 62 02 00 00 00 B1 4A`, reports fault 0, no targets and ten empty slots. */
  lemma EmptyRadarReported()
    ensures Feed([], [0x4D, 0x62, 0x02, 0x00, 0x00, 0x00, 0xB1, 0x4A])
      == Parsed([], [RadarEvent(Some(RadarResponse(0, 0, seq(MAX_TARGETS, _ => EMPTY_TARGET))))])
  {
    var body: seq<byte> := [0x4D, 0x62, 0x02, 0x00, 0x00, 0x00];
    var f := WithChecksum(body);
    assert SumOf(body[..1]) == 0x4D by { assert body[..1][..0] == []; }
    assert SumOf(body[..2]) == 0xAF by { assert body[..2][..1] == body[..1]; }
    assert SumOf(body[..3]) == 0xB1 by { assert body[..3][..2] == body[..2]; }
    assert SumOf(body[..4]) == 0xB1 by { assert body[..4][..3] == body[..3]; }
    assert SumOf(body[..5]) == 0xB1 by { assert body[..5][..4] == body[..4]; }
    assert SumOf(body) == 0xB1 by { assert body[..5] == body[..|body| - 1]; }
    assert f == [0x4D, 0x62, 0x02, 0x00, 0x00, 0x00, 0xB1, 0x4A];
    WithChecksumIsFrame(body);
    FeedFrameDecodesOnce(f);
    RadarWithoutTargets(f);
  }

  /** The status frame of the tests, with its literal checksum 113: software 2.1, hardware 4.3, not initialised. */
  lemma StatusTestVector()
    ensures Feed([], [0x4D, 0x11, 0x08, 0x00, 0x01, 0x02, 0x03, 0x04, 0x00, 0x01, 0x00, 0x00, 113, 0x4A])
      == Parsed([], [StatusEvent(Some(StatusResponse(1, 2, 3, 4, false)))])
  {
    var s := StatusResponse(1, 2, 3, 4, false);
    StatusTestChecksum(StatusBody(s));
    assert WithChecksum(StatusBody(s)) == [0x4D, 0x11, 0x08, 0x00, 0x01, 0x02, 0x03, 0x04, 0x00, 0x01, 0x00, 0x00, 113, 0x4A];
    StatusRoundTrip(s);
  }

  lemma StatusTestChecksum(b: seq<byte>)
    requires |b| == 12
    requires b[0] == 0x4D && b[1] == 0x11 && b[2] == 0x08 && b[3] == 0x00
    requires b[4] == 0x01 && b[5] == 0x02 && b[6] == 0x03 && b[7] == 0x04
    requires b[8] == 0x00 && b[9] == 0x01 && b[10] == 0x00 && b[11] == 0x00
    ensures SumOf(b) == 113
  {
    hide SumOf, SumInt;
    assert SumInt(b[..1]) == 0x4D by { SumIntPrefixStep(b, 0); }
    assert SumInt(b[..2]) == 0x5E by { SumIntPrefixStep(b, 1); }
    assert SumInt(b[..3]) == 0x66 by { SumIntPrefixStep(b, 2); }
    assert SumInt(b[..4]) == 0x66 by { SumIntPrefixStep(b, 3); }
    assert SumInt(b[..5]) == 0x67 by { SumIntPrefixStep(b, 4); }
    assert SumInt(b[..6]) == 0x69 by { SumIntPrefixStep(b, 5); }
    assert SumInt(b[..7]) == 0x6C by { SumIntPrefixStep(b, 6); }
    assert SumInt(b[..8]) == 0x70 by { SumIntPrefixStep(b, 7); }
    assert SumInt(b[..9]) == 0x70 by { SumIntPrefixStep(b, 8); }
    assert SumInt(b[..10]) == 0x71 by { SumIntPrefixStep(b, 9); }
    assert SumInt(b[..11]) == 0x71 by { SumIntPrefixStep(b, 10); }
    assert SumInt(b[..12]) == 0x71 by { SumIntPrefixStep(b, 11); }
    assert b[..12] == b;
    SumOfIsSumMod256(b);
  }

  /** The version request carries the additive checksum of its first 4 bytes, then the 0x4B terminator. */
  lemma GetVersionChecksum()
    ensures |CMD_GET_VERSION| == 6 && CMD_GET_VERSION[4] == SumOf(CMD_GET_VERSION[..4]) && CMD_GET_VERSION[5] == 0x4B
  {
    hide SumOf, SumInt;
    assert SumInt(CMD_GET_VERSION[..1]) == 0x44 by { SumIntPrefixStep(CMD_GET_VERSION, 0); }
    assert SumInt(CMD_GET_VERSION[..2]) == 0x55 by { SumIntPrefixStep(CMD_GET_VERSION, 1); }
    assert SumInt(CMD_GET_VERSION[..3]) == 0x55 by { SumIntPrefixStep(CMD_GET_VERSION, 2); }
    assert SumInt(CMD_GET_VERSION[..4]) == 0x55 by { SumIntPrefixStep(CMD_GET_VERSION, 3); }
    SumOfIsSumMod256(CMD_GET_VERSION[..4]);
  }

  /** The normal radar request carries the additive checksum of its first 12 bytes, then the 0x4B terminator. */
  lemma NormalRadarRequestChecksum()
    ensures |CMD_RADAR_REQUEST_NORMAL| == 14 && CMD_RADAR_REQUEST_NORMAL[12] == SumOf(CMD_RADAR_REQUEST_NORMAL[..12]) && CMD_RADAR_REQUEST_NORMAL[13] == 0x4B
  {
    hide SumOf, SumInt;
    assert SumInt(CMD_RADAR_REQUEST_NORMAL[..1]) == 0x44 by { SumIntPrefixStep(CMD_RADAR_REQUEST_NORMAL, 0); }
    assert SumInt(CMD_RADAR_REQUEST_NORMAL[..2]) == 0xA6 by { SumIntPrefixStep(CMD_RADAR_REQUEST_NORMAL, 1); }
    assert SumInt(CMD_RADAR_REQUEST_NORMAL[..3]) == 0xAE by { SumIntPrefixStep(CMD_RADAR_REQUEST_NORMAL, 2); }
    assert SumInt(CMD_RADAR_REQUEST_NORMAL[..4]) == 0xAE by { SumIntPrefixStep(CMD_RADAR_REQUEST_NORMAL, 3); }
    assert SumInt(CMD_RADAR_REQUEST_NORMAL[..5]) == 0xBE by { SumIntPrefixStep(CMD_RADAR_REQUEST_NORMAL, 4); }
    assert SumInt(CMD_RADAR_REQUEST_NORMAL[..6]) == 0xBE by { SumIntPrefixStep(CMD_RADAR_REQUEST_NORMAL, 5); }
    assert SumInt(CMD_RADAR_REQUEST_NORMAL[..7]) == 0xBE by { SumIntPrefixStep(CMD_RADAR_REQUEST_NORMAL, 6); }
    assert SumInt(CMD_RADAR_REQUEST_NORMAL[..8]) == 0xBE by { SumIntPrefixStep(CMD_RADAR_REQUEST_NORMAL, 7); }
    assert SumInt(CMD_RADAR_REQUEST_NORMAL[..9]) == 0xBE by { SumIntPrefixStep(CMD_RADAR_REQUEST_NORMAL, 8); }
    assert SumInt(CMD_RADAR_REQUEST_NORMAL[..10]) == 0xBE by { SumIntPrefixStep(CMD_RADAR_REQUEST_NORMAL, 9); }
    assert SumInt(CMD_RADAR_REQUEST_NORMAL[..11]) == 0xBE by { SumIntPrefixStep(CMD_RADAR_REQUEST_NORMAL, 10); }
    assert SumInt(CMD_RADAR_REQUEST_NORMAL[..12]) == 0xBE by { SumIntPrefixStep(CMD_RADAR_REQUEST_NORMAL, 11); }
    SumOfIsSumMod256(CMD_RADAR_REQUEST_NORMAL[..12]);
  }

  /** The precise radar request carries the additive checksum of its first 12 bytes, then the 0x4B terminator. */
  lemma PreciseRadarRequestChecksum()
    ensures |CMD_RADAR_REQUEST_PRECISE| == 14 && CMD_RADAR_REQUEST_PRECISE[12] == SumOf(CMD_RADAR_REQUEST_PRECISE[..12]) && CMD_RADAR_REQUEST_PRECISE[13] == 0x4B
  {
    hide SumOf, SumInt;
    assert SumInt(CMD_RADAR_REQUEST_PRECISE[..1]) == 0x44 by { SumIntPrefixStep(CMD_RADAR_REQUEST_PRECISE, 0); }
    assert SumInt(CMD_RADAR_REQUEST_PRECISE[..2]) == 0xA6 by { SumIntPrefixStep(CMD_RADAR_REQUEST_PRECISE, 1); }
    assert SumInt(CMD_RADAR_REQUEST_PRECISE[..3]) == 0xAE by { SumIntPrefixStep(CMD_RADAR_REQUEST_PRECISE, 2); }
    assert SumInt(CMD_RADAR_REQUEST_PRECISE[..4]) == 0xAE by { SumIntPrefixStep(CMD_RADAR_REQUEST_PRECISE, 3); }
    assert SumInt(CMD_RADAR_REQUEST_PRECISE[..5]) == 0xCE by { SumIntPrefixStep(CMD_RADAR_REQUEST_PRECISE, 4); }
    assert SumInt(CMD_RADAR_REQUEST_PRECISE[..6]) == 0xCE by { SumIntPrefixStep(CMD_RADAR_REQUEST_PRECISE, 5); }
    assert SumInt(CMD_RADAR_REQUEST_PRECISE[..7]) == 0xCE by { SumIntPrefixStep(CMD_RADAR_REQUEST_PRECISE, 6); }
    assert SumInt(CMD_RADAR_REQUEST_PRECISE[..8]) == 0xCE by { SumIntPrefixStep(CMD_RADAR_REQUEST_PRECISE, 7); }
    assert SumInt(CMD_RADAR_REQUEST_PRECISE[..9]) == 0xCE by { SumIntPrefixStep(CMD_RADAR_REQUEST_PRECISE, 8); }
    assert SumInt(CMD_RADAR_REQUEST_PRECISE[..10]) == 0xCE by { SumIntPrefixStep(CMD_RADAR_REQUEST_PRECISE, 9); }
    assert SumInt(CMD_RADAR_REQUEST_PRECISE[..11]) == 0xCE by { SumIntPrefixStep(CMD_RADAR_REQUEST_PRECISE, 10); }
    assert SumInt(CMD_RADAR_REQUEST_PRECISE[..12]) == 0xCE by { SumIntPrefixStep(CMD_RADAR_REQUEST_PRECISE, 11); }
    SumOfIsSumMod256(CMD_RADAR_REQUEST_PRECISE[..12]);
  }
}
