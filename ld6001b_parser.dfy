/**
 * The LD6001B dialect. The same four-matcher driver as the LD6001A parser,
 * with different payloads: a `55 AA` frame carries either tracked people with
 * breath and heart-beat readings (type byte 0x01) or the sensor's heart-beat
 * configuration (any other type byte); a `01..08` frame is validated and
 * dropped; and the `{...}` read response ends at the first '}' after
 * "Monitor_Time". Once a response mentions "SoftVerison" the parser keeps
 * reading responses with the new firmware's key names.
 */
module Ld6001bParser {
  import opened Bytes
  import opened Wrappers
  import opened Text
  import opened Matching

  /** One person of a type-1 frame: its index, then five readings, each a byte converted exactly to a float. */
  datatype Person = Person(id: uint32, x: byte, y: byte, z: byte, breath: byte, heartbeat: byte)

  datatype DoorWindow = DoorWindow(x1: byte, y1: byte, x2: byte, y2: byte)

  /** The sensor's heart-beat report; `detection` is the source's `method` field. */
  datatype HeartBeat = HeartBeat(
    detection: uint16, interferes: byte, scanInterval: uint32,
    monitorInterval: uint16, heartBeatInterval: uint16, range: uint16,
    sensitivity: byte, doorWindows: seq<DoorWindow>)

  /**
   * Calls into the frame handler. A payload is `None` where building it reads
   * past the end of the buffer. `ReadParams` carries the repaired text the
   * JSON parser accepted and whether the new firmware's key names were used.
   */
  datatype Event =
    | Ack
    | SimpleRadar(people: Option<seq<Person>>)
    | HeartBeatReport(heartbeat: Option<HeartBeat>)
    | ReadParams(json: seq<byte>, newVersion: bool)
    | SaveParamFailed

  /** "Monitor_Time" */
  const MONITOR_TIME: seq<byte> := [0x4D, 0x6F, 0x6E, 0x69, 0x74, 0x6F, 0x72, 0x5F, 0x54, 0x69, 0x6D, 0x65]
  /** "SoftVerison", spelled as the firmware spells it */
  const SOFT_VERISON: seq<byte> := [0x53, 0x6F, 0x66, 0x74, 0x56, 0x65, 0x72, 0x69, 0x73, 0x6F, 0x6E]
  /** The type byte of a type-1 frame that carries people. */
  const PEOPLE_TYPE: byte := 0x01

  // ---------------------------------------------------------------------------
  // Type-1 payloads

  /** Person `i` of a people frame: id `i`, readings from the five bytes at 6 + 5i. */
  function PersonAt(buf: seq<byte>, i: nat): (p: Person)
    requires i < 256 && 5 * i + 11 <= |buf|
    ensures p.id == i
  {
    var o := 5 * i + 6;
    Person(i, buf[o], buf[o + 1], buf[o + 2], buf[o + 3], buf[o + 4])
  }

  /** The people of a type-1 frame of type 0x01: byte 4 counts them. */
  function PeopleOf(buf: seq<byte>): (r: Option<seq<Person>>)
    ensures r.Some? <==> |buf| >= 5 && (buf[4] == 0 || 5 * buf[4] + 6 <= |buf|)
    ensures r.Some? ==> |r.value| == buf[4]
    ensures r.Some? ==> forall i :: 0 <= i < |r.value| ==> r.value[i] == PersonAt(buf, i)
  {
    if |buf| < 5 then None
    else
      var count := buf[4];
      if count > 0 && 5 * count + 6 > |buf| then None
      else Some(seq(count, i requires 0 <= i < count => PersonAt(buf, i)))
  }

  /** A count of zero reads nothing past byte 4: the list is empty. */
  lemma NoPeopleDecodeEmpty(buf: seq<byte>)
    requires |buf| >= 5 && buf[4] == 0
    ensures PeopleOf(buf) == Some([])
  {
  }

  /** `buffer_[5] << 4 | buffer_[4]`, truncated to 16 bits (it never exceeds 12). */
  function MethodOf(lo: byte, hi: byte): (r: uint16)
    ensures r < 0x1000
  {
    assert Pow2(12) == 0x1000;
    OrBits(16 * hi, lo, 12)
  }

  /** Door window `i` of a heart-beat frame, from the four bytes at 17 + 4i. */
  function DoorWindowAt(buf: seq<byte>, i: nat): DoorWindow
    requires 4 * i + 21 <= |buf|
  {
    var o := 4 * i + 17;
    DoorWindow(buf[o], buf[o + 1], buf[o + 2], buf[o + 3])
  }

  /** The heart-beat report of a type-1 frame of any type but 0x01; its last byte read is byte 40. */
  function HeartBeatOf(buf: seq<byte>): (r: Option<HeartBeat>)
    ensures r.Some? <==> |buf| >= 41
    ensures r.Some? ==> var h := r.value;
      && h.detection == MethodOf(buf[4], buf[5]) && h.interferes == buf[6]
      && h.scanInterval == ReadUint32(buf, 6) && h.monitorInterval == ReadUint16(buf, 10)
      && h.heartBeatInterval == ReadUint16(buf, 12) && h.range == ReadUint16(buf, 14)
      && h.sensitivity == buf[16]
    ensures r.Some? ==> |r.value.doorWindows| == 6
    ensures r.Some? ==> forall i :: 0 <= i < 6 ==> r.value.doorWindows[i] == DoorWindowAt(buf, i)
  {
    if |buf| < 41 then None
    else
      Some(HeartBeat(MethodOf(buf[4], buf[5]), buf[6], ReadUint32(buf, 6),
                     ReadUint16(buf, 10), ReadUint16(buf, 12), ReadUint16(buf, 14), buf[16],
                     seq(6, i requires 0 <= i < 6 => DoorWindowAt(buf, i))))
  }

  /** The low four bits of the method are byte 4's; above them byte 5 is or-ed with byte 4's high bits. */
  lemma MethodBits(lo: byte, hi: byte)
    ensures MethodOf(lo, hi) % 16 == lo % 16
    ensures MethodOf(lo, hi) / 16 == OrBits(hi, lo / 16, 8)
  {
    OrBitsShiftFour(hi, lo, 8);
    DigitSplit(MethodOf(lo, hi), lo % 16, OrBits(hi, lo / 16, 8));
  }

  lemma DigitSplit(m: nat, low: nat, high: nat)
    requires low < 16 && m == low + 16 * high
    ensures m % 16 == low && m / 16 == high
  {
  }

  /** A shift of four, not eight, lets the two bytes collide: 10 00 and 00 01 give the same method. */
  lemma MethodBytesCollide()
    ensures MethodOf(0x10, 0x00) == MethodOf(0x00, 0x01) == 0x10
  {
    MethodBits(0x10, 0x00);
    MethodBits(0x00, 0x01);
    OrBitsCommutes(0, 1, 8);
    assert OrBits(1, 0, 8) == 1 + 2 * OrBits(0, 0, 7);
    OrBitsOfZeros(7);
  }

  lemma {:induction false} OrBitsOfZeros(n: nat)
    ensures OrBits(0, 0, n) == 0
  {
    if n > 0 {
      OrBitsOfZeros(n - 1);
    }
  }

  /** The scan interval is read from byte 6 on, so its low byte is always the interference byte. */
  lemma ScanIntervalOverlapsInterferes(buf: seq<byte>)
    requires HeartBeatOf(buf).Some?
    ensures HeartBeatOf(buf).value.scanInterval % 0x100 == HeartBeatOf(buf).value.interferes
  {
  }

  /** The call a type-1 frame makes, chosen by its type byte. */
  function Type1Report(buf: seq<byte>): (e: Event)
    requires |buf| >= 4
    ensures e.SimpleRadar? || e.HeartBeatReport?
    ensures e.SimpleRadar? <==> buf[3] == PEOPLE_TYPE
  {
    if buf[3] == PEOPLE_TYPE then SimpleRadar(PeopleOf(buf)) else HeartBeatReport(HeartBeatOf(buf))
  }

  // ---------------------------------------------------------------------------
  // The four matchers as functions of the buffer

  function AtOkMatch(buf: seq<byte>): Outcome<Event>
  {
    match AtOk(buf)
    case NoMatch => Rejected
    case Wait => Pending
    case Good(n) => Matched(buf[n..], [Ack], false)
  }

  /** `match_binary_type1_`, waiting for the type byte too; a frame clears the whole buffer. */
  function Type1Match(buf: seq<byte>): Outcome<Event>
  {
    match Type1Framing(buf, 4)
    case NoMatch => Rejected
    case Wait => Pending
    case Good(_) => Matched([], [Type1Report(buf)], false)
  }

  /**
   * `match_binary_type1_` as written: from two bytes on it reads the length
   * (index 2) and the type (index 3), which `stale` supplies when they lie
   * past the end; the payload reads past the end yield no decoding.
   */
  function Type1MatchAsWritten(buf: seq<byte>, stale: seq<byte>): Outcome<Event>
    requires |stale| >= 2
  {
    match Type1FramingAsWritten(buf, stale)
    case NoMatch => Rejected
    case Wait => Pending
    case Good(_) =>
      var frameType := (buf + stale)[3];
      Matched([], [if frameType == PEOPLE_TYPE then SimpleRadar(PeopleOf(buf)) else HeartBeatReport(HeartBeatOf(buf))], false)
  }

  /** Once the type byte is present the correction changes nothing. */
  lemma Type1AsWrittenAgreesLater(buf: seq<byte>, stale: seq<byte>)
    requires |stale| >= 2 && |buf| >= 4
    ensures Type1MatchAsWritten(buf, stale) == Type1Match(buf)
  {
    Matching.Type1AsWrittenAgreesLater(buf, stale);
    assert (buf + stale)[3] == buf[3];
  }

  /**
   * With three bytes buffered the two differ whatever the storage past the
   * end holds: `55 AA 01` is rejected as written, and `55 AA 00` completes
   * with a callback chosen by a stale type byte; the corrected matcher waits
   * on both.
   */
  lemma Type1AsWrittenDecidesEarly(stale: seq<byte>)
    requires |stale| >= 2
    ensures Type1MatchAsWritten([0x55, 0xAA, 0x01], stale) == Rejected
    ensures Type1Match([0x55, 0xAA, 0x01]) == Pending
    ensures Type1MatchAsWritten([0x55, 0xAA, 0x00], stale) ==
      Matched([], [if stale[0] == PEOPLE_TYPE then SimpleRadar(None) else HeartBeatReport(None)], false)
    ensures Type1Match([0x55, 0xAA, 0x00]) == Pending
  {
    var rejected: seq<byte> := [0x55, 0xAA, 0x01];
    var taken: seq<byte> := [0x55, 0xAA, 0x00];
    assert Between(rejected, 2, 2) == [] && Between(taken, 2, 2) == [];
    assert (rejected + stale)[2] == 1 && (taken + stale)[2] == 0 && (taken + stale)[3] == stale[0];
  }

  /** `match_binary_type2_`: a valid frame clears the buffer and calls nothing. */
  function Type2Match(buf: seq<byte>): Outcome<Event>
  {
    match Type2Framing(buf)
    case NoMatch => Rejected
    case Wait => Pending
    case Good(_) => Matched([], [], false)
  }

  /**
   * Where the read response ends: the first '}' at or after the first
   * "Monitor_Time"; nowhere without the marker, or without a '}' after it.
   */
  function ReadEnd(buf: seq<byte>): (r: Option<nat>)
    ensures r.Some? ==> r.value < |buf|
    ensures Find(buf, MONITOR_TIME, 0).None? ==> r.None?
    ensures Find(buf, MONITOR_TIME, 0).Some? ==> var t := Find(buf, MONITOR_TIME, 0).value;
      if exists j :: t <= j < |buf| && buf[j] == CLOSE_BRACE[0] then
        && r.Some? && t <= r.value && buf[r.value] == CLOSE_BRACE[0]
        && forall j :: t <= j < r.value ==> buf[j] != CLOSE_BRACE[0]
      else r.None?
  {
    match Find(buf, MONITOR_TIME, 0)
    case None => None
    case Some(t) =>
      assert forall j :: t <= j ==> (OccursAt(buf, CLOSE_BRACE, j) <==> j < |buf| && buf[j] == CLOSE_BRACE[0]) by {
        forall j | t <= j ensures OccursAt(buf, CLOSE_BRACE, j) <==> j < |buf| && buf[j] == CLOSE_BRACE[0] {
          OccursByte(buf, CLOSE_BRACE[0], j);
        }
      }
      Find(buf, CLOSE_BRACE, t)
  }

  /** Without a '}' the response waits, however much text has arrived: there is no other end marker. */
  lemma ReadEndNeedsBrace(buf: seq<byte>)
    requires forall j :: 0 <= j < |buf| ==> buf[j] != CLOSE_BRACE[0]
    ensures ReadEnd(buf) == None
  {
  }

  /** The substitutions that turn the firmware's listing into JSON, in the order they are applied. */
  const REPAIRS: seq<(seq<byte>, seq<byte>)> := [([0x09, 0x0A], [CR, LF]), ([0xA3, 0xBA], SPACE)]

  /** The listing repaired: the two substitutions, then a closing brace. */
  function Repair(s: seq<byte>): (r: seq<byte>)
    ensures |r| > 0 && r[|r| - 1] == CLOSE_BRACE[0]
  {
    ReplaceEach(s, REPAIRS) + CLOSE_BRACE
  }

  /** Whether the new firmware's marker appears anywhere in the buffer (not only in the response). */
  predicate MentionsVersion(buf: seq<byte>)
  {
    Find(buf, SOFT_VERISON, 0).Some?
  }

  /**
   * `match_read_response_`: complete once the end is found, whatever the JSON
   * parser makes of the text; the flag the key names are chosen by is the old
   * one or-ed with this buffer's marker.
   */
  function ReadMatch(buf: seq<byte>, parses: seq<byte> -> bool, newVersion: bool): Outcome<Event>
  {
    if buf == [] || buf[0] != OPEN_BRACE then Rejected
    else
      match ReadEnd(buf)
      case None => Pending
      case Some(e) =>
        var seen := MentionsVersion(buf);
        var text := Repair(buf[..e]);
        Matched(buf[e + 1..], if parses(text) then [Ack, ReadParams(text, newVersion || seen)] else [], seen)
  }

  /** Only the read-response matcher can see the new-firmware marker. */
  lemma OnlyReadSeesVersion(buf: seq<byte>)
    ensures AtOkMatch(buf).Matched? ==> !AtOkMatch(buf).versionSeen
    ensures Type1Match(buf).Matched? ==> !Type1Match(buf).versionSeen
    ensures Type2Match(buf).Matched? ==> !Type2Match(buf).versionSeen
  {
  }

  /** `match_save_para_fail_`, which the parser never runs. */
  function SaveParaFailMatch(buf: seq<byte>): Outcome<Event>
  {
    match SaveParaFail(buf)
    case NoMatch => Rejected
    case Wait => Pending
    case Good(n) => if n <= |buf| then Matched(buf[n..], [SaveParamFailed], false) else Rejected
  }

  /** Were it run, it would report the marker once and keep what follows it. */
  lemma SaveParaFailWouldReport(rest: seq<byte>)
    ensures SaveParaFailMatch(SAVE_PARA_FAIL + rest) == Matched(rest, [SaveParamFailed], false)
  {
    SaveParaFailTakesMarker(rest, 0);
    assert (SAVE_PARA_FAIL + rest)[16..] == rest;
  }

  /** The matchers in the order the parser lists them. */
  function Outcomes(buf: seq<byte>, parses: seq<byte> -> bool, newVersion: bool): (r: seq<Outcome<Event>>)
    ensures |r| == 4
  {
    [AtOkMatch(buf), Type1Match(buf), Type2Match(buf), ReadMatch(buf, parses, newVersion)]
  }

  function PassOf(parses: seq<byte> -> bool, newVersion: bool): seq<byte> -> Outcome<Event>
  {
    b => Pass(Outcomes(b, parses, newVersion))
  }

  // ---------------------------------------------------------------------------
  // The parser object

  class FrameParser {
    var buffer: seq<byte>
    var state: ParseState
    var events: seq<Event>
    /** Set once a read response has mentioned "SoftVerison"; never cleared. */
    var newVersion: bool
    /** Whether the JSON parser accepts a text (ArduinoJson is not part of this model). */
    const parses: seq<byte> -> bool

    constructor (parses: seq<byte> -> bool)
      ensures buffer == [] && state == Idle && events == [] && !newVersion && this.parses == parses
    {
      buffer := [];
      state := Idle;
      events := [];
      newVersion := false;
      this.parses := parses;
    }

    /** `push_data`: append the byte and run the matchers. */
    method PushData(b: byte)
      modifies this
      ensures var d := Drive(old(buffer) + [b], PassOf(parses, old(newVersion)));
        && buffer == d.buffer && state == d.state && events == old(events) + d.events
        && newVersion == (old(newVersion) || d.versionSeen)
    {
      buffer := buffer + [b];
      TryParseFrame();
    }

    method DrainOneByte()
      modifies this`buffer
      ensures buffer == if old(buffer) == [] then [] else old(buffer)[1..]
    {
      if buffer != [] {
        buffer := buffer[1..];
      }
    }

    /** `try_parse_frame_`. */
    method TryParseFrame()
      requires buffer != []
      modifies this`buffer, this`state, this`events, this`newVersion
      ensures var d := Drive(old(buffer), PassOf(parses, old(newVersion)));
        && buffer == d.buffer && state == d.state && events == old(events) + d.events
        && newVersion == (old(newVersion) || d.versionSeen)
    {
      var more := true;
      while more
        invariant more ==> && buffer != [] && events == old(events) && newVersion == old(newVersion)
                           && Drive(buffer, PassOf(parses, newVersion)) == Drive(old(buffer), PassOf(parses, old(newVersion)))
        invariant !more ==> var d := Drive(old(buffer), PassOf(parses, old(newVersion)));
          && buffer == d.buffer && state == d.state && events == old(events) + d.events
          && newVersion == (old(newVersion) || d.versionSeen)
        decreases if more then |buffer| + 1 else 0
      {
        more := ParsePass();
      }
    }

    /** One iteration of the loop in `try_parse_frame_`: run the matchers, settle the state, say whether to go on. */
    method ParsePass() returns (more: bool)
      requires buffer != []
      modifies this`buffer, this`state, this`events, this`newVersion
      ensures var d := Drive(old(buffer), PassOf(parses, old(newVersion)));
        if more then
          && buffer != [] && |buffer| < |old(buffer)| && events == old(events) && newVersion == old(newVersion)
          && Drive(buffer, PassOf(parses, newVersion)) == d
        else
          && buffer == d.buffer && state == d.state && events == old(events) + d.events
          && newVersion == (old(newVersion) || d.versionSeen)
    {
      // Only the verdict of the pass matters here, not how the matchers reach it.
      hide Outcomes;
      ghost var before, ev0, nv0 := buffer, events, newVersion;
      ghost var pass := PassOf(parses, nv0);
      var complete, partial, invalid := RunMatchers();
      ghost var mid := buffer;
      SettlePass(complete, partial, invalid);
      more := |buffer| > 0 && invalid;
      SettleStep(pass, before, ev0, mid, events, state, buffer, more);
      DriveKeepsVersionSeen(before, pass);
    }

    /** The end of one pass of `try_parse_frame_`: the new state, the dropped byte, the size limit. */
    method SettlePass(complete: bool, partial: bool, invalid: bool)
      modifies this`buffer, this`state
      ensures state == if partial then ReadingHeader else if invalid then InvalidFrame else if complete then Idle else old(state)
      ensures buffer == Cap(if !partial && invalid && old(buffer) != [] then old(buffer)[1..] else old(buffer))
    {
      if complete {
        state := Idle;
      }
      if partial {
        state := ReadingHeader;
      } else if invalid {
        state := InvalidFrame;
        DrainOneByte();
      }
      if |buffer| > BUFFER_CAP {
        buffer := [];
      }
    }

    /** One pass over the matcher list, stopping at the first COMPLETE. */
    method RunMatchers() returns (complete: bool, partial: bool, invalid: bool)
      requires buffer != []
      modifies this`buffer, this`state, this`events, this`newVersion
      ensures var p := PassOf(parses, old(newVersion))(old(buffer));
        && complete == p.Matched? && partial == p.Pending? && invalid == p.Rejected?
        && Applied(p, old(buffer), old(events), buffer, events)
        && newVersion == (old(newVersion) || (p.Matched? && p.versionSeen))
    {
      // The matcher methods' contracts name their verdicts; their definitions are not needed.
      hide AtOkMatch, Type1Match, Type2Match, ReadMatch;
      ghost var outs := Outcomes(buffer, parses, newVersion);
      ghost var start := buffer;
      OnlyReadSeesVersion(start);
      invalid, complete, partial := true, false, false;
      var i := 0;
      while i < 4 && !complete
        invariant 0 <= i <= 4
        invariant !complete ==> buffer == start && events == old(events) && newVersion == old(newVersion)
        invariant !complete ==> invalid == !partial
        invariant !complete ==> forall j :: 0 <= j < i ==> !outs[j].Matched?
        invariant !complete ==> (partial <==> exists j :: 0 <= j < i && outs[j].Pending?)
        invariant complete ==> && !partial && !invalid && Pass(outs).Matched?
                               && Applied(Pass(outs), start, old(events), buffer, events)
                               && newVersion == (old(newVersion) || Pass(outs).versionSeen)
        decreases 4 - i
      {
        var result;
        if i == 0 {
          result := MatchAtOk();
        } else if i == 1 {
          result := MatchBinaryType1();
        } else if i == 2 {
          result := MatchBinaryType2();
        } else {
          result := MatchReadResponse();
        }
        assert result == ResultOf(outs[i]);
        if result == Complete {
          PassFirstMatch(outs, i);
          complete, invalid, partial := true, false, false;
        } else if result == Partial {
          partial, invalid := true, false;
        } else {
          invalid := !partial;
        }
        i := i + 1;
      }
      assert PassOf(parses, old(newVersion))(start) == Pass(outs);
    }

    /** `match_at_ok_`: the scan, then the erase and the callback. */
    method MatchAtOk() returns (r: MatchResult)
      modifies this`buffer, this`events
      ensures r == ResultOf(AtOkMatch(old(buffer)))
      ensures Applied(AtOkMatch(old(buffer)), old(buffer), old(events), buffer, events)
    {
      var f := ScanAtOk(buffer);
      match f
      case NoMatch =>
        return Invalid;
      case Wait =>
        return Partial;
      case Good(n) =>
        buffer := buffer[n..];
        events := events + [Ack];
        return Complete;
    }

    /** `match_binary_type1_`, waiting for the length and type bytes before reading them. */
    method MatchBinaryType1() returns (r: MatchResult)
      modifies this`buffer, this`state, this`events
      ensures r == ResultOf(Type1Match(old(buffer)))
      ensures Applied(Type1Match(old(buffer)), old(buffer), old(events), buffer, events)
      ensures state == if PrefixAgrees(old(buffer), TYPE1_HEADER) && |old(buffer)| >= 4 then ReadingHeader else old(state)
    {
      var size := |buffer|;
      var matchSize := Min(2, size);
      if buffer[..matchSize] != TYPE1_HEADER[..matchSize] {
        return Invalid;
      }
      if size < 4 {
        return Partial;
      }
      state := ReadingHeader;
      var frameType := buffer[3];
      var bodyLen := buffer[2];
      if size < bodyLen {
        return Partial;
      }
      var ok := ValidateFrame(buffer);
      if !ok {
        return Invalid;
      }
      ProcessBinaryType1Response(frameType);
      return Complete;
    }

    /** `process_binary_type1_response`: decode the payload the type byte selects, report it, clear the buffer. */
    method ProcessBinaryType1Response(frameType: byte)
      requires |buffer| >= 4 && frameType == buffer[3]
      modifies this`buffer, this`events
      ensures buffer == [] && events == old(events) + [Type1Report(old(buffer))]
    {
      if frameType == PEOPLE_TYPE {
        var people := DecodePeople(buffer);
        events := events + [SimpleRadar(people)];
      } else {
        var heartbeat := DecodeHeartBeat(buffer);
        events := events + [HeartBeatReport(heartbeat)];
      }
      buffer := [];
    }

    /** The people loop of `process_binary_type1_response`. */
    static method DecodePeople(buf: seq<byte>) returns (people: Option<seq<Person>>)
      ensures people == PeopleOf(buf)
    {
      if |buf| < 5 || (buf[4] > 0 && 5 * buf[4] + 6 > |buf|) {
        return None;
      }
      var count := buf[4];
      var ps: seq<Person> := [];
      for i := 0 to count
        invariant |ps| == i
        invariant forall j :: 0 <= j < i ==> ps[j] == PersonAt(buf, j)
      {
        ps := ps + [PersonAt(buf, i)];
      }
      ghost var decoded := PeopleOf(buf);
      assert decoded.Some? && |decoded.value| == count;
      assert ps == decoded.value;
      return Some(ps);
    }

    /** The heart-beat branch of `process_binary_type1_response`, with its door-window loop. */
    static method DecodeHeartBeat(buf: seq<byte>) returns (heartbeat: Option<HeartBeat>)
      ensures heartbeat == HeartBeatOf(buf)
    {
      if |buf| < 41 {
        return None;
      }
      var windows: seq<DoorWindow> := [];
      for i := 0 to 6
        invariant |windows| == i
        invariant forall j :: 0 <= j < i ==> windows[j] == DoorWindowAt(buf, j)
      {
        windows := windows + [DoorWindowAt(buf, i)];
      }
      ghost var decoded := HeartBeatOf(buf);
      assert windows == decoded.value.doorWindows;
      return Some(HeartBeat(MethodOf(buf[4], buf[5]), buf[6], ReadUint32(buf, 6),
                            ReadUint16(buf, 10), ReadUint16(buf, 12), ReadUint16(buf, 14), buf[16], windows));
    }

    /** `match_binary_type2_`, waiting until bytes 12 to 15 have arrived. */
    method MatchBinaryType2() returns (r: MatchResult)
      modifies this`buffer, this`events
      ensures r == ResultOf(Type2Match(old(buffer)))
      ensures Applied(Type2Match(old(buffer)), old(buffer), old(events), buffer, events)
    {
      var size := |buffer|;
      var matchSize := Min(8, size);
      if TYPE2_HEADER[..matchSize] != buffer[..matchSize] {
        return Invalid;
      } else if size < 8 + 4 {
        return Partial;
      }
      var bodyLen := (ReadUint32(buffer, 8) + 1) % TWO_32;
      if size < bodyLen {
        return Partial;
      }
      if size < 16 {
        return Partial;
      }
      var ok := ValidateFrame(buffer);
      if !ok {
        return Invalid;
      }
      ProcessBinaryType2Response();
      return Complete;
    }

    /** `process_binary_type2_response`: the frame is dropped unread. */
    method ProcessBinaryType2Response()
      modifies this`buffer
      ensures buffer == []
    {
      buffer := [];
    }

    /** `match_read_response_` (framing, version marker and substitutions; the JSON parse is `parses`). */
    method MatchReadResponse() returns (r: MatchResult)
      modifies this`buffer, this`events, this`newVersion
      ensures var o := ReadMatch(old(buffer), parses, old(newVersion));
        && r == ResultOf(o)
        && Applied(o, old(buffer), old(events), buffer, events)
        && newVersion == (old(newVersion) || (o.Matched? && o.versionSeen))
    {
      if buffer == [] || buffer[0] != OPEN_BRACE {
        return Invalid;
      }
      var endPos := FindResponseEnd(buffer);
      if endPos.None? {
        return Partial;
      }
      var version := Find(buffer, SOFT_VERISON, 0);
      if version.Some? {
        newVersion := true;
      }
      TakeResponse(endPos.value);
      return Complete;
    }

    /** The completing half of `match_read_response_`: cut the response off and hand it on repaired. */
    method TakeResponse(endPos: nat)
      requires endPos < |buffer|
      modifies this`buffer, this`events
      ensures buffer == old(buffer)[endPos + 1..]
      ensures var text := Repair(old(buffer)[..endPos]);
        events == old(events) + if parses(text) then [Ack, ReadParams(text, newVersion)] else []
    {
      var response := buffer[..endPos];
      buffer := buffer[endPos + 1..];
      response := RepairText(response);
      if parses(response) {
        events := events + [Ack, ReadParams(response, newVersion)];
      }
    }

    /** The two searches of `match_read_response_` that locate the end of the response. */
    static method FindResponseEnd(buf: seq<byte>) returns (endPos: Option<nat>)
      ensures endPos == ReadEnd(buf)
    {
      var monitorTime := Find(buf, MONITOR_TIME, 0);
      if monitorTime.None? {
        return None;
      }
      endPos := Find(buf, CLOSE_BRACE, monitorTime.value);
    }

    /** The `replaceAll` calls and the appended brace of `match_read_response_`. */
    static method RepairText(s: seq<byte>) returns (r: seq<byte>)
      ensures r == Repair(s)
    {
      ghost var rules := REPAIRS;
      r := ReplaceAll(s, [0x09, 0x0A], [CR, LF]);
      assert ReplaceEach(s, rules) == ReplaceEach(r, rules[1..]);
      r := ReplaceAll(r, [0xA3, 0xBA], SPACE);
      assert ReplaceEach(s, rules) == ReplaceEach(r, rules[2..]);
      r := r + CLOSE_BRACE;
    }

    /** `match_save_para_fail_`, kept as written although no matcher list includes it. */
    method MatchSaveParaFail() returns (r: MatchResult)
      modifies this`buffer, this`events
      ensures r == ResultOf(SaveParaFailMatch(old(buffer)))
      ensures Applied(SaveParaFailMatch(old(buffer)), old(buffer), old(events), buffer, events)
    {
      var size := |buffer|;
      var matchSize := Min(16, size);
      if SAVE_PARA_FAIL[..matchSize] != buffer[..matchSize] {
        return Invalid;
      } else if size < 16 {
        return Partial;
      }
      buffer := buffer[16..];
      events := events + [SaveParamFailed];
      return Complete;
    }
  }

  /** A drive reports the marker only from the pass that completes it. */
  lemma DriveKeepsVersionSeen(buf: seq<byte>, pass: seq<byte> -> Outcome<Event>)
    requires buf != []
    ensures Drive(buf, pass).versionSeen ==> Drive(buf, pass).state == Idle
  {
  }

  // ---------------------------------------------------------------------------
  // Feeding whole messages, one `push_data` at a time

  /** What a parser holds between pushes. */
  datatype Parser = Parser(buffer: seq<byte>, state: ParseState, events: seq<Event>, newVersion: bool)

  /** One `push_data`: append the byte and drive the matchers over the buffer. */
  function Push(p: Parser, b: byte, parses: seq<byte> -> bool): (r: Parser)
    ensures |r.buffer| <= BUFFER_CAP
    ensures p.newVersion ==> r.newVersion
  {
    var d := Drive(p.buffer + [b], PassOf(parses, p.newVersion));
    Parser(d.buffer, d.state, p.events + d.events, p.newVersion || d.versionSeen)
  }

  /** `push_data` for each byte in turn. */
  function Feed(p: Parser, bytes: seq<byte>, parses: seq<byte> -> bool): Parser
    decreases |bytes|
  {
    if bytes == [] then p else Push(Feed(p, bytes[..|bytes| - 1], parses), bytes[|bytes| - 1], parses)
  }

  /** The new-firmware flag is never cleared, whatever arrives. */
  lemma {:induction false} FeedKeepsVersion(p: Parser, bytes: seq<byte>, parses: seq<byte> -> bool)
    requires p.newVersion
    ensures Feed(p, bytes, parses).newVersion
    decreases |bytes|
  {
    if bytes != [] {
      FeedKeepsVersion(p, bytes[..|bytes| - 1], parses);
    }
  }

  lemma {:induction false} FeedAppend(p: Parser, a: seq<byte>, b: seq<byte>, parses: seq<byte> -> bool)
    ensures Feed(p, a + b, parses) == Feed(Feed(p, a, parses), b, parses)
    decreases |b|
  {
    if b == [] {
      assert a + b == a;
    } else {
      assert (a + b)[..|a + b| - 1] == a + b[..|b| - 1];
      FeedAppend(p, a, b[..|b| - 1], parses);
    }
  }

  lemma FeedEmpty(p: Parser, parses: seq<byte> -> bool)
    ensures Feed(p, [], parses) == p
  {
  }

  lemma FeedOne(p: Parser, bytes: seq<byte>, k: nat, parses: seq<byte> -> bool)
    requires k < |bytes|
    ensures Feed(p, bytes[..k + 1], parses) == Push(Feed(p, bytes[..k], parses), bytes[k], parses)
  {
    assert bytes[..k + 1][..k] == bytes[..k];
  }

  lemma AtOkRejectsHead(buf: seq<byte>)
    requires buf != [] && buf[0] != AT_PREFIX[0]
    ensures AtOkMatch(buf) == Rejected
  {
    assert buf[..Min(3, |buf|)][0] == buf[0];
  }

  lemma Type1RejectsHead(buf: seq<byte>)
    requires buf != [] && buf[0] != TYPE1_HEADER[0]
    ensures Type1Match(buf) == Rejected
  {
    assert buf[..Min(2, |buf|)][0] == buf[0];
  }

  lemma Type2RejectsHead(buf: seq<byte>)
    requires buf != [] && buf[0] != TYPE2_HEADER[0]
    ensures Type2Match(buf) == Rejected
  {
    assert buf[..Min(8, |buf|)][0] == buf[0];
  }

  lemma ReadRejectsHead(buf: seq<byte>, parses: seq<byte> -> bool, newVersion: bool)
    requires buf != [] && buf[0] != OPEN_BRACE
    ensures ReadMatch(buf, parses, newVersion) == Rejected
  {
  }

  /** The verdict of a pass, matcher by matcher. */
  lemma PassOfIs(buf: seq<byte>, parses: seq<byte> -> bool, nv: bool)
    ensures PassOf(parses, nv)(buf) == Pass([AtOkMatch(buf), Type1Match(buf), Type2Match(buf), ReadMatch(buf, parses, nv)])
  {
    hide AtOkMatch, Type1Match, Type2Match, ReadMatch;
  }

  /** A pass over a buffer that no message can start with rejects it. */
  lemma PassOnForeign(buf: seq<byte>, parses: seq<byte> -> bool, nv: bool)
    requires buf != [] && !Leads(buf[0])
    ensures PassOf(parses, nv)(buf).Rejected?
  {
    hide AtOkMatch, Type1Match, Type2Match, ReadMatch;
    AtOkRejectsHead(buf);
    Type1RejectsHead(buf);
    Type2RejectsHead(buf);
    ReadRejectsHead(buf, parses, nv);
    PassOfIs(buf, parses, nv);
  }

  /** A buffer that starts with 0x55 is decided by the type-1 matcher alone. */
  lemma PassOnType1(buf: seq<byte>, parses: seq<byte> -> bool, nv: bool)
    requires buf != [] && buf[0] == TYPE1_HEADER[0]
    ensures PassOf(parses, nv)(buf) == Type1Match(buf)
  {
    hide AtOkMatch, Type1Match, Type2Match, ReadMatch;
    AtOkRejectsHead(buf);
    Type2RejectsHead(buf);
    ReadRejectsHead(buf, parses, nv);
    PassOfIs(buf, parses, nv);
    PassDecidedBy([AtOkMatch(buf), Type1Match(buf), Type2Match(buf), ReadMatch(buf, parses, nv)], 1);
  }

  /** A buffer that starts with 0x01 is decided by the type-2 matcher alone. */
  lemma PassOnType2(buf: seq<byte>, parses: seq<byte> -> bool, nv: bool)
    requires buf != [] && buf[0] == TYPE2_HEADER[0]
    ensures PassOf(parses, nv)(buf) == Type2Match(buf)
  {
    hide AtOkMatch, Type1Match, Type2Match, ReadMatch;
    AtOkRejectsHead(buf);
    Type1RejectsHead(buf);
    ReadRejectsHead(buf, parses, nv);
    PassOfIs(buf, parses, nv);
    PassDecidedBy([AtOkMatch(buf), Type1Match(buf), Type2Match(buf), ReadMatch(buf, parses, nv)], 2);
  }

  /** A buffer that starts with '{' is decided by the read-response matcher alone. */
  lemma PassOnRead(buf: seq<byte>, parses: seq<byte> -> bool, nv: bool)
    requires buf != [] && buf[0] == OPEN_BRACE
    ensures PassOf(parses, nv)(buf) == ReadMatch(buf, parses, nv)
  {
    hide AtOkMatch, Type1Match, Type2Match, ReadMatch;
    AtOkRejectsHead(buf);
    Type1RejectsHead(buf);
    Type2RejectsHead(buf);
    PassOfIs(buf, parses, nv);
    PassDecidedBy([AtOkMatch(buf), Type1Match(buf), Type2Match(buf), ReadMatch(buf, parses, nv)], 3);
  }

  /**
   * The four listed matchers claim different leading bytes: on a non-empty
   * buffer at most one of them does not reject, and that one decides the
   * pass, so the order of the list cannot change a verdict.
   */
  lemma MatchersExclusive(buf: seq<byte>, parses: seq<byte> -> bool, nv: bool)
    requires buf != []
    ensures var r := Outcomes(buf, parses, nv);
      forall i, j :: 0 <= i < j < |r| ==> r[i].Rejected? || r[j].Rejected?
    ensures var r := Outcomes(buf, parses, nv);
      forall i :: 0 <= i < |r| && !r[i].Rejected? ==> Pass(r) == r[i]
    ensures var r := Outcomes(buf, parses, nv);
      (forall i :: 0 <= i < |r| ==> r[i].Rejected?) ==> Pass(r).Rejected?
  {
    hide AtOkMatch, Type1Match, Type2Match, ReadMatch;
    var r := Outcomes(buf, parses, nv);
    if buf[0] != AT_PREFIX[0] {
      AtOkRejectsHead(buf);
    }
    if buf[0] != TYPE1_HEADER[0] {
      Type1RejectsHead(buf);
    }
    if buf[0] != TYPE2_HEADER[0] {
      Type2RejectsHead(buf);
    }
    if buf[0] != OPEN_BRACE {
      ReadRejectsHead(buf, parses, nv);
    }
    forall i | 0 <= i < |r| && !r[i].Rejected? ensures Pass(r) == r[i] {
      PassDecidedBy(r, i);
    }
    if forall i :: 0 <= i < |r| ==> r[i].Rejected? {
      PassDecidedBy(r, 0);
    }
  }

  /** A buffer that starts with 'A' is decided by the acknowledgement matcher alone. */
  lemma PassOnAck(buf: seq<byte>, parses: seq<byte> -> bool, nv: bool)
    requires buf != [] && buf[0] == AT_PREFIX[0]
    ensures PassOf(parses, nv)(buf) == AtOkMatch(buf)
  {
    hide AtOkMatch, Type1Match, Type2Match, ReadMatch;
    Type1RejectsHead(buf);
    Type2RejectsHead(buf);
    ReadRejectsHead(buf, parses, nv);
    PassOfIs(buf, parses, nv);
    PassDecidedBy([AtOkMatch(buf), Type1Match(buf), Type2Match(buf), ReadMatch(buf, parses, nv)], 0);
  }

  /** A push of a byte no message starts with into an empty buffer discards it, leaving the parser INVALID. */
  lemma ForeignByteDropped(p: Parser, b: byte, parses: seq<byte> -> bool)
    requires p.buffer == [] && !Leads(b)
    ensures Push(p, b, parses) == Parser([], InvalidFrame, p.events, p.newVersion)
  {
    hide PassOf;
    assert p.buffer + [b] == [b];
    PassOnForeign([b], parses, p.newVersion);
    DriveAfterPass([b], PassOf(parses, p.newVersion));
  }

  /** Bytes none of which starts a message are dropped one at a time: nothing is reported and the flag is kept. */
  lemma {:induction false} ForeignStreamDropped(p: Parser, s: seq<byte>, parses: seq<byte> -> bool)
    requires p.buffer == [] && s != []
    requires forall i :: 0 <= i < |s| ==> !Leads(s[i])
    ensures Feed(p, s, parses) == Parser([], InvalidFrame, p.events, p.newVersion)
    decreases |s|
  {
    hide PassOf;
    var init := s[..|s| - 1];
    if init == [] {
      assert Feed(p, init, parses) == p;
      ForeignByteDropped(p, s[|s| - 1], parses);
    } else {
      ForeignStreamDropped(p, init, parses);
      ForeignByteDropped(Feed(p, init, parses), s[|s| - 1], parses);
    }
  }

  /** "Save Para Fail\r\n" is never reported: none of its bytes starts a message, so all are dropped. */
  lemma SaveParaFailDropped(p: Parser, parses: seq<byte> -> bool)
    requires p.buffer == []
    ensures Feed(p, SAVE_PARA_FAIL, parses) == Parser([], InvalidFrame, p.events, p.newVersion)
  {
    assert forall i :: 0 <= i < |SAVE_PARA_FAIL| ==> !Leads(SAVE_PARA_FAIL[i]);
    ForeignStreamDropped(p, SAVE_PARA_FAIL, parses);
  }

  /** A push whose pass waits keeps the whole prefix held in READING_HEADER. */
  lemma HeldStep(p: Parser, s: seq<byte>, k: nat, parses: seq<byte> -> bool)
    requires 0 < k <= |s| && k <= BUFFER_CAP && p.buffer == []
    requires k > 1 ==> Feed(p, s[..k - 1], parses) == Parser(s[..k - 1], ReadingHeader, p.events, p.newVersion)
    requires PassOf(parses, p.newVersion)(s[..k]).Pending?
    ensures Feed(p, s[..k], parses) == Parser(s[..k], ReadingHeader, p.events, p.newVersion)
  {
    hide PassOf;
    FeedOne(p, s, k - 1, parses);
    assert Feed(p, s[..k - 1], parses).buffer + [s[k - 1]] == s[..k];
    DriveAfterPass(s[..k], PassOf(parses, p.newVersion));
  }

  /** A push whose pass consumes the whole held message reports its events and leaves the parser IDLE and empty. */
  lemma TakenStep(p: Parser, s: seq<byte>, ev: seq<Event>, seen: bool, parses: seq<byte> -> bool)
    requires 0 < |s| && p.buffer == []
    requires |s| > 1 ==> Feed(p, s[..|s| - 1], parses) == Parser(s[..|s| - 1], ReadingHeader, p.events, p.newVersion)
    requires PassOf(parses, p.newVersion)(s) == Matched([], ev, seen)
    ensures Feed(p, s, parses) == Parser([], Idle, p.events + ev, p.newVersion || seen)
  {
    hide *;
    FeedBeforeLast(p, s, parses);
    PushTaken(Feed(p, s[..|s| - 1], parses), s[|s| - 1], ev, seen, parses);
  }

  /** The last byte of `s` lands on an empty or held buffer that keeps the events and the flag. */
  lemma FeedBeforeLast(p: Parser, s: seq<byte>, parses: seq<byte> -> bool)
    requires 0 < |s| && p.buffer == []
    requires |s| > 1 ==> Feed(p, s[..|s| - 1], parses) == Parser(s[..|s| - 1], ReadingHeader, p.events, p.newVersion)
    ensures Feed(p, s, parses) == Push(Feed(p, s[..|s| - 1], parses), s[|s| - 1], parses)
    ensures var q := Feed(p, s[..|s| - 1], parses);
      q.buffer + [s[|s| - 1]] == s && q.events == p.events && q.newVersion == p.newVersion
  {
    hide Push, PassOf, Drive;
    var k := |s| - 1;
    FeedOne(p, s, k, parses);
    assert s[..k + 1] == s;
    if k == 0 {
      assert s[..0] == [];
      FeedEmpty(p, parses);
    }
  }

  lemma PushTaken(q: Parser, b: byte, ev: seq<Event>, seen: bool, parses: seq<byte> -> bool)
    requires PassOf(parses, q.newVersion)(q.buffer + [b]) == Matched([], ev, seen)
    ensures Push(q, b, parses) == Parser([], Idle, q.events + ev, q.newVersion || seen)
  {
    hide PassOf;
    DriveAfterPass(q.buffer + [b], PassOf(parses, q.newVersion));
  }

  /** While a type-1 frame arrives, the parser holds it and stays in READING_HEADER. */
  lemma {:induction false} Type1PrefixHeld(body: seq<byte>, p: Parser, k: nat, parses: seq<byte> -> bool)
    requires |body| >= 2 && body[0] == |body| + 3 && p.buffer == []
    requires 0 < k < |body| + 3
    ensures Feed(p, Type1Frame(body)[..k], parses) == Parser(Type1Frame(body)[..k], ReadingHeader, p.events, p.newVersion)
  {
    hide PassOf, Feed;
    var f := Type1Frame(body);
    if k > 1 {
      Type1PrefixHeld(body, p, k - 1, parses);
    }
    Type1FrameRecognised(body, 4, k);
    PassOnType1(f[..k], parses, p.newVersion);
    HeldStep(p, f, k, parses);
  }

  /** A valid type-1 frame pushed into an empty buffer is reported once, by its type, and leaves the parser IDLE and empty. */
  lemma Type1FrameReported(body: seq<byte>, p: Parser, parses: seq<byte> -> bool)
    requires |body| >= 2 && body[0] == |body| + 3 && p.buffer == []
    ensures var f := Type1Frame(body);
      Feed(p, f, parses) == Parser([], Idle, p.events + [Type1Report(f)], p.newVersion)
  {
    hide PassOf, Feed;
    var f := Type1Frame(body);
    Type1PrefixHeld(body, p, |f| - 1, parses);
    Type1FrameRecognised(body, 4, |f|);
    assert f[..|f|] == f;
    PassOnType1(f, parses, p.newVersion);
    TakenStep(p, f, [Type1Report(f)], false, parses);
  }

  lemma {:induction false} Type2PrefixHeld(f: seq<byte>, p: Parser, k: nat, parses: seq<byte> -> bool)
    requires IsType2Frame(f) && p.buffer == []
    requires 0 < k < |f|
    ensures Feed(p, f[..k], parses) == Parser(f[..k], ReadingHeader, p.events, p.newVersion)
  {
    hide PassOf, Feed;
    if k > 1 {
      Type2PrefixHeld(f, p, k - 1, parses);
    }
    Type2FrameRecognised(f, k);
    assert f[..k][0] == TYPE2_HEADER[0];
    PassOnType2(f[..k], parses, p.newVersion);
    HeldStep(p, f, k, parses);
  }

  /** A type-2 frame pushed into an empty buffer is consumed without any call, leaving the parser IDLE and empty. */
  lemma Type2FrameSilent(f: seq<byte>, p: Parser, parses: seq<byte> -> bool)
    requires IsType2Frame(f) && p.buffer == []
    ensures Feed(p, f, parses) == Parser([], Idle, p.events, p.newVersion)
  {
    hide PassOf, Feed;
    Type2PrefixHeld(f, p, |f| - 1, parses);
    Type2FrameRecognised(f, |f|);
    assert f[..|f|] == f;
    PassOnType2(f, parses, p.newVersion);
    TakenStep(p, f, [], false, parses);
    assert p.events + [] == p.events;
  }

  /** While an acknowledgement line arrives, the parser holds it and stays in READING_HEADER. */
  lemma {:induction false} AckPrefixHeld(s: seq<byte>, p: Parser, k: nat, parses: seq<byte> -> bool)
    requires IsAck(s) && |s| <= BUFFER_CAP + 1 && p.buffer == []
    requires 0 < k < |s|
    ensures Feed(p, s[..k], parses) == Parser(s[..k], ReadingHeader, p.events, p.newVersion)
  {
    hide PassOf, Feed;
    if k > 1 {
      AckPrefixHeld(s, p, k - 1, parses);
    }
    AtOkPrefixWaits(s, k);
    PassOnAck(s[..k], parses, p.newVersion);
    HeldStep(p, s, k, parses);
  }

  /** An acknowledgement line pushed into an empty buffer is reported once and leaves the parser IDLE and empty. */
  lemma AckLineAcknowledged(s: seq<byte>, p: Parser, parses: seq<byte> -> bool)
    requires IsAck(s) && |s| <= BUFFER_CAP + 1 && p.buffer == []
    ensures Feed(p, s, parses) == Parser([], Idle, p.events + [Ack], p.newVersion)
  {
    hide PassOf, Feed;
    AckPrefixHeld(s, p, |s| - 1, parses);
    AtOkCompleteIffAck(s, |s|);
    assert s[..|s|] == s;
    PassOnAck(s, parses, p.newVersion);
    TakenStep(p, s, [Ack], false, parses);
  }

  /**
   * A listing as the LD6001B sends it in answer to `AT+READ`, up to its
   * closing brace: it opens with '{', mentions "Monitor_Time", and no '}'
   * follows the first mention.
   */
  predicate IsListing(l: seq<byte>)
  {
    && l != [] && l[0] == OPEN_BRACE
    && Find(l, MONITOR_TIME, 0).Some?
    && Find(l, CLOSE_BRACE, Find(l, MONITOR_TIME, 0).value).None?
  }

  /** Every non-empty prefix of a listing waits for more. */
  lemma ListingPrefixWaits(l: seq<byte>, k: nat, parses: seq<byte> -> bool, nv: bool)
    requires IsListing(l) && 0 < k <= |l|
    ensures ReadMatch(l[..k], parses, nv) == Pending
  {
    var t := Find(l, MONITOR_TIME, 0).value;
    var q := l[..k];
    match Find(q, MONITOR_TIME, 0) {
      case None =>
      case Some(t') =>
        assert q + l[k..] == l;
        FindInExtension(q, l[k..], MONITOR_TIME, 0);
        FindNoneInPrefix(l, CLOSE_BRACE, t, t', k);
    }
  }

  /**
   * A listing, its brace and whatever follows: the match takes exactly the
   * listing and the brace, leaves what follows, and sees the version marker
   * wherever it occurs in the buffer.
   */
  lemma ListingMatched(l: seq<byte>, rest: seq<byte>, parses: seq<byte> -> bool, nv: bool)
    requires IsListing(l)
    ensures var text := Repair(l);
      var seen := MentionsVersion(l + CLOSE_BRACE + rest);
      ReadMatch(l + CLOSE_BRACE + rest, parses, nv) ==
        Matched(rest, if parses(text) then [Ack, ReadParams(text, nv || seen)] else [], seen)
  {
    var m := l + CLOSE_BRACE + rest;
    var t := Find(l, MONITOR_TIME, 0).value;
    assert m == l + (CLOSE_BRACE + rest);
    FindInExtension(l, CLOSE_BRACE + rest, MONITOR_TIME, 0);
    forall j | t <= j < |l| ensures !OccursAt(m, CLOSE_BRACE, j) {
      OccursInExtension(l, CLOSE_BRACE + rest, CLOSE_BRACE, j);
    }
    OccursByte(m, CLOSE_BRACE[0], |l|);
    FindFirst(m, CLOSE_BRACE, t, |l|);
    assert m[..|l|] == l;
    assert m[|l| + 1..] == rest;
  }

  /** The brace cannot end a "SoftVerison": the listing with its brace mentions the version exactly when the listing does. */
  lemma VersionInListing(l: seq<byte>)
    ensures MentionsVersion(l + CLOSE_BRACE) == MentionsVersion(l)
  {
    var m := l + CLOSE_BRACE;
    if MentionsVersion(l) {
      FindInExtension(l, CLOSE_BRACE, SOFT_VERISON, 0);
    } else {
      forall j | 0 <= j ensures !OccursAt(m, SOFT_VERISON, j) {
        OccursInExtension(l, CLOSE_BRACE, SOFT_VERISON, j);
        if j + |SOFT_VERISON| == |m| {
          assert m[j..j + |SOFT_VERISON|][|SOFT_VERISON| - 1] == m[|l|];
        }
      }
    }
  }

  /** While a listing arrives, the parser holds it and stays in READING_HEADER. */
  lemma {:induction false} ListingPrefixHeld(l: seq<byte>, p: Parser, k: nat, parses: seq<byte> -> bool)
    requires IsListing(l) && |l| <= BUFFER_CAP && p.buffer == []
    requires 0 < k <= |l|
    ensures var m := l + CLOSE_BRACE;
      Feed(p, m[..k], parses) == Parser(m[..k], ReadingHeader, p.events, p.newVersion)
  {
    hide PassOf, Feed;
    var m := l + CLOSE_BRACE;
    if k > 1 {
      ListingPrefixHeld(l, p, k - 1, parses);
    }
    assert m[..k] == l[..k];
    ListingPrefixWaits(l, k, parses, p.newVersion);
    PassOnRead(m[..k], parses, p.newVersion);
    HeldStep(p, m, k, parses);
  }

  /**
   * A listing pushed byte by byte into an empty parser is held in
   * READING_HEADER with nothing reported until its brace arrives; the brace
   * leaves the parser IDLE and empty, the acknowledgement and the parameters
   * are reported exactly when the repaired text parses, and `new_version` is
   * set exactly when it was set before or the listing mentions "SoftVerison".
   */
  lemma ListingAnswered(l: seq<byte>, p: Parser, parses: seq<byte> -> bool)
    requires IsListing(l) && |l| <= BUFFER_CAP && p.buffer == []
    ensures forall k :: 0 < k <= |l| ==> Feed(p, l[..k], parses) == Parser(l[..k], ReadingHeader, p.events, p.newVersion)
    ensures var text := Repair(l);
      var nv := p.newVersion || MentionsVersion(l);
      Feed(p, l + CLOSE_BRACE, parses) == Parser([], Idle, p.events + (if parses(text) then [Ack, ReadParams(text, nv)] else []), nv)
  {
    hide PassOf, Feed;
    var m := l + CLOSE_BRACE;
    forall k | 0 < k <= |l| ensures Feed(p, l[..k], parses) == Parser(l[..k], ReadingHeader, p.events, p.newVersion) {
      ListingPrefixHeld(l, p, k, parses);
      assert m[..k] == l[..k];
    }
    var text := Repair(l);
    VersionInListing(l);
    var nv := p.newVersion || MentionsVersion(l);
    var ev := if parses(text) then [Ack, ReadParams(text, nv)] else [];
    ListingPrefixHeld(l, p, |l|, parses);
    ListingMatched(l, [], parses, p.newVersion);
    assert m + [] == m;
    PassOnRead(m, parses, p.newVersion);
    TakenStep(p, m, ev, MentionsVersion(l), parses);
  }

  // ---------------------------------------------------------------------------
  // People frames built from their fields

  /** The five readings of a person as the frame lays them out. */
  function PersonBytes(p: Person): (r: seq<byte>)
    ensures |r| == 5
  {
    [p.x, p.y, p.z, p.breath, p.heartbeat]
  }

  function PeopleBytes(ps: seq<Person>): (r: seq<byte>)
    ensures |r| == 5 * |ps|
  {
    if ps == [] then [] else PeopleBytes(ps[..|ps| - 1]) + PersonBytes(ps[|ps| - 1])
  }

  lemma {:induction false} PeopleBytesAt(ps: seq<Person>, i: nat)
    requires i < |ps|
    ensures PeopleBytes(ps)[5 * i..5 * i + 5] == PersonBytes(ps[i])
  {
    var init := ps[..|ps| - 1];
    if i < |ps| - 1 {
      PeopleBytesAt(init, i);
      assert init[i] == ps[i];
      assert PeopleBytes(ps)[5 * i..5 * i + 5] == PeopleBytes(init)[5 * i..5 * i + 5];
    }
  }

  /** The body of a people frame: its length, the type byte 0x01, the count, a reserved byte, the people. */
  function PeopleBody(ps: seq<Person>): (body: seq<byte>)
    requires |ps| <= 49
    ensures |body| == 4 + 5 * |ps| && body[0] == |body| + 3
  {
    [5 * |ps| + 7, PEOPLE_TYPE, |ps|, 0x00] + PeopleBytes(ps)
  }

  /** Person `i` of a built frame sits at bytes 6 + 5i onwards. */
  lemma PeopleFrameWindow(ps: seq<Person>, i: nat)
    requires |ps| <= 49 && i < |ps|
    ensures Type1Frame(PeopleBody(ps))[5 * i + 6..5 * i + 11] == PersonBytes(ps[i])
  {
    var f := Type1Frame(PeopleBody(ps));
    PeopleBytesAt(ps, i);
    assert f[5 * i + 6..5 * i + 11] == PeopleBytes(ps)[5 * i..5 * i + 5];
  }

  /** Encoding then decoding: the people of a built frame are exactly the ones put in, numbered from 0. */
  lemma PeopleRoundTrip(ps: seq<Person>)
    requires |ps| <= 49
    requires forall i :: 0 <= i < |ps| ==> ps[i].id == i
    ensures Type1Report(Type1Frame(PeopleBody(ps))) == SimpleRadar(Some(ps))
  {
    var f := Type1Frame(PeopleBody(ps));
    assert f[3] == PEOPLE_TYPE && f[4] == |ps|;
    forall i | 0 <= i < |ps|
      ensures f[5 * i + 6..5 * i + 11] == PersonBytes(ps[i])
    {
      PeopleFrameWindow(ps, i);
    }
    hide Type1Frame, PeopleBody;
    var decoded := PeopleOf(f);
    assert decoded.Some?;
    forall i | 0 <= i < |ps|
      ensures decoded.value[i] == ps[i]
    {
      var w := f[5 * i + 6..5 * i + 11];
      assert w[0] == f[5 * i + 6] && w[4] == f[5 * i + 10];
    }
    assert decoded.value == ps;
  }

  /** A built people frame pushed into an empty buffer reports exactly its people. */
  lemma PeopleFrameReported(ps: seq<Person>, p: Parser, parses: seq<byte> -> bool)
    requires |ps| <= 49 && p.buffer == []
    requires forall i :: 0 <= i < |ps| ==> ps[i].id == i
    ensures Feed(p, Type1Frame(PeopleBody(ps)), parses) == Parser([], Idle, p.events + [SimpleRadar(Some(ps))], p.newVersion)
  {
    hide PassOf, Feed;
    PeopleRoundTrip(ps);
    Type1FrameReported(PeopleBody(ps), p, parses);
  }
}
