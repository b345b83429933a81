/**
 * The LD6001A dialect. Four kinds of message share one byte stream:
 * `AT+...\r\n` acknowledgements, `55 AA` frames carrying a people count,
 * `01..08` frames carrying tracked people, and a JSON-like `{...}` block
 * answering `AT+READ`, which is repaired by textual substitution before
 * it is handed to a JSON parser.
 */
module Ld6001aParser {
  import opened Bytes
  import opened Wrappers
  import opened Text
  import opened Matching

  /** One tracked person; the six coordinates are IEEE-754 words kept uninterpreted. */
  datatype Person = Person(id: uint32, x: uint32, y: uint32, z: uint32, vx: uint32, vy: uint32, vz: uint32)

  /**
   * Calls into the frame handler. A payload is `None` where building it
   * reads past the end of the buffer. `ReadParams` carries the repaired text
   * the JSON parser accepted; the fields it yields are not part of this model.
   */
  datatype Event =
    | Ack
    | SimpleRadar(peopleCounted: Option<byte>)
    | DetailedRadar(people: Option<seq<Person>>)
    | ReadParams(json: seq<byte>)

  /** "Target exit" */
  const TARGET_EXIT: seq<byte> := [0x54, 0x61, 0x72, 0x67, 0x65, 0x74, 0x20, 0x65, 0x78, 0x69, 0x74]
  /** "s," */
  const S_COMMA: seq<byte> := [0x73, 0x2C]
  /** "\nMoving target" */
  const MOVING_FROM: seq<byte> := [0x0A, 0x4D, 0x6F, 0x76, 0x69, 0x6E, 0x67, 0x20, 0x74, 0x61, 0x72, 0x67, 0x65, 0x74]
  /** "\n\"Moving target\":" */
  const MOVING_TO: seq<byte> := [0x0A, 0x22, 0x4D, 0x6F, 0x76, 0x69, 0x6E, 0x67, 0x20, 0x74, 0x61, 0x72, 0x67, 0x65, 0x74, 0x22, 0x3A]
  /** "\nStatic target" */
  const STATIC_FROM: seq<byte> := [0x0A, 0x53, 0x74, 0x61, 0x74, 0x69, 0x63, 0x20, 0x74, 0x61, 0x72, 0x67, 0x65, 0x74]
  /** "\n\"Static target\":" */
  const STATIC_TO: seq<byte> := [0x0A, 0x22, 0x53, 0x74, 0x61, 0x74, 0x69, 0x63, 0x20, 0x74, 0x61, 0x72, 0x67, 0x65, 0x74, 0x22, 0x3A]
  /** "\nTarget exit" */
  const EXIT_FROM: seq<byte> := [0x0A, 0x54, 0x61, 0x72, 0x67, 0x65, 0x74, 0x20, 0x65, 0x78, 0x69, 0x74]
  /** "\n\"Target exit\":" */
  const EXIT_TO: seq<byte> := [0x0A, 0x22, 0x54, 0x61, 0x72, 0x67, 0x65, 0x74, 0x20, 0x65, 0x78, 0x69, 0x74, 0x22, 0x3A]
  /** "NOP_1.07-01" */
  const VERSION_FROM: seq<byte> := [0x4E, 0x4F, 0x50, 0x5F, 0x31, 0x2E, 0x30, 0x37, 0x2D, 0x30, 0x31]
  /** "\"NOP_1.07-01\"" */
  const VERSION_TO: seq<byte> := [0x22, 0x4E, 0x4F, 0x50, 0x5F, 0x31, 0x2E, 0x30, 0x37, 0x2D, 0x30, 0x31, 0x22]
  /** "," */
  const COMMA: seq<byte> := [0x2C]
  /** ",\r\n}" */
  const TRAILING_FROM: seq<byte> := [0x2C, 0x0D, 0x0A, 0x7D]
  /** "\r\n}" */
  const TRAILING_TO: seq<byte> := [0x0D, 0x0A, 0x7D]

  // ---------------------------------------------------------------------------
  // The four matchers as functions of the buffer

  function AtOkMatch(buf: seq<byte>): Outcome<Event>
  {
    match AtOk(buf)
    case NoMatch => Rejected
    case Wait => Pending
    case Good(n) => Matched(buf[n..], [Ack], false)
  }

  /** The people count of a type-1 frame of `n` bytes: its byte 8, taken before the frame is erased. */
  function CountOf(buf: seq<byte>, n: nat): (r: Option<byte>)
    requires n <= |buf|
    ensures r.Some? <==> n > 8
    ensures r.Some? ==> r.value == buf[8]
  {
    if n > 8 then Some(buf[8]) else None
  }

  /**
   * The count as the code reads it: index 8 of the vector after the frame has
   * been erased. Past the new end that index still holds what the storage held
   * before the erase; beyond the old end nothing is known (`None`).
   */
  function CountAfterErase(buf: seq<byte>, n: nat): Option<byte>
    requires n <= |buf|
  {
    var rest := buf[n..];
    if |rest| > 8 then Some(rest[8]) else if |buf| > 8 then Some(buf[8]) else None
  }

  /** The late read gives the frame's byte 8 as long as at most 8 bytes follow the frame. */
  lemma CountAfterEraseAgrees(buf: seq<byte>, n: nat)
    requires 8 < n <= |buf| && |buf| - n <= 8
    ensures CountAfterErase(buf, n) == CountOf(buf, n) == Some(buf[8])
  {
  }

  /** With more than 8 bytes after the frame, the late read takes a byte of what follows instead. */
  lemma CountAfterEraseReadsNextData()
    ensures var buf := [0x55, 0xAA, 9, 0, 0, 0, 0, 0, 7, 0, 0, 0, 0, 0, 0, 0, 0, 0];
      CountAfterErase(buf, 9) == Some(0) && CountOf(buf, 9) == Some(7)
  {
  }

  function Type1Match(buf: seq<byte>): Outcome<Event>
  {
    match Type1Framing(buf, 3)
    case NoMatch => Rejected
    case Wait => Pending
    case Good(n) => Matched(buf[n..], [SimpleRadar(CountOf(buf, n))], false)
  }

  /** Person `i` of a type-2 frame, read from the 32 bytes at `offset`. */
  function PersonAt(buf: seq<byte>, offset: nat): Person
    requires offset + 32 <= |buf|
  {
    Person(ReadUint32(buf, offset + 4),
           ReadUint32(buf, offset + 8), ReadUint32(buf, offset + 12), ReadUint32(buf, offset + 16),
           ReadUint32(buf, offset + 20), ReadUint32(buf, offset + 24), ReadUint32(buf, offset + 28))
  }

  /** `process_binary_type2_response`: (u32 at 28) / 32 people, person i at 32i + 32. */
  function PeopleOf(buf: seq<byte>): (r: Option<seq<Person>>)
    ensures r.Some? <==> |buf| >= 32 && 32 * (ReadUint32(buf, 28) / 32) + 32 <= |buf|
    ensures r.Some? ==> |r.value| == ReadUint32(buf, 28) / 32
    ensures r.Some? ==> forall i :: 0 <= i < |r.value| ==> r.value[i] == PersonAt(buf, 32 * i + 32)
  {
    if |buf| < 32 then None
    else
      var count := ReadUint32(buf, 28) / 32;
      if 32 * count + 32 > |buf| then None
      else Some(seq(count, i requires 0 <= i < count => PersonAt(buf, 32 * i + 32)))
  }

  function Type2Match(buf: seq<byte>): Outcome<Event>
  {
    match Type2Framing(buf)
    case NoMatch => Rejected
    case Wait => Pending
    case Good(_) => Matched([], [DetailedRadar(PeopleOf(buf))], false)
  }

  /**
   * Where the read response ends: from the first "Target exit" on, at the
   * first '}' if there is one, otherwise at the first "s,"; nowhere without
   * the marker, or when neither end follows it.
   */
  function ReadEnd(buf: seq<byte>): (r: Option<nat>)
    ensures r.Some? ==> r.value < |buf|
    ensures Find(buf, TARGET_EXIT, 0).None? ==> r.None?
    ensures Find(buf, TARGET_EXIT, 0).Some? ==> var t := Find(buf, TARGET_EXIT, 0).value;
      if exists j :: t <= j < |buf| && buf[j] == CLOSE_BRACE[0] then
        && r.Some? && t <= r.value && buf[r.value] == CLOSE_BRACE[0]
        && forall j :: t <= j < r.value ==> buf[j] != CLOSE_BRACE[0]
      else if exists j :: t <= j && OccursAt(buf, S_COMMA, j) then
        && r.Some? && t <= r.value && OccursAt(buf, S_COMMA, r.value)
        && forall j :: t <= j < r.value ==> !OccursAt(buf, S_COMMA, j)
      else r.None?
  {
    match Find(buf, TARGET_EXIT, 0)
    case None => None
    case Some(t) =>
      assert forall j :: t <= j ==> (OccursAt(buf, CLOSE_BRACE, j) <==> j < |buf| && buf[j] == CLOSE_BRACE[0]) by {
        forall j | t <= j ensures OccursAt(buf, CLOSE_BRACE, j) <==> j < |buf| && buf[j] == CLOSE_BRACE[0] {
          OccursByte(buf, CLOSE_BRACE[0], j);
        }
      }
      match Find(buf, CLOSE_BRACE, t)
      case Some(e) => Some(e)
      case None => Find(buf, S_COMMA, t)
  }

  /** The substitutions that turn the firmware's listing into JSON, in the order they are applied. */
  const REPAIRS: seq<(seq<byte>, seq<byte>)> := [
    ([0x09, 0x0A], [CR, LF]), ([0xA3, 0xBA], SPACE),
    (MOVING_FROM, MOVING_TO), (STATIC_FROM, STATIC_TO), (EXIT_FROM, EXIT_TO),
    (VERSION_FROM, VERSION_TO), (S_COMMA, COMMA)]

  /** The listing repaired: the substitutions, a closing brace, then no comma before it. */
  function Repair(s: seq<byte>): (r: seq<byte>)
    ensures |r| > 0 && r[|r| - 1] == CLOSE_BRACE[0]
  {
    var braced := ReplaceEach(s, REPAIRS) + CLOSE_BRACE;
    ReplacingKeepsLast(braced, TRAILING_FROM, TRAILING_TO, CLOSE_BRACE[0]);
    ReplaceAllOf(braced, TRAILING_FROM, TRAILING_TO)
  }

  /** `match_read_response_`: complete whatever the JSON parser makes of the text; it only decides the calls. */
  function ReadMatch(buf: seq<byte>, parses: seq<byte> -> bool): Outcome<Event>
  {
    if buf == [] || buf[0] != OPEN_BRACE then Rejected
    else
      match ReadEnd(buf)
      case None => Pending
      case Some(e) =>
        var text := Repair(buf[..e]);
        Matched(buf[e + 1..], if parses(text) then [Ack, ReadParams(text)] else [], false)
  }

  /** The matchers in the order the parser lists them. */
  function Outcomes(buf: seq<byte>, parses: seq<byte> -> bool): (r: seq<Outcome<Event>>)
    ensures |r| == 4
  {
    [AtOkMatch(buf), Type1Match(buf), Type2Match(buf), ReadMatch(buf, parses)]
  }

  function PassOf(parses: seq<byte> -> bool): seq<byte> -> Outcome<Event>
  {
    b => Pass(Outcomes(b, parses))
  }

  // ---------------------------------------------------------------------------
  // The parser object

  class FrameParser {
    var buffer: seq<byte>
    var state: ParseState
    var events: seq<Event>
    /** Whether the JSON parser accepts a text (ArduinoJson is not part of this model). */
    const parses: seq<byte> -> bool

    constructor (parses: seq<byte> -> bool)
      ensures buffer == [] && state == Idle && events == [] && this.parses == parses
    {
      buffer := [];
      state := Idle;
      events := [];
      this.parses := parses;
    }

    /** `push_data`: append the byte and run the matchers. */
    method PushData(b: byte)
      modifies this
      ensures var d := Drive(old(buffer) + [b], PassOf(parses));
        buffer == d.buffer && state == d.state && events == old(events) + d.events
    {
      buffer := buffer + [b];
      TryParseFrame();
    }

    method DrainOneByte()
      modifies this`buffer
      ensures buffer == if old(buffer) == [] then [] else old(buffer)[1..]
    {
      if buffer != [] {
        buffer := buffer[1..];
      }
    }

    /** `try_parse_frame_`. */
    method TryParseFrame()
      requires buffer != []
      modifies this`buffer, this`state, this`events
      ensures var d := Drive(old(buffer), PassOf(parses));
        buffer == d.buffer && state == d.state && events == old(events) + d.events
    {
      var more := true;
      while more
        invariant more ==> buffer != [] && Drive(buffer, PassOf(parses)) == Drive(old(buffer), PassOf(parses)) && events == old(events)
        invariant !more ==> var d := Drive(old(buffer), PassOf(parses));
          buffer == d.buffer && state == d.state && events == old(events) + d.events
        decreases if more then |buffer| + 1 else 0
      {
        more := ParsePass();
      }
    }

    /** One iteration of the loop in `try_parse_frame_`: run the matchers, settle the state, say whether to go on. */
    method ParsePass() returns (more: bool)
      requires buffer != []
      modifies this`buffer, this`state, this`events
      ensures var d := Drive(old(buffer), PassOf(parses));
        if more then buffer != [] && |buffer| < |old(buffer)| && Drive(buffer, PassOf(parses)) == d && events == old(events)
        else buffer == d.buffer && state == d.state && events == old(events) + d.events
    {
      // Only the verdict of the pass matters here, not how the matchers reach it.
      hide Outcomes;
      ghost var before, ev0 := buffer, events;
      var complete, partial, invalid := RunMatchers();
      ghost var mid := buffer;
      SettlePass(complete, partial, invalid);
      more := |buffer| > 0 && invalid;
      SettleStep(PassOf(parses), before, ev0, mid, events, state, buffer, more);
    }

    /** The end of one pass of `try_parse_frame_`: the new state, the dropped byte, the size limit. */
    method SettlePass(complete: bool, partial: bool, invalid: bool)
      modifies this`buffer, this`state
      ensures state == if partial then ReadingHeader else if invalid then InvalidFrame else if complete then Idle else old(state)
      ensures buffer == Cap(if !partial && invalid && old(buffer) != [] then old(buffer)[1..] else old(buffer))
    {
      if complete {
        state := Idle;
      }
      if partial {
        state := ReadingHeader;
      } else if invalid {
        state := InvalidFrame;
        DrainOneByte();
      }
      if |buffer| > BUFFER_CAP {
        buffer := [];
      }
    }

    /** One pass over the matcher list, stopping at the first COMPLETE. */
    method RunMatchers() returns (complete: bool, partial: bool, invalid: bool)
      requires buffer != []
      modifies this`buffer, this`state, this`events
      ensures var p := PassOf(parses)(old(buffer));
        && complete == p.Matched? && partial == p.Pending? && invalid == p.Rejected?
        && Applied(p, old(buffer), old(events), buffer, events)
    {
      // The matcher methods' contracts name their verdicts; their definitions are not needed.
      hide AtOkMatch, Type1Match, Type2Match, ReadMatch;
      ghost var outs := Outcomes(buffer, parses);
      ghost var start := buffer;
      invalid, complete, partial := true, false, false;
      var i := 0;
      while i < 4 && !complete
        invariant 0 <= i <= 4
        invariant !complete ==> buffer == start && events == old(events)
        invariant !complete ==> invalid == !partial
        invariant !complete ==> forall j :: 0 <= j < i ==> !outs[j].Matched?
        invariant !complete ==> (partial <==> exists j :: 0 <= j < i && outs[j].Pending?)
        invariant complete ==> !partial && !invalid && Pass(outs).Matched? && Applied(Pass(outs), start, old(events), buffer, events)
        decreases 4 - i
      {
        var result;
        if i == 0 {
          result := MatchAtOk();
        } else if i == 1 {
          result := MatchBinaryType1();
        } else if i == 2 {
          result := MatchBinaryType2();
        } else {
          result := MatchReadResponse();
        }
        assert result == ResultOf(outs[i]);
        if result == Complete {
          PassFirstMatch(outs, i);
          complete, invalid, partial := true, false, false;
        } else if result == Partial {
          partial, invalid := true, false;
        } else {
          invalid := !partial;
        }
        i := i + 1;
      }
      assert PassOf(parses)(start) == Pass(outs);
    }

    /** `match_at_ok_`: the scan, then the erase and the callback. */
    method MatchAtOk() returns (r: MatchResult)
      modifies this`buffer, this`events
      ensures r == ResultOf(AtOkMatch(old(buffer)))
      ensures Applied(AtOkMatch(old(buffer)), old(buffer), old(events), buffer, events)
    {
      var f := ScanAtOk(buffer);
      match f
      case NoMatch =>
        return Invalid;
      case Wait =>
        return Partial;
      case Good(n) =>
        buffer := buffer[n..];
        events := events + [Ack];
        return Complete;
    }

    /** `match_binary_type1_`, waiting for the length byte and reading the count before the erase. */
    method MatchBinaryType1() returns (r: MatchResult)
      modifies this`buffer, this`state, this`events
      ensures r == ResultOf(Type1Match(old(buffer)))
      ensures Applied(Type1Match(old(buffer)), old(buffer), old(events), buffer, events)
      ensures state == if PrefixAgrees(old(buffer), TYPE1_HEADER) && |old(buffer)| >= 3 then ReadingHeader else old(state)
    {
      var size := |buffer|;
      var matchSize := Min(2, size);
      if buffer[..matchSize] != TYPE1_HEADER[..matchSize] {
        return Invalid;
      }
      if size < 3 {
        return Partial;
      }
      state := ReadingHeader;
      var bodyLen := buffer[2];
      if size < bodyLen {
        return Partial;
      }
      var ok := ValidateFrame(buffer);
      if !ok {
        return Invalid;
      }
      var count := if bodyLen > 8 then Some(buffer[8]) else None;
      buffer := buffer[bodyLen..];
      events := events + [SimpleRadar(count)];
      return Complete;
    }

    /** `match_binary_type2_`, waiting until bytes 12 to 15 have arrived. */
    method MatchBinaryType2() returns (r: MatchResult)
      modifies this`buffer, this`events
      ensures r == ResultOf(Type2Match(old(buffer)))
      ensures Applied(Type2Match(old(buffer)), old(buffer), old(events), buffer, events)
    {
      var size := |buffer|;
      var matchSize := Min(8, size);
      if TYPE2_HEADER[..matchSize] != buffer[..matchSize] {
        return Invalid;
      } else if size < 8 + 4 {
        return Partial;
      }
      var bodyLen := (ReadUint32(buffer, 8) + 1) % TWO_32;
      if size < bodyLen {
        return Partial;
      }
      if size < 16 {
        return Partial;
      }
      var ok := ValidateFrame(buffer);
      if !ok {
        return Invalid;
      }
      ProcessBinaryType2Response();
      return Complete;
    }

    /** `match_read_response_` (framing and substitutions; the JSON parse is `parses`). */
    method MatchReadResponse() returns (r: MatchResult)
      modifies this`buffer, this`events
      ensures r == ResultOf(ReadMatch(old(buffer), parses))
      ensures Applied(ReadMatch(old(buffer), parses), old(buffer), old(events), buffer, events)
    {
      if buffer == [] || buffer[0] != OPEN_BRACE {
        return Invalid;
      }
      var endPos := FindResponseEnd(buffer);
      if endPos.None? {
        return Partial;
      }
      TakeResponse(endPos.value);
      return Complete;
    }

    /** The completing half of `match_read_response_`: cut the response off and hand it on repaired. */
    method TakeResponse(endPos: nat)
      requires endPos < |buffer|
      modifies this`buffer, this`events
      ensures buffer == old(buffer)[endPos + 1..]
      ensures var text := Repair(old(buffer)[..endPos]);
        events == old(events) + if parses(text) then [Ack, ReadParams(text)] else []
    {
      var response := buffer[..endPos];
      buffer := buffer[endPos + 1..];
      response := RepairText(response);
      if parses(response) {
        events := events + [Ack, ReadParams(response)];
      }
    }

    /** The two searches of `match_read_response_` that locate the end of the response. */
    static method FindResponseEnd(buf: seq<byte>) returns (endPos: Option<nat>)
      ensures endPos == ReadEnd(buf)
    {
      var targetExit := Find(buf, TARGET_EXIT, 0);
      if targetExit.None? {
        return None;
      }
      endPos := Find(buf, CLOSE_BRACE, targetExit.value);
      if endPos.None? {
        endPos := Find(buf, S_COMMA, targetExit.value);
      }
    }

    /** The `replaceAll` calls and the appended brace of `match_read_response_`. */
    static method RepairText(s: seq<byte>) returns (r: seq<byte>)
      ensures r == Repair(s)
    {
      ghost var rules := REPAIRS;
      r := ReplaceAll(s, [0x09, 0x0A], [CR, LF]);
      assert ReplaceEach(s, rules) == ReplaceEach(r, rules[1..]);
      r := ReplaceAll(r, [0xA3, 0xBA], SPACE);
      assert ReplaceEach(s, rules) == ReplaceEach(r, rules[2..]);
      r := ReplaceAll(r, MOVING_FROM, MOVING_TO);
      assert ReplaceEach(s, rules) == ReplaceEach(r, rules[3..]);
      r := ReplaceAll(r, STATIC_FROM, STATIC_TO);
      assert ReplaceEach(s, rules) == ReplaceEach(r, rules[4..]);
      r := ReplaceAll(r, EXIT_FROM, EXIT_TO);
      assert ReplaceEach(s, rules) == ReplaceEach(r, rules[5..]);
      r := ReplaceAll(r, VERSION_FROM, VERSION_TO);
      assert ReplaceEach(s, rules) == ReplaceEach(r, rules[6..]);
      r := ReplaceAll(r, S_COMMA, COMMA);
      assert ReplaceEach(s, rules) == ReplaceEach(r, rules[7..]);
      r := r + CLOSE_BRACE;
      r := ReplaceAll(r, TRAILING_FROM, TRAILING_TO);
    }

    /** `process_binary_type2_response`: decode the people, clear the buffer, report them. */
    method ProcessBinaryType2Response()
      modifies this`buffer, this`events
      ensures buffer == [] && events == old(events) + [DetailedRadar(PeopleOf(old(buffer)))]
    {
      var people: Option<seq<Person>> := None;
      if |buffer| >= 32 {
        var count := ReadUint32(buffer, 28) / 32;
        if 32 * count + 32 <= |buffer| {
          var ps: seq<Person> := [];
          for i := 0 to count
            invariant |ps| == i
            invariant forall j :: 0 <= j < i ==> ps[j] == PersonAt(buffer, 32 * j + 32)
          {
            ps := ps + [PersonAt(buffer, 32 * i + 32)];
          }
          ghost var decoded := PeopleOf(buffer);
          assert decoded.Some? && |decoded.value| == count;
          assert ps == decoded.value;
          people := Some(ps);
        }
      }
      buffer := [];
      events := events + [DetailedRadar(people)];
    }
  }

  // ---------------------------------------------------------------------------
  // Feeding whole messages, one `push_data` at a time

  /** What a parser holds between pushes. */
  datatype Parser = Parser(buffer: seq<byte>, state: ParseState, events: seq<Event>)

  /** One `push_data`: append the byte and drive the matchers over the buffer. */
  function Push(p: Parser, b: byte, parses: seq<byte> -> bool): (r: Parser)
    ensures |r.buffer| <= BUFFER_CAP
  {
    var d := Drive(p.buffer + [b], PassOf(parses));
    Parser(d.buffer, d.state, p.events + d.events)
  }

  /** `push_data` for each byte in turn. */
  function Feed(p: Parser, bytes: seq<byte>, parses: seq<byte> -> bool): Parser
    decreases |bytes|
  {
    if bytes == [] then p else Push(Feed(p, bytes[..|bytes| - 1], parses), bytes[|bytes| - 1], parses)
  }

  lemma {:induction false} FeedAppend(p: Parser, a: seq<byte>, b: seq<byte>, parses: seq<byte> -> bool)
    ensures Feed(p, a + b, parses) == Feed(Feed(p, a, parses), b, parses)
    decreases |b|
  {
    if b == [] {
      assert a + b == a;
    } else {
      assert (a + b)[..|a + b| - 1] == a + b[..|b| - 1];
      FeedAppend(p, a, b[..|b| - 1], parses);
    }
  }

  lemma FeedOne(p: Parser, bytes: seq<byte>, k: nat, parses: seq<byte> -> bool)
    requires k < |bytes|
    ensures Feed(p, bytes[..k + 1], parses) == Push(Feed(p, bytes[..k], parses), bytes[k], parses)
  {
    assert bytes[..k + 1][..k] == bytes[..k];
  }

  lemma AtOkRejectsHead(buf: seq<byte>)
    requires buf != [] && buf[0] != AT_PREFIX[0]
    ensures AtOkMatch(buf) == Rejected
  {
    assert buf[..Min(3, |buf|)][0] == buf[0];
  }

  lemma Type1RejectsHead(buf: seq<byte>)
    requires buf != [] && buf[0] != TYPE1_HEADER[0]
    ensures Type1Match(buf) == Rejected
  {
    assert buf[..Min(2, |buf|)][0] == buf[0];
  }

  lemma Type2RejectsHead(buf: seq<byte>)
    requires buf != [] && buf[0] != TYPE2_HEADER[0]
    ensures Type2Match(buf) == Rejected
  {
    assert buf[..Min(8, |buf|)][0] == buf[0];
  }

  lemma ReadRejectsHead(buf: seq<byte>, parses: seq<byte> -> bool)
    requires buf != [] && buf[0] != OPEN_BRACE
    ensures ReadMatch(buf, parses) == Rejected
  {
  }

  /** The verdict of a pass, matcher by matcher. */
  lemma PassOfIs(buf: seq<byte>, parses: seq<byte> -> bool)
    ensures PassOf(parses)(buf) == Pass([AtOkMatch(buf), Type1Match(buf), Type2Match(buf), ReadMatch(buf, parses)])
  {
    hide AtOkMatch, Type1Match, Type2Match, ReadMatch;
  }

  /** A pass over a buffer that no message can start with rejects it. */
  lemma PassOnForeign(buf: seq<byte>, parses: seq<byte> -> bool)
    requires buf != [] && !Leads(buf[0])
    ensures PassOf(parses)(buf).Rejected?
  {
    hide AtOkMatch, Type1Match, Type2Match, ReadMatch;
    AtOkRejectsHead(buf);
    Type1RejectsHead(buf);
    Type2RejectsHead(buf);
    ReadRejectsHead(buf, parses);
    PassOfIs(buf, parses);
  }

  /** A buffer that starts with 'A' is decided by the acknowledgement matcher alone. */
  lemma PassOnAck(buf: seq<byte>, parses: seq<byte> -> bool)
    requires buf != [] && buf[0] == AT_PREFIX[0]
    ensures PassOf(parses)(buf) == AtOkMatch(buf)
  {
    hide AtOkMatch, Type1Match, Type2Match, ReadMatch;
    Type1RejectsHead(buf);
    Type2RejectsHead(buf);
    ReadRejectsHead(buf, parses);
    PassOfIs(buf, parses);
    PassDecidedBy([AtOkMatch(buf), Type1Match(buf), Type2Match(buf), ReadMatch(buf, parses)], 0);
  }

  /** A buffer that starts with 0x55 is decided by the type-1 matcher alone. */
  lemma PassOnType1(buf: seq<byte>, parses: seq<byte> -> bool)
    requires buf != [] && buf[0] == TYPE1_HEADER[0]
    ensures PassOf(parses)(buf) == Type1Match(buf)
  {
    hide AtOkMatch, Type1Match, Type2Match, ReadMatch;
    AtOkRejectsHead(buf);
    Type2RejectsHead(buf);
    ReadRejectsHead(buf, parses);
    PassOfIs(buf, parses);
    PassDecidedBy([AtOkMatch(buf), Type1Match(buf), Type2Match(buf), ReadMatch(buf, parses)], 1);
  }

  /** A buffer that starts with 0x01 is decided by the type-2 matcher alone. */
  lemma PassOnType2(buf: seq<byte>, parses: seq<byte> -> bool)
    requires buf != [] && buf[0] == TYPE2_HEADER[0]
    ensures PassOf(parses)(buf) == Type2Match(buf)
  {
    hide AtOkMatch, Type1Match, Type2Match, ReadMatch;
    AtOkRejectsHead(buf);
    Type1RejectsHead(buf);
    ReadRejectsHead(buf, parses);
    PassOfIs(buf, parses);
    PassDecidedBy([AtOkMatch(buf), Type1Match(buf), Type2Match(buf), ReadMatch(buf, parses)], 2);
  }

  /**
   * The four listed matchers claim different leading bytes: on a non-empty
   * buffer at most one of them does not reject, and that one decides the
   * pass, so the order of the list cannot change a verdict.
   */
  lemma MatchersExclusive(buf: seq<byte>, parses: seq<byte> -> bool)
    requires buf != []
    ensures var r := Outcomes(buf, parses);
      forall i, j :: 0 <= i < j < |r| ==> r[i].Rejected? || r[j].Rejected?
    ensures var r := Outcomes(buf, parses);
      forall i :: 0 <= i < |r| && !r[i].Rejected? ==> Pass(r) == r[i]
    ensures var r := Outcomes(buf, parses);
      (forall i :: 0 <= i < |r| ==> r[i].Rejected?) ==> Pass(r).Rejected?
  {
    hide AtOkMatch, Type1Match, Type2Match, ReadMatch;
    var r := Outcomes(buf, parses);
    if buf[0] != AT_PREFIX[0] {
      AtOkRejectsHead(buf);
    }
    if buf[0] != TYPE1_HEADER[0] {
      Type1RejectsHead(buf);
    }
    if buf[0] != TYPE2_HEADER[0] {
      Type2RejectsHead(buf);
    }
    if buf[0] != OPEN_BRACE {
      ReadRejectsHead(buf, parses);
    }
    forall i | 0 <= i < |r| && !r[i].Rejected? ensures Pass(r) == r[i] {
      PassDecidedBy(r, i);
    }
    if forall i :: 0 <= i < |r| ==> r[i].Rejected? {
      PassDecidedBy(r, 0);
    }
  }

  /** A buffer that starts with '{' is decided by the listing matcher alone. */
  lemma PassOnRead(buf: seq<byte>, parses: seq<byte> -> bool)
    requires buf != [] && buf[0] == OPEN_BRACE
    ensures PassOf(parses)(buf) == ReadMatch(buf, parses)
  {
    hide AtOkMatch, Type1Match, Type2Match, ReadMatch;
    AtOkRejectsHead(buf);
    Type1RejectsHead(buf);
    Type2RejectsHead(buf);
    PassOfIs(buf, parses);
    PassDecidedBy([AtOkMatch(buf), Type1Match(buf), Type2Match(buf), ReadMatch(buf, parses)], 3);
  }

  /** Bytes none of which can start a message are all discarded, leaving the parser INVALID. */
  lemma {:induction false} ForeignBytesDrained(buf: seq<byte>, parses: seq<byte> -> bool)
    requires buf != [] && |buf| <= BUFFER_CAP + 1
    requires forall i :: 0 <= i < |buf| ==> !Leads(buf[i])
    ensures Drive(buf, PassOf(parses)) == Driven([], InvalidFrame, [], false)
    decreases |buf|
  {
    hide PassOf;
    PassOnForeign(buf, parses);
    DriveAfterPass(buf, PassOf(parses));
    if |buf| > 1 {
      ForeignBytesDrained(buf[1..], parses);
    }
  }

  /** A push whose pass waits keeps the whole prefix held in READING_HEADER. */
  lemma HeldStep(p: Parser, s: seq<byte>, k: nat, parses: seq<byte> -> bool)
    requires 0 < k <= |s| && k <= BUFFER_CAP && p.buffer == []
    requires k > 1 ==> Feed(p, s[..k - 1], parses) == Parser(s[..k - 1], ReadingHeader, p.events)
    requires PassOf(parses)(s[..k]).Pending?
    ensures Feed(p, s[..k], parses) == Parser(s[..k], ReadingHeader, p.events)
  {
    hide *;
    assert s[..k][..k - 1] == s[..k - 1];
    FeedBeforeLast(p, s[..k], parses);
    PushHeld(Feed(p, s[..k - 1], parses), s[k - 1], parses);
  }

  lemma PushHeld(q: Parser, b: byte, parses: seq<byte> -> bool)
    requires |q.buffer| < BUFFER_CAP && PassOf(parses)(q.buffer + [b]).Pending?
    ensures Push(q, b, parses) == Parser(q.buffer + [b], ReadingHeader, q.events)
  {
    hide PassOf;
    DriveAfterPass(q.buffer + [b], PassOf(parses));
  }

  /** A push whose pass consumes the whole held message reports its events and leaves the parser IDLE and empty. */
  lemma TakenStep(p: Parser, s: seq<byte>, ev: seq<Event>, parses: seq<byte> -> bool)
    requires 0 < |s| && p.buffer == []
    requires |s| > 1 ==> Feed(p, s[..|s| - 1], parses) == Parser(s[..|s| - 1], ReadingHeader, p.events)
    requires PassOf(parses)(s) == Matched([], ev, false)
    ensures Feed(p, s, parses) == Parser([], Idle, p.events + ev)
  {
    hide *;
    FeedBeforeLast(p, s, parses);
    PushTaken(Feed(p, s[..|s| - 1], parses), s[|s| - 1], ev, parses);
  }

  /** The last byte of `s` lands on an empty or held buffer that keeps the events. */
  lemma FeedBeforeLast(p: Parser, s: seq<byte>, parses: seq<byte> -> bool)
    requires 0 < |s| && p.buffer == []
    requires |s| > 1 ==> Feed(p, s[..|s| - 1], parses) == Parser(s[..|s| - 1], ReadingHeader, p.events)
    ensures Feed(p, s, parses) == Push(Feed(p, s[..|s| - 1], parses), s[|s| - 1], parses)
    ensures var q := Feed(p, s[..|s| - 1], parses);
      q.buffer + [s[|s| - 1]] == s && q.events == p.events
  {
    hide Push, PassOf, Drive;
    var k := |s| - 1;
    FeedOne(p, s, k, parses);
    assert s[..k + 1] == s;
    if k == 0 {
      assert s[..0] == [];
    }
  }

  lemma PushTaken(q: Parser, b: byte, ev: seq<Event>, parses: seq<byte> -> bool)
    requires PassOf(parses)(q.buffer + [b]) == Matched([], ev, false)
    ensures Push(q, b, parses) == Parser([], Idle, q.events + ev)
  {
    hide PassOf;
    DriveAfterPass(q.buffer + [b], PassOf(parses));
  }

  /** While an acknowledgement line arrives, the parser holds it and stays in READING_HEADER. */
  lemma {:induction false} AckPrefixHeld(s: seq<byte>, p: Parser, k: nat, parses: seq<byte> -> bool)
    requires IsAck(s) && |s| <= BUFFER_CAP + 1 && p.buffer == []
    requires 0 < k < |s|
    ensures Feed(p, s[..k], parses) == Parser(s[..k], ReadingHeader, p.events)
  {
    hide PassOf, Feed;
    if k > 1 {
      AckPrefixHeld(s, p, k - 1, parses);
    }
    AtOkPrefixWaits(s, k);
    PassOnAck(s[..k], parses);
    HeldStep(p, s, k, parses);
  }

  /** An acknowledgement line pushed into an empty buffer is reported once and leaves the parser IDLE and empty. */
  lemma AckLineAcknowledged(s: seq<byte>, p: Parser, parses: seq<byte> -> bool)
    requires IsAck(s) && |s| <= BUFFER_CAP + 1 && p.buffer == []
    ensures Feed(p, s, parses) == Parser([], Idle, p.events + [Ack])
  {
    hide PassOf, Feed;
    var k := |s| - 1;
    AckPrefixHeld(s, p, k, parses);
    AtOkCompleteIffAck(s, |s|);
    assert s[..|s|] == s;
    PassOnAck(s, parses);
    TakenStep(p, s, [Ack], parses);
  }

  /** While a type-1 frame arrives, the parser holds it and stays in READING_HEADER. */
  lemma {:induction false} Type1PrefixHeld(body: seq<byte>, p: Parser, k: nat, parses: seq<byte> -> bool)
    requires body != [] && body[0] == |body| + 3 && p.buffer == []
    requires 0 < k < |body| + 3
    ensures Feed(p, Type1Frame(body)[..k], parses) == Parser(Type1Frame(body)[..k], ReadingHeader, p.events)
  {
    hide PassOf, Feed;
    var f := Type1Frame(body);
    if k > 1 {
      Type1PrefixHeld(body, p, k - 1, parses);
    }
    Type1FrameRecognised(body, 3, k);
    PassOnType1(f[..k], parses);
    HeldStep(p, f, k, parses);
  }

  /** A valid type-1 frame pushed into an empty buffer reports its count once and leaves the parser IDLE and empty. */
  lemma Type1FrameReported(body: seq<byte>, p: Parser, parses: seq<byte> -> bool)
    requires body != [] && body[0] == |body| + 3 && p.buffer == []
    ensures var f := Type1Frame(body);
      Feed(p, f, parses) == Parser([], Idle, p.events + [SimpleRadar(CountOf(f, |f|))])
  {
    hide PassOf, Feed;
    var f := Type1Frame(body);
    Type1PrefixHeld(body, p, |f| - 1, parses);
    Type1FrameRecognised(body, 3, |f|);
    assert f[..|f|] == f;
    PassOnType1(f, parses);
    TakenStep(p, f, [SimpleRadar(CountOf(f, |f|))], parses);
  }

  lemma {:induction false} Type2PrefixHeld(f: seq<byte>, p: Parser, k: nat, parses: seq<byte> -> bool)
    requires IsType2Frame(f) && p.buffer == []
    requires 0 < k < |f|
    ensures Feed(p, f[..k], parses) == Parser(f[..k], ReadingHeader, p.events)
  {
    hide PassOf, Feed;
    if k > 1 {
      Type2PrefixHeld(f, p, k - 1, parses);
    }
    Type2FrameRecognised(f, k);
    assert f[..k][0] == TYPE2_HEADER[0];
    PassOnType2(f[..k], parses);
    HeldStep(p, f, k, parses);
  }

  /** A type-2 frame pushed into an empty buffer reports its people once and leaves the parser IDLE and empty. */
  lemma Type2FrameReported(f: seq<byte>, p: Parser, parses: seq<byte> -> bool)
    requires IsType2Frame(f) && p.buffer == []
    ensures Feed(p, f, parses) == Parser([], Idle, p.events + [DetailedRadar(PeopleOf(f))])
  {
    hide PassOf, Feed;
    Type2PrefixHeld(f, p, |f| - 1, parses);
    Type2FrameRecognised(f, |f|);
    assert f[..|f|] == f;
    PassOnType2(f, parses);
    TakenStep(p, f, [DetailedRadar(PeopleOf(f))], parses);
  }

  /**
   * A listing as the LD6001A sends it in answer to `AT+READ`, up to its
   * closing brace: it opens with '{', mentions "Target exit", and neither a
   * '}' nor an "s," follows the first mention.
   */
  predicate IsListing(l: seq<byte>)
  {
    && l != [] && l[0] == OPEN_BRACE
    && Find(l, TARGET_EXIT, 0).Some?
    && Find(l, CLOSE_BRACE, Find(l, TARGET_EXIT, 0).value).None?
    && Find(l, S_COMMA, Find(l, TARGET_EXIT, 0).value).None?
  }

  /** Every non-empty prefix of a listing waits for more. */
  lemma ListingPrefixWaits(l: seq<byte>, k: nat, parses: seq<byte> -> bool)
    requires IsListing(l) && 0 < k <= |l|
    ensures ReadMatch(l[..k], parses) == Pending
  {
    var t := Find(l, TARGET_EXIT, 0).value;
    var q := l[..k];
    match Find(q, TARGET_EXIT, 0) {
      case None =>
      case Some(t') =>
        assert q + l[k..] == l;
        FindInExtension(q, l[k..], TARGET_EXIT, 0);
        FindNoneInPrefix(l, CLOSE_BRACE, t, t', k);
        FindNoneInPrefix(l, S_COMMA, t, t', k);
    }
  }

  /**
   * A listing, its brace and whatever follows: the match takes exactly the
   * listing and the brace, and leaves what follows in the buffer.
   */
  lemma ListingMatched(l: seq<byte>, rest: seq<byte>, parses: seq<byte> -> bool)
    requires IsListing(l)
    ensures var text := Repair(l);
      ReadMatch(l + CLOSE_BRACE + rest, parses) == Matched(rest, if parses(text) then [Ack, ReadParams(text)] else [], false)
  {
    var m := l + CLOSE_BRACE + rest;
    var t := Find(l, TARGET_EXIT, 0).value;
    assert m == l + (CLOSE_BRACE + rest);
    FindInExtension(l, CLOSE_BRACE + rest, TARGET_EXIT, 0);
    forall j | t <= j < |l| ensures !OccursAt(m, CLOSE_BRACE, j) {
      OccursInExtension(l, CLOSE_BRACE + rest, CLOSE_BRACE, j);
    }
    OccursByte(m, CLOSE_BRACE[0], |l|);
    FindFirst(m, CLOSE_BRACE, t, |l|);
    assert m[..|l|] == l;
    assert m[|l| + 1..] == rest;
  }

  /** While a listing arrives, the parser holds it and stays in READING_HEADER. */
  lemma {:induction false} ListingPrefixHeld(l: seq<byte>, p: Parser, k: nat, parses: seq<byte> -> bool)
    requires IsListing(l) && |l| <= BUFFER_CAP && p.buffer == []
    requires 0 < k <= |l|
    ensures var m := l + CLOSE_BRACE;
      Feed(p, m[..k], parses) == Parser(m[..k], ReadingHeader, p.events)
  {
    hide PassOf, Feed;
    var m := l + CLOSE_BRACE;
    if k > 1 {
      ListingPrefixHeld(l, p, k - 1, parses);
    }
    assert m[..k] == l[..k];
    ListingPrefixWaits(l, k, parses);
    PassOnRead(m[..k], parses);
    HeldStep(p, m, k, parses);
  }

  /**
   * A listing pushed byte by byte into an empty parser is held in
   * READING_HEADER with nothing reported until its brace arrives; the brace
   * leaves the parser IDLE and empty, and the acknowledgement and the
   * parameters are reported exactly when the repaired text parses.
   */
  lemma ListingAnswered(l: seq<byte>, p: Parser, parses: seq<byte> -> bool)
    requires IsListing(l) && |l| <= BUFFER_CAP && p.buffer == []
    ensures forall k :: 0 < k <= |l| ==> Feed(p, l[..k], parses) == Parser(l[..k], ReadingHeader, p.events)
    ensures var text := Repair(l);
      Feed(p, l + CLOSE_BRACE, parses) == Parser([], Idle, p.events + (if parses(text) then [Ack, ReadParams(text)] else []))
  {
    hide PassOf, Feed;
    var m := l + CLOSE_BRACE;
    forall k | 0 < k <= |l| ensures Feed(p, l[..k], parses) == Parser(l[..k], ReadingHeader, p.events) {
      ListingPrefixHeld(l, p, k, parses);
      assert m[..k] == l[..k];
    }
    var text := Repair(l);
    var ev := if parses(text) then [Ack, ReadParams(text)] else [];
    ListingPrefixHeld(l, p, |l|, parses);
    ListingMatched(l, [], parses);
    assert m + [] == m;
    PassOnRead(m, parses);
    TakenStep(p, m, ev, parses);
  }

  // ---------------------------------------------------------------------------
  // Type-2 frames built from their fields

  /** The 32 bytes of one person as the sensor lays them out: a reserved word, the id, then six coordinate words. */
  function PersonBytes(p: Person): (r: seq<byte>)
    ensures |r| == 32
  {
    WordsBytes(PersonWords(p))
  }

  function PersonWords(p: Person): seq<uint32>
  {
    [0, p.id, p.x, p.y, p.z, p.vx, p.vy, p.vz]
  }

  /** Decoding the 32 bytes of a person gives the person back. */
  lemma PersonAtBytes(buf: seq<byte>, offset: nat, p: Person)
    requires offset + 32 <= |buf| && buf[offset..offset + 32] == PersonBytes(p)
    ensures PersonAt(buf, offset) == p
  {
    var ws := PersonWords(p);
    var pb := PersonBytes(p);
    WordsBytesAt(ws, 1);
    Window(buf, offset, 32, 4, 8);
    WordsBytesAt(ws, 2);
    Window(buf, offset, 32, 8, 12);
    WordsBytesAt(ws, 3);
    Window(buf, offset, 32, 12, 16);
    WordsBytesAt(ws, 4);
    Window(buf, offset, 32, 16, 20);
    WordsBytesAt(ws, 5);
    Window(buf, offset, 32, 20, 24);
    WordsBytesAt(ws, 6);
    Window(buf, offset, 32, 24, 28);
    WordsBytesAt(ws, 7);
    Window(buf, offset, 32, 28, 32);
    ReadUint32Window(buf, offset + 4, p.id);
    ReadUint32Window(buf, offset + 8, p.x);
    ReadUint32Window(buf, offset + 12, p.y);
    ReadUint32Window(buf, offset + 16, p.z);
    ReadUint32Window(buf, offset + 20, p.vx);
    ReadUint32Window(buf, offset + 24, p.vy);
    ReadUint32Window(buf, offset + 28, p.vz);
  }

  function PeopleBytes(ps: seq<Person>): (r: seq<byte>)
    ensures |r| == 32 * |ps|
  {
    if ps == [] then [] else PeopleBytes(ps[..|ps| - 1]) + PersonBytes(ps[|ps| - 1])
  }

  lemma {:induction false} PeopleBytesAt(ps: seq<Person>, i: nat)
    requires i < |ps|
    ensures PeopleBytes(ps)[32 * i..32 * i + 32] == PersonBytes(ps[i])
  {
    var init := ps[..|ps| - 1];
    if i < |ps| - 1 {
      PeopleBytesAt(init, i);
      assert init[i] == ps[i];
      assert PeopleBytes(ps)[32 * i..32 * i + 32] == PeopleBytes(init)[32 * i..32 * i + 32];
    }
  }

  /** The first 32 bytes of a type-2 frame carrying `n` people; `head` holds the words at 12, 16, 20 and 24. */
  function Type2Head(head: seq<uint32>, n: nat): (r: seq<byte>)
    requires |head| == 4 && n <= 31
    ensures |r| == 32
    ensures r[..8] == TYPE2_HEADER && r[8..12] == Uint32Bytes(32 + 32 * n)
    ensures r[12..16] == Uint32Bytes(head[0]) && r[28..32] == Uint32Bytes(32 * n)
  {
    TYPE2_HEADER + Uint32Bytes(32 + 32 * n) + Uint32Bytes(head[0]) + Uint32Bytes(head[1])
      + Uint32Bytes(head[2]) + Uint32Bytes(head[3]) + Uint32Bytes(32 * n)
  }

  /** A type-2 frame as the sensor sends it: the header words, the people, and the XOR checksum. */
  function Type2FrameOf(head: seq<uint32>, ps: seq<Person>): (f: seq<byte>)
    requires |head| == 4 && |ps| <= 31
    ensures |f| == 33 + 32 * |ps|
  {
    Type2Head(head, |ps|) + PeopleBytes(ps) + [XorFrom(XorOf(Uint32Bytes(head[0])), PeopleBytes(ps))]
  }

  /** Encoding then decoding: a built frame is a valid type-2 frame, and its people are exactly the ones put in. */
  lemma Type2RoundTrip(head: seq<uint32>, ps: seq<Person>)
    requires |head| == 4 && |ps| <= 31
    ensures IsType2Frame(Type2FrameOf(head, ps))
    ensures PeopleOf(Type2FrameOf(head, ps)) == Some(ps)
  {
    Type2FrameOfValid(head, ps);
    Type2FrameOfDecodes(head, ps);
  }

  lemma Type2FrameOfValid(head: seq<uint32>, ps: seq<Person>)
    requires |head| == 4 && |ps| <= 31
    ensures IsType2Frame(Type2FrameOf(head, ps))
    ensures ReadUint32(Type2FrameOf(head, ps), 28) == 32 * |ps|
  {
    var n := |ps|;
    var h := Type2Head(head, n);
    var pb := PeopleBytes(ps);
    var f := Type2FrameOf(head, ps);
    assert f[..32] == h;
    assert f[..8] == h[..8];
    assert f[8..12] == h[8..12];
    assert f[12..16] == h[12..16];
    assert f[28..32] == h[28..32];
    ReadUint32Window(f, 8, 32 + 32 * n);
    ReadUint32Window(f, 28, 32 * n);
    assert Between(f, 32, |f| - 1) == pb;
  }

  /** Person `i` of a built frame sits at bytes 32 + 32i onwards. */
  lemma Type2FrameOfWindow(head: seq<uint32>, ps: seq<Person>, i: nat)
    requires |head| == 4 && |ps| <= 31 && i < |ps|
    ensures Type2FrameOf(head, ps)[32 * i + 32..32 * i + 64] == PersonBytes(ps[i])
  {
    var pb := PeopleBytes(ps);
    var f := Type2FrameOf(head, ps);
    PeopleBytesAt(ps, i);
    assert f[32 * i + 32..32 * i + 64] == pb[32 * i..32 * i + 32];
  }

  lemma Type2FrameOfDecodes(head: seq<uint32>, ps: seq<Person>)
    requires |head| == 4 && |ps| <= 31
    ensures PeopleOf(Type2FrameOf(head, ps)) == Some(ps)
  {
    var n := |ps|;
    var f := Type2FrameOf(head, ps);
    Type2FrameOfValid(head, ps);
    forall i | 0 <= i < n
      ensures f[32 * i + 32..32 * i + 64] == PersonBytes(ps[i])
    {
      Type2FrameOfWindow(head, ps, i);
    }
    hide Type2FrameOf, Type2ChecksumOk, IsType2Frame;
    var decoded := PeopleOf(f);
    assert decoded.Some?;
    forall i | 0 <= i < n
      ensures decoded.value[i] == ps[i]
    {
      PersonAtBytes(f, 32 * i + 32, ps[i]);
    }
    assert decoded.value == ps;
  }

  /** A built type-2 frame pushed into an empty buffer reports exactly its people. */
  lemma Type2FrameOfReported(head: seq<uint32>, ps: seq<Person>, p: Parser, parses: seq<byte> -> bool)
    requires |head| == 4 && |ps| <= 31 && p.buffer == []
    ensures Feed(p, Type2FrameOf(head, ps), parses) == Parser([], Idle, p.events + [DetailedRadar(Some(ps))])
  {
    hide PassOf;
    Type2RoundTrip(head, ps);
    Type2FrameReported(Type2FrameOf(head, ps), p, parses);
  }

  // ---------------------------------------------------------------------------
  // The unit tests' byte sequences

  const START: Parser := Parser([], Idle, [])
  /** "AT+OK\r\n" */
  const ACK_LINE: seq<byte> := [0x41, 0x54, 0x2B, 0x4F, 0x4B, 0x0D, 0x0A]

  /** "AT+OK\r\n" is acknowledged once, leaving the parser IDLE. */
  lemma AckTestVector(parses: seq<byte> -> bool)
    ensures Feed(START, ACK_LINE, parses) == Parser([], Idle, [Ack])
  {
    AckLineAcknowledged(ACK_LINE, START, parses);
  }

  /** "AT" waits, '-' and then a second '-' are discarded as INVALID, and "AT+OK\r\n" after them is acknowledged. */
  lemma SkipTestVector(parses: seq<byte> -> bool)
    ensures Feed(START, [0x41, 0x54], parses) == Parser([0x41, 0x54], ReadingHeader, [])
    ensures Feed(START, [0x41, 0x54, 0x2D], parses) == Parser([], InvalidFrame, [])
    ensures Feed(START, [0x41, 0x54, 0x2D, 0x2D], parses) == Parser([], InvalidFrame, [])
    ensures Feed(START, [0x41, 0x54, 0x2D, 0x2D, 0x41], parses) == Parser([0x41], ReadingHeader, [])
    ensures Feed(START, [0x41, 0x54, 0x2D, 0x2D] + ACK_LINE, parses) == Parser([], Idle, [Ack])
  {
    hide Feed, Push, PassOf;
    var invalid := Parser([], InvalidFrame, []);
    var three: seq<byte> := [0x41, 0x54, 0x2D];
    var four: seq<byte> := [0x41, 0x54, 0x2D, 0x2D];
    SkipHoldsAT(parses);
    SkipDiscardsDash(parses);
    FeedAppend(START, three, [0x2D], parses);
    assert three + [0x2D] == four;
    DashDiscarded(invalid, parses);
    FeedAppend(START, four, [0x41], parses);
    assert four + [0x41] == [0x41, 0x54, 0x2D, 0x2D, 0x41];
    AckPrefixHeld(ACK_LINE, invalid, 1, parses);
    assert ACK_LINE[..1] == [0x41];
    FeedAppend(START, four, ACK_LINE, parses);
    AckLineAcknowledged(ACK_LINE, invalid, parses);
  }

  lemma SkipHoldsAT(parses: seq<byte> -> bool)
    ensures Feed(START, [0x41, 0x54], parses) == Parser([0x41, 0x54], ReadingHeader, [])
  {
    hide Feed, Push, PassOf;
    AckPrefixHeld(ACK_LINE, START, 2, parses);
    assert ACK_LINE[..2] == [0x41, 0x54];
  }

  lemma SkipDiscardsDash(parses: seq<byte> -> bool)
    ensures Feed(START, [0x41, 0x54, 0x2D], parses) == Parser([], InvalidFrame, [])
  {
    hide Feed, PassOf;
    var three: seq<byte> := [0x41, 0x54, 0x2D];
    SkipHoldsAT(parses);
    assert three[..2] == [0x41, 0x54];
    assert !PrefixAgrees(three, AT_PREFIX) by {
      assert three[..3][2] != AT_PREFIX[..3][2];
    }
    PassOnAck(three, parses);
    DiscardStep(START, three, parses);
  }

  /** A '-' pushed into an empty buffer is discarded. */
  lemma DashDiscarded(p: Parser, parses: seq<byte> -> bool)
    requires p.buffer == []
    ensures Feed(p, [0x2D], parses) == Parser([], InvalidFrame, p.events)
  {
    hide PassOf;
    assert [0x2D][..0] == [];
    assert p.buffer + [0x2D] == [0x2D];
    ForeignBytesDrained([0x2D], parses);
    assert Feed(p, [0x2D], parses) == Push(p, 0x2D, parses);
  }

  /** After a rejected head, bytes that cannot start a message are discarded too. */
  lemma DiscardedAfterRejectedHead(buf: seq<byte>, parses: seq<byte> -> bool)
    requires 2 <= |buf| <= BUFFER_CAP + 1 && PassOf(parses)(buf).Rejected?
    requires forall i :: 1 <= i < |buf| ==> !Leads(buf[i])
    ensures Drive(buf, PassOf(parses)) == Driven([], InvalidFrame, [], false)
  {
    hide PassOf;
    DriveAfterPass(buf, PassOf(parses));
    ForeignBytesDrained(buf[1..], parses);
  }

  /** A push whose pass rejects a held message with nothing after its head that could start another discards it all. */
  lemma DiscardStep(p: Parser, s: seq<byte>, parses: seq<byte> -> bool)
    requires 2 <= |s| <= BUFFER_CAP + 1 && p.buffer == []
    requires Feed(p, s[..|s| - 1], parses) == Parser(s[..|s| - 1], ReadingHeader, p.events)
    requires PassOf(parses)(s).Rejected?
    requires forall i :: 1 <= i < |s| ==> !Leads(s[i])
    ensures Feed(p, s, parses) == Parser([], InvalidFrame, p.events)
  {
    hide PassOf, Drive;
    var k := |s| - 1;
    FeedOne(p, s, k, parses);
    assert s[..k + 1] == s;
    assert Feed(p, s[..k], parses).buffer + [s[k]] == s;
    DiscardedAfterRejectedHead(s, parses);
  }

  /** The body of the test's type-1 frame: length 10, then six bytes of which byte 8 of the frame is the count. */
  const TYPE1_BODY: seq<byte> := [0x0A, 0x04, 0x00, 0x00, 0x00, 0x00, 0x00]

  /** `55 AA 0A 04 00 00 00 00 00 0E` waits in READING_HEADER after four bytes and then reports a count of 0. */
  lemma Type1TestVector(parses: seq<byte> -> bool)
    ensures Type1Frame(TYPE1_BODY) == [0x55, 0xAA, 0x0A, 0x04, 0x00, 0x00, 0x00, 0x00, 0x00, 0x0E]
    ensures Feed(START, Type1Frame(TYPE1_BODY)[..4], parses).state == ReadingHeader
    ensures Feed(START, Type1Frame(TYPE1_BODY), parses) == Parser([], Idle, [SimpleRadar(Some(0))])
  {
    hide Feed, PassOf;
    Type1TestChecksum();
    Type1PrefixHeld(TYPE1_BODY, START, 4, parses);
    Type1FrameReported(TYPE1_BODY, START, parses);
  }

  /** The test frame with byte 8 changed from 00 to 04 and the checksum kept. */
  const CORRUPTED: seq<byte> := Type1Frame(TYPE1_BODY)[8 := 0x04]

  /** The corrupted frame fails its checksum: no report, and the parser ends INVALID and empty. */
  lemma CorruptedTestVector(parses: seq<byte> -> bool)
    ensures Feed(START, CORRUPTED, parses) == Parser([], InvalidFrame, [])
  {
    hide Feed, PassOf;
    var body := TYPE1_BODY[6 := 0x04];
    assert Type1Frame(body)[..9] == CORRUPTED[..9];
    Type1PrefixHeld(body, START, 9, parses);
    Type1TestChecksum();
    assert CORRUPTED[9] == 0x0E;
    CorruptedRejected(parses);
    DiscardStep(START, CORRUPTED, parses);
  }

  // The exclusive-or steps of the test frames' checksums, evaluated bit by bit.

  lemma XorOfStartByte() ensures Xor(0, 0x0A) == 0x0A { XorBitsOfZeros(4); assert XorBits(0, 0x0A, 8) == 0x0A; }
  lemma XorOfSecondByte() ensures Xor(0x0A, 0x04) == 0x0E { XorBitsOfZeros(4); assert XorBits(0x0A, 0x04, 8) == 0x0E; }
  lemma XorOfZeroByte() ensures Xor(0x0E, 0x00) == 0x0E { XorBitsOfZeros(4); assert XorBits(0x0E, 0x00, 8) == 0x0E; }
  lemma XorOfCorruptedByte() ensures Xor(0x0E, 0x04) == 0x0A { XorBitsOfZeros(4); assert XorBits(0x0E, 0x04, 8) == 0x0A; }

  /** The checksum of the test frame is 0E, which no message starts with. */
  lemma Type1TestChecksum()
    ensures XorOf(TYPE1_BODY) == 0x0E
  {
    var head: seq<byte> := [0x0A, 0x04, 0x00];
    XorFromAppend(0, head, [0x00, 0x00, 0x00, 0x00]);
    assert head + [0x00, 0x00, 0x00, 0x00] == TYPE1_BODY;
    assert [0x0A] + [0x04, 0x00] == head && [0x04] + [0x00] == [0x04, 0x00];
    XorFromCons(0, 0x0A, [0x04, 0x00]);
    XorFromCons(0x0A, 0x04, [0x00]);
    assert [0x00][..0] == [];
    XorOfStartByte();
    XorOfSecondByte();
    XorOfZeroByte();
    assert XorFrom(0, head) == 0x0E;
    XorFromFour(0x0E, 0x00, 0x00, 0x00, 0x00);
  }

  lemma CorruptedRejected(parses: seq<byte> -> bool)
    ensures PassOf(parses)(CORRUPTED).Rejected?
  {
    var f := Type1Frame(TYPE1_BODY);
    assert Between(f, 2, |f| - 1) == TYPE1_BODY;
    Type1CorruptionDetected(f, 8, 0x04);
    assert PrefixAgrees(CORRUPTED, TYPE1_HEADER);
    assert Type1Match(CORRUPTED) == Rejected;
    PassOnType1(CORRUPTED, parses);
  }
}
