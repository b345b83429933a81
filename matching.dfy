/**
 * What the LD6001A and LD6001B parsers share: the `MatchResult` of a matcher,
 * the parse states, the `AT+...\r\n` acknowledgement grammar, the two binary
 * framings (a `55 AA` frame and an `01..08` frame, both with XOR checksums),
 * the unused "Save Para Fail" matcher, and the driver that runs the four
 * matchers in order after every pushed byte.
 */
module Matching {
  import opened Bytes
  import opened Wrappers

  datatype MatchResult = Invalid | Partial | Complete

  datatype ParseState = Idle | ReadingHeader | Validating | Completed | InvalidFrame

  /** Above this many buffered bytes the driver discards the buffer. */
  const BUFFER_CAP: nat := 1024

  const CR: byte := 0x0D
  const LF: byte := 0x0A
  /** "AT+" */
  const AT_PREFIX: seq<byte> := [0x41, 0x54, 0x2B]
  const TYPE1_HEADER: seq<byte> := [0x55, 0xAA]
  const TYPE2_HEADER: seq<byte> := [0x01, 0x02, 0x03, 0x04, 0x05, 0x06, 0x07, 0x08]
  const OPEN_BRACE: byte := 0x7B
  const CLOSE_BRACE: seq<byte> := [0x7D]
  /** " " */
  const SPACE: seq<byte> := [0x20]
  /** "Save Para Fail\r\n" */
  const SAVE_PARA_FAIL: seq<byte> :=
    [0x53, 0x61, 0x76, 0x65, 0x20, 0x50, 0x61, 0x72, 0x61, 0x20, 0x46, 0x61, 0x69, 0x6C, 0x0D, 0x0A]

  function Min(a: nat, b: nat): nat
  {
    if a < b then a else b
  }

  /** `std::equal` over the first min(|pat|, |buf|) bytes: the buffer so far is consistent with `pat`. */
  predicate PrefixAgrees(buf: seq<byte>, pat: seq<byte>)
  {
    buf[..Min(|pat|, |buf|)] == pat[..Min(|pat|, |buf|)]
  }

  /** The decision a matcher reaches about the head of the buffer: no, not yet, or a frame of `len` bytes. */
  datatype Framing = NoMatch | Wait | Good(len: nat)

  // ---------------------------------------------------------------------------
  // The AT acknowledgement

  /** The first '\r' at or after `pos`, or the end of the buffer. */
  function ScanToCR(buf: seq<byte>, pos: nat): (r: nat)
    requires pos <= |buf|
    ensures pos <= r <= |buf|
    ensures r < |buf| ==> buf[r] == CR
    ensures forall i :: pos <= i < r ==> buf[i] != CR
    decreases |buf| - pos
  {
    if pos == |buf| || buf[pos] == CR then pos else ScanToCR(buf, pos + 1)
  }

  /** `match_at_ok_`: "AT+", one byte that is skipped unexamined, anything but '\r', then "\r\n". */
  function AtOk(buf: seq<byte>): (r: Framing)
    ensures r.Good? ==> 6 <= r.len <= |buf|
  {
    if !PrefixAgrees(buf, AT_PREFIX) then NoMatch
    else if |buf| < 3 then Wait
    else
      var pos := if |buf| > 3 then ScanToCR(buf, 4) else 3;
      if |buf| < pos + 2 then
        if buf[pos..] == [CR, LF][..|buf| - pos] then Wait else NoMatch
      else if buf[pos] == CR && buf[pos + 1] == LF then Good(pos + 2)
      else NoMatch
  }

  /** An acknowledgement line as the grammar defines it, independently of the scan. */
  predicate IsAck(s: seq<byte>)
  {
    && |s| >= 6
    && s[..3] == AT_PREFIX
    && s[|s| - 2] == CR && s[|s| - 1] == LF
    && forall i :: 4 <= i < |s| - 2 ==> s[i] != CR
  }

  /** The matcher completes on exactly the acknowledgement lines at the head of the buffer, taking all of the line. */
  lemma AtOkCompleteIffAck(buf: seq<byte>, n: nat)
    ensures AtOk(buf) == Good(n) <==> n <= |buf| && IsAck(buf[..n])
  {
    if n <= |buf| && IsAck(buf[..n]) {
      assert buf[..n][..3] == buf[..3];
      assert PrefixAgrees(buf, AT_PREFIX);
      var pos := ScanToCR(buf, 4);
      assert buf[..n][n - 2] == buf[n - 2];
      assert pos == n - 2;
    }
    if AtOk(buf) == Good(n) {
      assert buf[..n][..3] == buf[..3];
      forall i | 4 <= i < n - 2
        ensures buf[..n][i] != CR
      {
      }
    }
  }

  /** Every proper prefix of an acknowledgement line waits for more. */
  lemma AtOkPrefixWaits(s: seq<byte>, k: nat)
    requires IsAck(s) && k < |s|
    ensures AtOk(s[..k]) == Wait
  {
    var buf := s[..k];
    if k <= 3 {
      assert buf[..k] == AT_PREFIX[..k];
    } else {
      assert buf[..3] == s[..3];
      var pos := ScanToCR(buf, 4);
      if k <= |s| - 2 {
        assert pos == k;
      } else {
        assert buf[k - 1] == CR;
        assert pos == k - 1;
        assert buf[pos..] == [CR];
      }
    }
  }

  /** A '\r' that ends the value but is followed by anything but '\n' is rejected. */
  lemma AtOkCrWithoutLf(buf: seq<byte>, i: nat)
    requires 4 <= i && i + 1 < |buf|
    requires buf[..3] == AT_PREFIX
    requires buf[i] == CR && buf[i + 1] != LF
    requires forall j :: 4 <= j < i ==> buf[j] != CR
    ensures AtOk(buf) == NoMatch
  {
    assert ScanToCR(buf, 4) == i;
  }

  /** Anything whose first byte is not 'A' is rejected at once. */
  lemma AtOkRejectsOtherFirstByte(buf: seq<byte>)
    requires buf != [] && buf[0] != 0x41
    ensures AtOk(buf) == NoMatch
  {
    assert buf[..Min(3, |buf|)][0] == buf[0];
  }

  /**
   * The scan of `match_at_ok_` over a buffer: the prefix check, the skipped
   * byte, the run of non-'\r' bytes, and the partial or full "\r\n" check.
   */
  method ScanAtOk(buf: seq<byte>) returns (f: Framing)
    ensures f == AtOk(buf)
  {
    var size := |buf|;
    var matchSize := Min(3, size);
    if AT_PREFIX[..matchSize] != buf[..matchSize] {
      return NoMatch;
    } else if size < 3 {
      return Wait;
    }
    var pos := 3;
    if size > pos {
      pos := pos + 1;
      while pos < size && buf[pos] != CR
        invariant 4 <= pos <= size
        invariant ScanToCR(buf, pos) == ScanToCR(buf, 4)
        decreases size - pos
      {
        pos := pos + 1;
      }
    }
    if size < pos + 2 {
      var i := 0;
      while i < size - pos
        invariant 0 <= i <= size - pos
        invariant buf[pos..pos + i] == [CR, LF][..i]
        decreases size - pos - i
      {
        if buf[pos + i] != [CR, LF][i] {
          // A partial suffix can only be "\r": the scan stopped at it or at the end.
          assert false;
          return NoMatch;
        }
        i := i + 1;
      }
      assert buf[pos..] == buf[pos..pos + i];
      return Wait;
    }
    if buf[pos] == CR && buf[pos + 1] == LF {
      return Good(pos + 1 + 1);
    }
    return NoMatch;
  }

  // ---------------------------------------------------------------------------
  // Checksums (`validate_frame`)

  /** Bytes [lo, hi) of the buffer; empty when the loop bound is not above its start. */
  function Between(buf: seq<byte>, lo: nat, hi: int): (r: seq<byte>)
    requires hi <= |buf|
    ensures |r| == if lo < hi then hi - lo else 0
  {
    if lo < hi then buf[lo..hi] else []
  }

  /** The `55 AA` branch: XOR of bytes [2, n-1) equals the last byte. */
  predicate Type1ChecksumOk(buf: seq<byte>)
    requires |buf| >= 2
  {
    XorOf(Between(buf, 2, |buf| - 1)) == buf[|buf| - 1]
  }

  /**
   * The other branch over the first `n` bytes of `ext`: XOR of bytes [12, 16)
   * continued over [32, n-1) equals byte n-1. The bytes 12 to 15 are read
   * whatever `n` is.
   */
  predicate Type2ChecksumOver(ext: seq<byte>, n: nat)
    requires 16 <= |ext| && 1 <= n <= |ext|
  {
    XorFrom(XorOf(ext[12..16]), Between(ext, 32, n - 1)) == ext[n - 1]
  }

  predicate Type2ChecksumOk(buf: seq<byte>)
    requires |buf| >= 16
  {
    Type2ChecksumOver(buf, |buf|)
  }

  /** `validate_frame` over the whole buffer. */
  predicate FrameValid(buf: seq<byte>)
    requires |buf| >= 2 && ((buf[0] == 0x55 && buf[1] == 0xAA) || |buf| >= 16)
  {
    if buf[0] == 0x55 && buf[1] == 0xAA then Type1ChecksumOk(buf) else Type2ChecksumOk(buf)
  }

  /** `validate_frame`: the XOR loops over the whole buffer, by the branch its first two bytes select. */
  method ValidateFrame(buf: seq<byte>) returns (ok: bool)
    requires |buf| >= 2 && ((buf[0] == 0x55 && buf[1] == 0xAA) || |buf| >= 16)
    ensures ok == FrameValid(buf)
  {
    var expected := buf[|buf| - 1];
    if buf[0] == 0x55 && buf[1] == 0xAA {
      var calculated: byte := 0;
      var i := 2;
      while i < |buf| - 1
        invariant 2 <= i <= |buf|
        invariant i == 2 || i <= |buf| - 1
        invariant calculated == XorOf(buf[2..i])
        decreases |buf| - i
      {
        assert buf[2..i + 1][..i - 2] == buf[2..i];
        calculated := Xor(calculated, buf[i]);
        i := i + 1;
      }
      assert Between(buf, 2, |buf| - 1) == buf[2..i];
      return expected == calculated;
    } else {
      var calculated: byte := 0;
      for i := 12 to 16
        invariant calculated == XorOf(buf[12..i])
      {
        assert buf[12..i + 1][..i - 12] == buf[12..i];
        calculated := Xor(calculated, buf[i]);
      }
      ghost var head := calculated;
      var i := 32;
      while i < |buf| - 1
        invariant 32 <= i
        invariant (i == 32 && calculated == head) || (i <= |buf| - 1 && calculated == XorFrom(head, buf[32..i]))
        decreases |buf| - i
      {
        assert buf[32..i + 1][..i - 32] == buf[32..i];
        calculated := Xor(calculated, buf[i]);
        i := i + 1;
      }
      assert Between(buf, 32, |buf| - 1) == if i == 32 then [] else buf[32..i];
      return expected == calculated;
    }
  }

  /** Changing any one byte under an XOR checksum changes the checksum: single-byte corruption is always detected. */
  lemma {:induction false} XorDetectsOneByte(acc: byte, s: seq<byte>, i: nat, v: byte)
    requires i < |s| && v != s[i]
    ensures XorFrom(acc, s) != XorFrom(acc, s[i := v])
  {
    var t := s[i := v];
    var n := |s| - 1;
    if i == n {
      assert t[..n] == s[..n];
      XorCancel(XorFrom(acc, s[..n]), s[n], v);
    } else {
      assert t[..n] == s[..n][i := v];
      XorDetectsOneByte(acc, s[..n], i, v);
      XorCancel(s[n], XorFrom(acc, s[..n]), XorFrom(acc, t[..n]));
    }
  }

  /** A type-1 frame with one covered byte corrupted fails its checksum. */
  lemma Type1CorruptionDetected(buf: seq<byte>, i: nat, v: byte)
    requires |buf| >= 3 && Type1ChecksumOk(buf)
    requires 2 <= i < |buf| - 1 && v != buf[i]
    ensures !Type1ChecksumOk(buf[i := v])
  {
    var n := |buf| - 1;
    assert Between(buf[i := v], 2, n) == Between(buf, 2, n)[i - 2 := v];
    XorDetectsOneByte(0, Between(buf, 2, n), i - 2, v);
  }

  // ---------------------------------------------------------------------------
  // The `55 AA` framing

  /**
   * `match_binary_type1_` up to the checksum, corrected to wait until byte
   * `ready - 1` has arrived before it is read (3 for the length byte; the
   * LD6001B parser also reads the type byte and passes 4).
   */
  function Type1Framing(buf: seq<byte>, ready: nat): (r: Framing)
    requires ready >= 3
    ensures r.Good? ==> |buf| >= ready && r.len == buf[2] && r.len <= |buf|
  {
    if !PrefixAgrees(buf, TYPE1_HEADER) then NoMatch
    else if |buf| < ready then Wait
    else if |buf| < buf[2] then Wait
    else if !Type1ChecksumOk(buf) then NoMatch
    else Good(buf[2])
  }

  /**
   * The same, as written: once two bytes are buffered the length is read from
   * index 2 whether or not it exists; `stale` stands for whatever lies past
   * the end of the buffer.
   */
  function Type1FramingAsWritten(buf: seq<byte>, stale: seq<byte>): Framing
    requires |stale| >= 2
  {
    var ext := buf + stale;
    if !PrefixAgrees(buf, TYPE1_HEADER) then NoMatch
    else if |buf| < 2 then Wait
    else if |buf| < ext[2] then Wait
    else if !Type1ChecksumOk(buf) then NoMatch
    else Good(ext[2])
  }

  /** Once the length byte is present the correction changes nothing. */
  lemma Type1AsWrittenAgreesLater(buf: seq<byte>, stale: seq<byte>)
    requires |stale| >= 2 && |buf| >= 3
    ensures Type1FramingAsWritten(buf, stale) == Type1Framing(buf, 3)
  {
    assert (buf + stale)[2] == buf[2];
  }

  /** With only `55 AA` buffered and a small stale byte, the as-written matcher rejects the header of a frame. */
  lemma Type1AsWrittenRejectsHeader()
    ensures Type1FramingAsWritten([0x55, 0xAA], [0, 0]) == NoMatch
    ensures Type1Framing([0x55, 0xAA], 3) == Wait
  {
    assert Between([0x55, 0xAA], 2, 1) == [];
  }

  /** The bytes of a type-1 frame around `body`, whose first byte must be the frame length. */
  function Type1Frame(body: seq<byte>): (f: seq<byte>)
    ensures |f| == |body| + 3
  {
    TYPE1_HEADER + body + [XorOf(body)]
  }

  /** A type-1 frame waits on every proper prefix and is taken whole once its last byte arrives. */
  lemma Type1FrameRecognised(body: seq<byte>, ready: nat, k: nat)
    requires 3 <= ready <= |body| + 3
    requires body != [] && body[0] == |body| + 3
    requires k <= |body| + 3
    ensures var f := Type1Frame(body);
      Type1Framing(f[..k], ready) == if k < |f| then Wait else Good(|f|)
  {
    var f := Type1Frame(body);
    var b := f[..k];
    assert b[..Min(2, k)] == TYPE1_HEADER[..Min(2, k)];
    if k == |f| {
      assert b == f;
      assert Between(f, 2, |f| - 1) == body;
    } else if k >= 3 {
      assert b[2] == body[0];
    }
  }

  // ---------------------------------------------------------------------------
  // The `01 .. 08` framing

  /** The LE u32 at [8, 12) plus one, in 32-bit unsigned arithmetic (0xFFFFFFFF wraps to 0). */
  function Type2Length(buf: seq<byte>): (r: uint32)
    requires |buf| >= 12
    ensures ReadUint32(buf, 8) < TWO_32 - 1 ==> r == ReadUint32(buf, 8) + 1
    ensures ReadUint32(buf, 8) == TWO_32 - 1 ==> r == 0
  {
    (ReadUint32(buf, 8) + 1) % TWO_32
  }

  /** `match_binary_type2_` up to the checksum, corrected to wait until bytes 12 to 15 have arrived. */
  function Type2Framing(buf: seq<byte>): (r: Framing)
    ensures r.Good? ==> |buf| >= 16 && r.len <= |buf|
  {
    if !PrefixAgrees(buf, TYPE2_HEADER) then NoMatch
    else if |buf| < 12 then Wait
    else if |buf| < Type2Length(buf) then Wait
    else if |buf| < 16 then Wait
    else if !Type2ChecksumOk(buf) then NoMatch
    else Good(Type2Length(buf))
  }

  /** The same, as written: a short announced length sends the checksum over bytes 12 to 15 even when absent. */
  function Type2FramingAsWritten(buf: seq<byte>, stale: seq<byte>): Framing
    requires |stale| >= 4
  {
    if !PrefixAgrees(buf, TYPE2_HEADER) then NoMatch
    else if |buf| < 12 then Wait
    else if |buf| < Type2Length(buf) then Wait
    else if !Type2ChecksumOver(buf + stale, |buf|) then NoMatch
    else Good(Type2Length(buf))
  }

  /** From 16 bytes on the correction changes nothing. */
  lemma Type2AsWrittenAgreesLater(buf: seq<byte>, stale: seq<byte>)
    requires |stale| >= 4 && |buf| >= 16
    ensures Type2FramingAsWritten(buf, stale) == Type2Framing(buf)
  {
    var ext := buf + stale;
    assert ext[12..16] == buf[12..16];
    assert Between(ext, 32, |buf| - 1) == Between(buf, 32, |buf| - 1);
    assert ext[|buf| - 1] == buf[|buf| - 1];
  }

  /** Twelve bytes announcing a 12-byte frame: the verdict depends only on the four stale bytes. */
  lemma Type2AsWrittenReadsStaleChecksum()
    ensures var b := TYPE2_HEADER + [11, 0, 0, 0];
      && Type2FramingAsWritten(b, [0, 0, 0, 0]) == Good(12)
      && Type2FramingAsWritten(b, [1, 0, 0, 0]) == NoMatch
      && Type2Framing(b) == Wait
  {
    var b := TYPE2_HEADER + [11, 0, 0, 0];
    assert b[..8] == TYPE2_HEADER;
    assert ReadUint32(b, 8) == 11;
    assert XorOf([0, 0, 0, 0]) == 0 by {
      assert [0, 0, 0, 0][..3] == [0, 0, 0];
      assert [0, 0, 0][..2] == [0, 0];
      assert [0, 0][..1] == [0];
      assert [0][..0] == [];
      assert Xor(0, 0) == 0;
    }
    assert XorOf([1, 0, 0, 0]) == 1 by {
      assert [1, 0, 0, 0][..3] == [1, 0, 0];
      assert [1, 0, 0][..2] == [1, 0];
      assert [1, 0][..1] == [1];
      assert [1][..0] == [];
      assert Xor(0, 1) == 1 && Xor(1, 0) == 1;
    }
    assert (b + [0, 0, 0, 0])[12..16] == [0, 0, 0, 0];
    assert (b + [1, 0, 0, 0])[12..16] == [1, 0, 0, 0];
  }

  /** A type-2 frame: the header, its length word one less than its size, and a valid checksum. */
  predicate IsType2Frame(f: seq<byte>)
  {
    && 16 <= |f| <= BUFFER_CAP + 1
    && f[..8] == TYPE2_HEADER
    && ReadUint32(f, 8) + 1 == |f|
    && Type2ChecksumOk(f)
  }

  /** Every proper prefix of a type-2 frame waits; the whole frame is taken. */
  lemma Type2FrameRecognised(f: seq<byte>, k: nat)
    requires IsType2Frame(f) && k <= |f|
    ensures Type2Framing(f[..k]) == if k < |f| then Wait else Good(|f|)
  {
    var b := f[..k];
    assert b[..Min(8, k)] == TYPE2_HEADER[..Min(8, k)];
    if k == |f| {
      assert b == f;
    } else if k >= 12 {
      assert ReadUint32(b, 8) == ReadUint32(f, 8);
    }
  }

  // ---------------------------------------------------------------------------
  // "Save Para Fail"

  /** `match_save_para_fail_`, which neither parser lists among its matchers. */
  function SaveParaFail(buf: seq<byte>): Framing
  {
    if !PrefixAgrees(buf, SAVE_PARA_FAIL) then NoMatch
    else if |buf| < 16 then Wait
    else Good(16)
  }

  /** Were it listed, it would take exactly the marker, and wait on each proper prefix of it. */
  lemma SaveParaFailTakesMarker(rest: seq<byte>, k: nat)
    requires k < 16
    ensures SaveParaFail(SAVE_PARA_FAIL + rest) == Good(16)
    ensures SaveParaFail(SAVE_PARA_FAIL[..k]) == Wait
  {
    assert (SAVE_PARA_FAIL + rest)[..16] == SAVE_PARA_FAIL;
    assert SAVE_PARA_FAIL[..k][..k] == SAVE_PARA_FAIL[..k];
  }

  // ---------------------------------------------------------------------------
  // The driver (`try_parse_frame_`)

  /** A byte that can start one of the four messages: 'A', 0x55, 0x01 or '{'. */
  predicate Leads(b: byte)
  {
    b == AT_PREFIX[0] || b == TYPE1_HEADER[0] || b == TYPE2_HEADER[0] || b == OPEN_BRACE
  }

  /**
   * A matcher's verdict on the buffer. Only a match changes anything: it
   * leaves `rest` in the buffer, makes the handler calls `events`, and
   * (only the LD6001B read-response matcher) may have seen the new-firmware
   * marker.
   */
  datatype Outcome<E> = Rejected | Pending | Matched(rest: seq<byte>, events: seq<E>, versionSeen: bool)

  function ResultOf<E>(o: Outcome<E>): MatchResult
  {
    match o
    case Rejected => Invalid
    case Pending => Partial
    case Matched(_, _, _) => Complete
  }

  /**
   * One pass of the matcher loop over the verdicts in matcher order: the
   * first match wins; otherwise any pending matcher makes the pass pending;
   * otherwise every matcher rejected.
   */
  function Pass<E>(outs: seq<Outcome<E>>): (r: Outcome<E>)
    ensures r.Matched? ==> exists k :: 0 <= k < |outs| && outs[k] == r && forall j :: 0 <= j < k ==> !outs[j].Matched?
    ensures (exists j :: 0 <= j < |outs| && outs[j].Matched?) ==> r.Matched?
    ensures r.Pending? <==>
      (forall j :: 0 <= j < |outs| ==> !outs[j].Matched?) && exists j :: 0 <= j < |outs| && outs[j].Pending?
    ensures r.Rejected? <==> forall j :: 0 <= j < |outs| ==> outs[j].Rejected?
  {
    if outs == [] then Rejected
    else if outs[0].Matched? then outs[0]
    else
      var r := Pass(outs[1..]);
      assert forall j :: 1 <= j < |outs| ==> outs[j] == outs[1..][j - 1];
      if r.Matched? then r
      else if outs[0].Pending? then Pending
      else r
  }

  /** A pass decided by its first match. */
  lemma PassFirstMatch<E>(outs: seq<Outcome<E>>, i: nat)
    requires i < |outs| && outs[i].Matched?
    requires forall j :: 0 <= j < i ==> !outs[j].Matched?
    ensures Pass(outs) == outs[i]
  {
    if i > 0 {
      assert outs[1..][i - 1] == outs[i];
      PassFirstMatch(outs[1..], i - 1);
    }
  }

  /** A pass in which every other matcher rejects is decided by the remaining one. */
  lemma PassDecidedBy<E>(outs: seq<Outcome<E>>, i: nat)
    requires i < |outs|
    requires forall j :: 0 <= j < |outs| && j != i ==> outs[j].Rejected?
    ensures Pass(outs) == outs[i]
  {
    if outs[i].Matched? {
      PassFirstMatch(outs, i);
    }
  }

  /** What a matcher with verdict `o` does to the buffer and the handler calls made so far. */
  ghost predicate Applied<E>(o: Outcome<E>, buf0: seq<byte>, ev0: seq<E>, buf1: seq<byte>, ev1: seq<E>)
  {
    if o.Matched? then buf1 == o.rest && ev1 == ev0 + o.events else buf1 == buf0 && ev1 == ev0
  }

  /** The buffer after the size check at the end of a pass. */
  function Cap(b: seq<byte>): (r: seq<byte>)
    ensures |r| <= BUFFER_CAP
    ensures |b| <= BUFFER_CAP ==> r == b
    ensures |b| > BUFFER_CAP ==> r == []
  {
    if |b| > BUFFER_CAP then [] else b
  }

  datatype Driven<E> = Driven(buffer: seq<byte>, state: ParseState, events: seq<E>, versionSeen: bool)

  /**
   * The do-while loop of `try_parse_frame_`: a match ends it in IDLE, a
   * pending pass ends it in READING_HEADER, and a pass in which every matcher
   * rejects drops the head byte and repeats while bytes remain.
   */
  function Drive<E>(buf: seq<byte>, pass: seq<byte> -> Outcome<E>): (r: Driven<E>)
    requires buf != []
    ensures |r.buffer| <= BUFFER_CAP
    ensures r.state == Idle || r.state == ReadingHeader || r.state == InvalidFrame
    ensures r.state != Idle ==> r.events == [] && !r.versionSeen
    ensures r.state == InvalidFrame ==> r.buffer == []
    decreases |buf|
  {
    match pass(buf)
    case Matched(rest, events, seen) => Driven(Cap(rest), Idle, events, seen)
    case Pending => Driven(Cap(buf), ReadingHeader, [], false)
    case Rejected =>
      var b := Cap(buf[1..]);
      if b == [] then Driven([], InvalidFrame, [], false) else Drive(b, pass)
  }

  /** One pass of the drive, case by case. */
  lemma DriveAfterPass<E>(buf: seq<byte>, pass: seq<byte> -> Outcome<E>)
    requires buf != []
    ensures pass(buf).Matched? ==>
      Drive(buf, pass) == Driven(Cap(pass(buf).rest), Idle, pass(buf).events, pass(buf).versionSeen)
    ensures pass(buf).Pending? ==> Drive(buf, pass) == Driven(Cap(buf), ReadingHeader, [], false)
    ensures pass(buf).Rejected? && Cap(buf[1..]) == [] ==> Drive(buf, pass) == Driven([], InvalidFrame, [], false)
    ensures pass(buf).Rejected? && Cap(buf[1..]) != [] ==> Drive(buf, pass) == Drive(Cap(buf[1..]), pass)
  {
  }

  /**
   * One pass of the do-while loop read off the loop's own variables: the
   * verdict `pass(before)`, the buffer `mid` and calls `ev1` the matchers left,
   * and the state, buffer and loop flag after the pass has been settled.
   */
  lemma SettleStep<E>(pass: seq<byte> -> Outcome<E>, before: seq<byte>, ev0: seq<E>, mid: seq<byte>, ev1: seq<E>,
                      st: ParseState, after: seq<byte>, more: bool)
    requires before != []
    requires Applied(pass(before), before, ev0, mid, ev1)
    requires st == if pass(before).Pending? then ReadingHeader else if pass(before).Rejected? then InvalidFrame else Idle
    requires after == Cap(if pass(before).Rejected? && mid != [] then mid[1..] else mid)
    requires more == (|after| > 0 && pass(before).Rejected?)
    ensures var d := Drive(before, pass);
      if more then after != [] && |after| < |before| && Drive(after, pass) == d && ev1 == ev0
      else after == d.buffer && st == d.state && ev1 == ev0 + d.events
  {
  }

  /** What the last pass of a drive over `b` produced. */
  ghost predicate LastPass<E>(b: seq<byte>, pass: seq<byte> -> Outcome<E>, r: Driven<E>)
  {
    match pass(b)
    case Matched(rest, events, seen) => r == Driven(Cap(rest), Idle, events, seen)
    case Pending => r == Driven(Cap(b), ReadingHeader, [], false)
    case Rejected => |b| == 1 && r == Driven([], InvalidFrame, [], false)
  }

  /**
   * Bytes are dropped only from the head, one at a time, and only when every
   * matcher rejects the buffer; the drive ends at the first pass that matches
   * or is pending, so at most one frame is taken per push.
   */
  lemma {:induction false} DriveDropsOnlyRejected<E>(buf: seq<byte>, pass: seq<byte> -> Outcome<E>)
    requires buf != [] && |buf| <= BUFFER_CAP + 1
    ensures exists k :: 0 <= k < |buf| && (forall j :: 0 <= j < k ==> pass(buf[j..]).Rejected?) &&
                        LastPass(buf[k..], pass, Drive(buf, pass))
    decreases |buf|
  {
    assert buf[0..] == buf;
    match pass(buf)
    case Matched(_, _, _) =>
    case Pending =>
    case Rejected =>
      var b := buf[1..];
      if b != [] {
        DriveDropsOnlyRejected(b, pass);
        var k' :| 0 <= k' < |b| && (forall j :: 0 <= j < k' ==> pass(b[j..]).Rejected?) && LastPass(b[k'..], pass, Drive(b, pass));
        assert b[k'..] == buf[k' + 1..];
        forall j | 0 <= j < k' + 1
          ensures pass(buf[j..]).Rejected?
        {
          if j > 0 {
            assert buf[j..] == b[j - 1..];
          }
        }
      }
  }
}
