/**
 * The AT commands sent to the sensor. Fixed commands are literal lines;
 * parameterised ones are `AT+KEY=` followed by `%d` of the value and a
 * newline, built only from values the factory asserts to be in range.
 * The factories here are those of the LD6001A variant; the LD6001B variant
 * shares the ones whose text and range agree.
 */
module Commands {
  import opened Bytes
  import opened Wrappers
  import opened Formatting

  /** Names the callback closure handed with a command (the closure itself is not part of this model). */
  type Callback = nat

  /** A command: the text to send and the callback for the sensor's reply, if any. */
  datatype Command = Command(data: seq<byte>, onResponse: Option<Callback>)

  const NEWLINE: byte := 0x0A
  const EQUALS: byte := 0x3D

  /** A parameterised command line: the key prefix, the decimal value, a newline. */
  function KeyCommand(prefix: seq<byte>, v: int): seq<byte>
  {
    prefix + Decimal(v) + [NEWLINE]
  }

  /** Reads the value back out of a line that starts with `prefix` and ends with a newline. */
  function ParseKeyCommand(prefix: seq<byte>, line: seq<byte>): Option<int>
  {
    if |line| > |prefix| && line[..|prefix|] == prefix && line[|line| - 1] == NEWLINE
    then ParseDecimal(line[|prefix|..|line| - 1])
    else None
  }

  lemma KeyCommandRoundTrip(prefix: seq<byte>, v: int)
    ensures ParseKeyCommand(prefix, KeyCommand(prefix, v)) == Some(v)
  {
    var line := KeyCommand(prefix, v);
    assert line[..|prefix|] == prefix;
    assert line[|prefix|..|line| - 1] == Decimal(v);
    DecimalRoundTrip(v);
  }

  /** `line` sets the key `prefix` to `v`: it reads back as `v`, written without leading zeros. */
  predicate CarriesValue(prefix: seq<byte>, line: seq<byte>, v: int)
  {
    ParseKeyCommand(prefix, line) == Some(v) && NoLeadingZero(line[|prefix|..|line| - 1])
  }

  /** A line that carries a value is exactly the `%d` line of that value. */
  lemma CarriesValueIsKeyCommand(prefix: seq<byte>, line: seq<byte>, v: int)
    requires CarriesValue(prefix, line, v)
    ensures line == KeyCommand(prefix, v)
  {
    var s := line[|prefix|..|line| - 1];
    DecimalUnique(s, v);
    assert line == line[..|prefix|] + s + [line[|line| - 1]];
  }

  /** The command to set a key: its line carries the value. */
  function KeyedCommand(prefix: seq<byte>, v: int, cb: Option<Callback>): (c: Command)
    ensures CarriesValue(prefix, c.data, v) && c.onResponse == cb
  {
    KeyCommandRoundTrip(prefix, v);
    DecimalHasNoLeadingZero(v);
    var line := KeyCommand(prefix, v);
    assert line[|prefix|..|line| - 1] == Decimal(v);
    Command(line, cb)
  }

  const AT_PLUS: seq<byte> := [0x41, 0x54, 0x2B]

  /** A fixed command line: "AT+", a word without '=', and a newline. */
  predicate IsBareAtLine(line: seq<byte>)
  {
    && |line| >= 4 && line[..3] == AT_PLUS && line[|line| - 1] == NEWLINE
    && forall i :: 0 <= i < |line| ==> line[i] != EQUALS
  }

  /** The word between "AT+" and the newline. */
  function Word(line: seq<byte>): seq<byte>
    requires |line| >= 4
  {
    line[3..|line| - 1]
  }

  predicate IsPlainWord(word: string)
  {
    |word| >= 1 && forall i :: 0 <= i < |word| ==> word[i] != '=' && word[i] as int < 128
  }

  /** The command "AT+<word>\n": a bare line naming the word. */
  function FixedCommand(word: string, cb: Option<Callback>): (c: Command)
    requires IsPlainWord(word)
    ensures IsBareAtLine(c.data) && Word(c.data) == Ascii(word) && c.onResponse == cb
  {
    var a := Ascii(word);
    PlainWordHasNoEquals(word);
    var line := AT_PLUS + a + [NEWLINE];
    assert line[..3] == AT_PLUS && Word(line) == a;
    assert forall i :: 0 <= i < |line| ==> line[i] != EQUALS by {
      forall i | 0 <= i < |line| ensures line[i] != EQUALS {
        if 3 <= i < 3 + |a| {
          assert line[i] == a[i - 3];
        }
      }
    }
    Command(line, cb)
  }

  lemma PlainWordHasNoEquals(word: string)
    requires IsPlainWord(word)
    ensures forall i :: 0 <= i < |Ascii(word)| ==> Ascii(word)[i] != EQUALS
  {
  }

  /** A fixed line carries no value: it never reads as a keyed command. */
  lemma BareLineCarriesNoValue(line: seq<byte>, prefix: seq<byte>)
    requires IsBareAtLine(line) && |prefix| > 0 && prefix[|prefix| - 1] == EQUALS
    ensures ParseKeyCommand(prefix, line) == None
  {
  }

  function ReadCommand(cb: Option<Callback>): (c: Command)
    ensures IsBareAtLine(c.data) && Word(c.data) == Ascii("READ") && c.onResponse == cb
  {
    FixedCommand("READ", cb)
  }

  function StartCommand(cb: Option<Callback>): (c: Command)
    ensures IsBareAtLine(c.data) && Word(c.data) == Ascii("START") && c.onResponse == cb
  {
    FixedCommand("START", cb)
  }

  function StopCommand(cb: Option<Callback>): (c: Command)
    ensures IsBareAtLine(c.data) && Word(c.data) == Ascii("STOP") && c.onResponse == cb
  {
    FixedCommand("STOP", cb)
  }

  function ResetCommand(cb: Option<Callback>): (c: Command)
    ensures IsBareAtLine(c.data) && Word(c.data) == Ascii("RESET") && c.onResponse == cb
  {
    FixedCommand("RESET", cb)
  }

  function RestoreCommand(cb: Option<Callback>): (c: Command)
    ensures IsBareAtLine(c.data) && Word(c.data) == Ascii("RESTORE") && c.onResponse == cb
  {
    FixedCommand("RESTORE", cb)
  }

  /** Every fixed command is the literal line its word names. */
  lemma FixedCommandText(word: string, cb: Option<Callback>)
    requires IsPlainWord(word)
    ensures FixedCommand(word, cb).data == Ascii("AT+" + word + "\n")
  {
    AsciiAppend("AT+", word);
    AsciiAppend("AT+" + word, "\n");
    assert Ascii("AT+") == AT_PLUS;
  }

  /** The five fixed commands send five different lines. */
  lemma FixedCommandsDistinct(cb: Option<Callback>)
    ensures ReadCommand(cb).data != StartCommand(cb).data && ReadCommand(cb).data != StopCommand(cb).data
    ensures ReadCommand(cb).data != ResetCommand(cb).data && ReadCommand(cb).data != RestoreCommand(cb).data
    ensures StartCommand(cb).data != StopCommand(cb).data && StartCommand(cb).data != ResetCommand(cb).data
    ensures StartCommand(cb).data != RestoreCommand(cb).data && StopCommand(cb).data != ResetCommand(cb).data
    ensures StopCommand(cb).data != RestoreCommand(cb).data && ResetCommand(cb).data != RestoreCommand(cb).data
  {
    hide Ascii;
    assert Word(ReadCommand(cb).data)[0] != Word(StopCommand(cb).data)[0];
    assert Word(StartCommand(cb).data)[0] != Word(ResetCommand(cb).data)[0];
  }

  function RangeCommand(radiusCm: uint16, cb: Option<Callback>): (c: Command)
    requires 100 <= radiusCm <= 500
    ensures CarriesValue(Ascii("AT+RANGE="), c.data, radiusCm) && c.onResponse == cb
  {
    KeyedCommand(Ascii("AT+RANGE="), radiusCm, cb)
  }

  /** The boundary time is sent in tenths of a second. */
  function TargetExitBoundaryTimeCommand(timeMs: uint32, cb: Option<Callback>): (c: Command)
    requires timeMs % 100 == 0 && 200 <= timeMs <= 1000 * 100
    ensures CarriesValue(Ascii("AT+Exit="), c.data, timeMs / 100) && c.onResponse == cb
  {
    KeyedCommand(Ascii("AT+Exit="), timeMs / 100, cb)
  }

  function HeartBeatIntervalCommand(intervalS: uint16, cb: Option<Callback>): (c: Command)
    requires 10 <= intervalS <= 999
    ensures CarriesValue(Ascii("AT+HEATIME="), c.data, intervalS) && c.onResponse == cb
  {
    KeyedCommand(Ascii("AT+HEATIME="), intervalS, cb)
  }

  function InstallationHeightCommand(heightCm: uint16, cb: Option<Callback>): (c: Command)
    requires 50 <= heightCm <= 500
    ensures CarriesValue(Ascii("AT+HEIGHTD="), c.data, heightCm) && c.onResponse == cb
  {
    KeyedCommand(Ascii("AT+HEIGHTD="), heightCm, cb)
  }

  function RangeSensitivityCommand(sensitivity: uint16, cb: Option<Callback>): (c: Command)
    requires 1 <= sensitivity <= 9
    ensures CarriesValue(Ascii("AT+DPKTH="), c.data, sensitivity) && c.onResponse == cb
  {
    KeyedCommand(Ascii("AT+DPKTH="), sensitivity, cb)
  }

  function XMinCommand(xMin: int, cb: Option<Callback>): (c: Command)
    requires -500 <= xMin <= -20
    ensures CarriesValue(Ascii("AT+XNega="), c.data, xMin) && c.onResponse == cb
  {
    KeyedCommand(Ascii("AT+XNega="), xMin, cb)
  }

  function XMaxCommand(xMax: int, cb: Option<Callback>): (c: Command)
    requires 20 <= xMax <= 500
    ensures CarriesValue(Ascii("AT+XPosi="), c.data, xMax) && c.onResponse == cb
  {
    KeyedCommand(Ascii("AT+XPosi="), xMax, cb)
  }

  function YMinCommand(yMin: int, cb: Option<Callback>): (c: Command)
    requires -500 <= yMin <= -20
    ensures CarriesValue(Ascii("AT+YNega="), c.data, yMin) && c.onResponse == cb
  {
    KeyedCommand(Ascii("AT+YNega="), yMin, cb)
  }

  function YMaxCommand(yMax: int, cb: Option<Callback>): (c: Command)
    requires 20 <= yMax <= 500
    ensures CarriesValue(Ascii("AT+YPosi="), c.data, yMax) && c.onResponse == cb
  {
    KeyedCommand(Ascii("AT+YPosi="), yMax, cb)
  }

  /** The LD6001A output modes and their numbers on the wire. */
  datatype ProtocolMode = Simple | OutputString | Debug | Detailed

  function ModeNumber(m: ProtocolMode): (n: nat)
    ensures n <= 3
  {
    match m
    case Simple => 0
    case OutputString => 1
    case Debug => 2
    case Detailed => 3
  }

  /** Distinct modes have distinct numbers, so the line names the mode. */
  lemma ModeNumberInjective(m: ProtocolMode, k: ProtocolMode)
    requires ModeNumber(m) == ModeNumber(k)
    ensures m == k
  {
  }

  function SetProtocolModeCommand(mode: ProtocolMode, cb: Option<Callback>): (c: Command)
    ensures CarriesValue(Ascii("AT+DEBUG="), c.data, ModeNumber(mode)) && c.onResponse == cb
  {
    KeyedCommand(Ascii("AT+DEBUG="), ModeNumber(mode), cb)
  }

  function SetMovingTargetDisappearanceTimeCommand(timeMs: uint32, cb: Option<Callback>): (c: Command)
    requires timeMs % 100 == 0 && 500 <= timeMs <= 1000 * 100
    ensures CarriesValue(Ascii("AT+Moving="), c.data, timeMs / 100) && c.onResponse == cb
  {
    KeyedCommand(Ascii("AT+Moving="), timeMs / 100, cb)
  }

  function SetStaticTargetDisappearanceTimeCommand(timeMs: uint32, cb: Option<Callback>): (c: Command)
    requires timeMs % 100 == 0 && 500 <= timeMs <= 1000 * 100
    ensures CarriesValue(Ascii("AT+Static="), c.data, timeMs / 100) && c.onResponse == cb
  {
    KeyedCommand(Ascii("AT+Static="), timeMs / 100, cb)
  }
}
