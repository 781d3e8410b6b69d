/** LOG_ID_Handle of logging.cpp: how a log call's category and level are
    normalised, how the formatted message is bounded by its 128-byte stack
    buffer, and how the line sent to the serial console is assembled. */
module Logging {
  import opened Platform
  import opened CStrings

  /** Debug levels, from panic to the most verbose debug output. */
  const DBG_P: UInt8 := 0
  const DBG_A: UInt8 := 1
  const DBG_C: UInt8 := 2
  const DBG_E: UInt8 := 3
  const DBG_W: UInt8 := 4
  const DBG_N: UInt8 := 5
  const DBG_I: UInt8 := 6
  const DBG_1: UInt8 := 7
  const DBG_2: UInt8 := 8
  const DBG_3: UInt8 := 9

  /** Log categories. */
  const LOG_ID_INVALID: UInt32 := 0
  const LOG_ID_DEFAULT: UInt32 := 1
  const NUM_LOG_IDS: UInt32 := 2

  /** Size of the stack buffer the message is printed into, terminator included. */
  const MAX_LOG_MESSAGE_LENGTH: nat := 128

  const NUL: char := '\0'

  /** The line prefix of each level, indexed by level (DBG_3 + 1 entries).
      As written, alert (1) prints 'C' and critical (2) prints 'A'. */
  const LogLevelCharacters: seq<char> := ['P', 'C', 'A', 'E', 'W', 'N', 'I', '1', '2', '3']

  /** A category outside [0, NUM_LOG_IDS) is logged as LOG_ID_INVALID. */
  function NormaliseLogId(logId: UInt32): (id: UInt32)
    ensures id < NUM_LOG_IDS
    ensures logId < NUM_LOG_IDS ==> id == logId
    ensures logId >= NUM_LOG_IDS ==> id == LOG_ID_INVALID
  {
    if logId >= NUM_LOG_IDS then LOG_ID_INVALID else logId
  }

  /** A level above DBG_3 is logged as DBG_3, which keeps the lookup into
      LogLevelCharacters in bounds. */
  function NormaliseLogLevel(logLevel: UInt8): (level: UInt8)
    ensures level <= DBG_3 && level < |LogLevelCharacters|
    ensures logLevel <= DBG_3 ==> level == logLevel
    ensures logLevel > DBG_3 ==> level == DBG_3
  {
    if logLevel > DBG_3 then DBG_3 else logLevel
  }

  /** The prefix character a call at `logLevel` prints. */
  function LevelCharacter(logLevel: UInt8): (c: char)
    ensures c in LogLevelCharacters
    ensures logLevel <= DBG_3 ==> c == LogLevelCharacters[logLevel]
    ensures logLevel > DBG_3 ==> c == '3'
  {
    LogLevelCharacters[NormaliseLogLevel(logLevel)]
  }

  /** The prefix of every level, and of every out-of-range level. */
  lemma LevelCharacterTable()
    ensures LevelCharacter(DBG_P) == 'P' && LevelCharacter(DBG_A) == 'C'
    ensures LevelCharacter(DBG_C) == 'A' && LevelCharacter(DBG_E) == 'E'
    ensures LevelCharacter(DBG_W) == 'W' && LevelCharacter(DBG_N) == 'N'
    ensures LevelCharacter(DBG_I) == 'I' && LevelCharacter(DBG_1) == '1'
    ensures LevelCharacter(DBG_2) == '2' && LevelCharacter(DBG_3) == '3'
    ensures forall logLevel: UInt8 | logLevel > DBG_3 :: LevelCharacter(logLevel) == '3'
  {
  }

  /** `String(id)` for a normalised category: its decimal digit. */
  function DecimalDigit(d: nat): (c: char)
    requires d < 10
    ensures '0' <= c <= '9' && c as int - '0' as int == d
  {
    ('0' as int + d) as char
  }

  /** The message LOG_ID_Handle prints for a formatted `text`: what is left in
      the 128-byte buffer after vsnprintf, read up to its terminator. It is a
      prefix of the text of at most 127 characters that stops early only at
      a NUL the text itself holds. */
  function Message(text: string): (m: string)
    ensures |m| < MAX_LOG_MESSAGE_LENGTH && |m| <= |text| && m == text[..|m|]
    ensures NUL !in m
    ensures |m| < |text| && |m| < MAX_LOG_MESSAGE_LENGTH - 1 ==> text[|m|] == NUL
    ensures NUL !in text ==>
      |m| == if |text| < MAX_LOG_MESSAGE_LENGTH - 1 then |text| else MAX_LOG_MESSAGE_LENGTH - 1
  {
    var n := if |text| < MAX_LOG_MESSAGE_LENGTH - 1 then |text| else MAX_LOG_MESSAGE_LENGTH - 1;
    UpToNul(text[..n], NUL)
  }

  /** The console line: level character, ",", category, ",", "[", the
      timestamp, "]: ", then the message, in that order. */
  function LogLine(level: char, id: UInt32, timestamp: string, message: string): (line: string)
    requires id < NUM_LOG_IDS
    ensures |line| == 8 + |timestamp| + |message|
    ensures line[0] == level && line[1] == ',' && line[2] == DecimalDigit(id)
    ensures line[3] == ',' && line[4] == '['
    ensures line[5 .. 5 + |timestamp|] == timestamp
    ensures line[5 + |timestamp| .. 8 + |timestamp|] == "]: "
    ensures line[8 + |timestamp| ..] == message
  {
    [level, ',', DecimalDigit(id), ',', '['] + timestamp + "]: " + message
  }

  /** vsnprintf(buf, buf.Length, format, args), given the `text` the format
      and its arguments print: as much of the text as leaves room for a
      terminator, then the terminator; the rest of the buffer is untouched. */
  method VsnPrintf(buf: array<char>, text: string)
    requires buf.Length > 0
    modifies buf
    ensures var n := if |text| < buf.Length - 1 then |text| else buf.Length - 1;
      && buf[..n] == text[..n] && buf[n] == NUL
      && buf[n + 1..] == old(buf[n + 1..])
  {
    var n := if |text| < buf.Length - 1 then |text| else buf.Length - 1;
    forall i | 0 <= i < n {
      buf[i] := text[i];
    }
    buf[n] := NUL;
  }

  /** After vsnprintf, the buffer holds the message and a terminator, and
      reading it stops there, whatever the rest of the buffer holds. */
  lemma BufferHoldsMessage(buf: seq<char>, text: string)
    requires |buf| == MAX_LOG_MESSAGE_LENGTH
    requires var n := if |text| < MAX_LOG_MESSAGE_LENGTH - 1 then |text| else MAX_LOG_MESSAGE_LENGTH - 1;
      buf[..n] == text[..n] && buf[n] == NUL
    ensures UpToNul(buf, NUL) == Message(text)
  {
  }

  /** LOG_ID_Handle: normalises the category, the level and a NULL format,
      prints the message into a 128-byte stack buffer whose last byte is
      forced to NUL, and returns the line it sends to the console.
      `render` stands for vsnprintf applied to the call's arguments,
      `timestamp` for the rendering of micros()/1000, and `stack` for the
      buffer's uninitialised contents. */
  method LogIdHandle(logId: UInt32, logLevel: UInt8, formatString: Option<string>,
                     render: string -> string, timestamp: string, stack: seq<char>)
      returns (printString: string)
    requires render("") == ""
    requires |stack| == MAX_LOG_MESSAGE_LENGTH
    ensures printString == LogLine(LevelCharacter(logLevel), NormaliseLogId(logId), timestamp,
      Message(render(if formatString.Some? then formatString.value else "")))
    ensures formatString.None? ==>
      printString == LogLine(LevelCharacter(logLevel), NormaliseLogId(logId), timestamp, "")
  {
    var id, level, format := logId, logLevel, formatString;
    if id >= NUM_LOG_IDS {
      id := LOG_ID_INVALID;
    }
    if level > DBG_3 {
      level := DBG_3;
    }
    if format.None? {
      format := Some("");
    }

    var pLogString := new char[MAX_LOG_MESSAGE_LENGTH](i requires 0 <= i < MAX_LOG_MESSAGE_LENGTH => stack[i]);
    pLogString[MAX_LOG_MESSAGE_LENGTH - 1] := NUL;
    var text := render(format.value);
    VsnPrintf(pLogString, text);
    // The last byte is already NUL (the preset one, or vsnprintf's own
    // terminator), so the source's overflow patch that writes NUL at index
    // 127 when it is not changes nothing.
    assert pLogString[MAX_LOG_MESSAGE_LENGTH - 1] == NUL;

    var message := UpToNul(pLogString[..], NUL);
    BufferHoldsMessage(pLogString[..], text);

    printString := "";
    printString := printString + [LogLevelCharacters[level]] + ",";
    assert printString == [LevelCharacter(logLevel), ','];
    printString := printString + [DecimalDigit(id)] + ",";
    assert printString == [LevelCharacter(logLevel), ',', DecimalDigit(NormaliseLogId(logId)), ','];
    printString := printString + "[" + timestamp + "]: ";
    assert printString == [LevelCharacter(logLevel), ',', DecimalDigit(NormaliseLogId(logId)), ',', '['] + timestamp + "]: ";
    printString := printString + message;
  }
}
