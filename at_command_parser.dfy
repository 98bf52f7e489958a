/** The AT command interpreter of at_command_parser.c: a chain of prefix
    tests, tried in a fixed order, that picks the command and copies its
    parameter into a zeroed buffer of bounded size, followed by the command's
    effect on the configuration store and the reply lines it prints. */
module AtCommands {
  import opened Platform
  import FlashManager

  /** `DEVICE_NAME_MAX_LEN`, `CRYPT_KEY_LEN`, `PARAM_LENGTH`. */
  const NameBufferSize: nat := 20
  const KeyBufferSize: nat := 32
  const ParamSize: nat := 10

  /** A recognised command; a parameterised one carries the text after its
      prefix (`cmd + n`), from which its branch fills its buffer. */
  datatype Command =
    | SetName(arg: seq<Byte>)
    | GetName
    | SetCryptKey(arg: seq<Byte>)
    | Reset
    | GetVersion
    | SetAdInterval(arg: seq<Byte>)
    | GetAdInterval
    | Disconnect(arg: seq<Byte>)
    | Save(arg: seq<Byte>)
    | Stop(arg: seq<Byte>)
    | GetUart
    | SetUart(arg: seq<Byte>)
    | Default
    | DataMode
    | Unknown

  // The command prefixes.
  const NameSet: string := "AT+NAME="
  const NameGet: string := "AT+NAME?"
  const CryptKeySet: string := "AT+CRYPTKEY="
  const ResetCmd: string := "AT+RESET"
  const VersionGet: string := "AT+VERSION?"
  const AdIntervalSet: string := "AT+ADINTERVAL="
  const AdIntervalGet: string := "AT+ADINTERVAL?"
  const DisconSet: string := "AT+DISCON="
  const SaveSet: string := "AT+SAVE="
  const StopSet: string := "AT+STOP="
  const UartGet: string := "AT+UART?"
  const UartSet: string := "AT+UART="
  const DefaultCmd: string := "AT+DEFAULT"
  const DataModeSet: string := "AT+DATAMODE="

  /** The command prefixes, in the order the chain tests them. */
  const Prefixes: seq<string> := [
    NameSet, NameGet, CryptKeySet, ResetCmd, VersionGet,
    AdIntervalSet, AdIntervalGet, DisconSet, SaveSet, StopSet,
    UartGet, UartSet, DefaultCmd, DataModeSet]

  /** `strncmp(s, p, |p|) == 0`: s begins with the characters of p. */
  predicate Starts(s: seq<Byte>, p: string)
    ensures Starts(s, p) ==> |p| <= |s|
  {
    |p| <= |s| && (p == [] || (s[0] == p[0] as int && Starts(s[1..], p[1..])))
  }

  /** `char buf[size] = {0}; strncpy(buf, arg, size - 1);` */
  function Param(arg: seq<Byte>, size: nat): (buf: seq<Byte>)
    requires size >= 1
    ensures |buf| == size && buf[size - 1] == 0
    ensures CStr(buf) == CStr(arg)[..Min(|CStr(arg)|, size - 1)]
    ensures buf == CStr(arg)[..Min(|CStr(arg)|, size - 1)] + Zeros(size - Min(|CStr(arg)|, size - 1))
  {
    BoundedCopy(arg, size)
  }

  /** `at_command_parse` on the string cmd: the first prefix the string
      starts with selects the command; no match is Unknown. */
  function Parse(cmd: seq<Byte>): (c: Command)
    ensures Rank(c) < |Prefixes| ==> Starts(CStr(cmd), Prefixes[Rank(c)])
    ensures TakesArgument(c) ==> c.arg == CStr(cmd)[|Prefixes[Rank(c)]|..]
  {
    var s := CStr(cmd);
    if Starts(s, NameSet) then SetName(s[8..])
    else if Starts(s, NameGet) then GetName
    else if Starts(s, CryptKeySet) then SetCryptKey(s[12..])
    else if Starts(s, ResetCmd) then Reset
    else if Starts(s, VersionGet) then GetVersion
    else if Starts(s, AdIntervalSet) then SetAdInterval(s[14..])
    else if Starts(s, AdIntervalGet) then GetAdInterval
    else if Starts(s, DisconSet) then Disconnect(s[10..])
    else if Starts(s, SaveSet) then Save(s[8..])
    else if Starts(s, StopSet) then Stop(s[8..])
    else if Starts(s, UartGet) then GetUart
    else if Starts(s, UartSet) then SetUart(s[8..])
    else if Starts(s, DefaultCmd) then Default
    else if Starts(s, DataModeSet) then DataMode
    else Unknown
  }

  /** The position in Prefixes of the test that selects c (14 for Unknown). */
  function Rank(c: Command): nat
  {
    match c
    case SetName(_) => 0
    case GetName => 1
    case SetCryptKey(_) => 2
    case Reset => 3
    case GetVersion => 4
    case SetAdInterval(_) => 5
    case GetAdInterval => 6
    case Disconnect(_) => 7
    case Save(_) => 8
    case Stop(_) => 9
    case GetUart => 10
    case SetUart(_) => 11
    case Default => 12
    case DataMode => 13
    case Unknown => 14
  }

  /** The commands whose branch copies the text after the prefix. */
  predicate TakesArgument(c: Command)
  {
    c.SetName? || c.SetCryptKey? || c.SetAdInterval? || c.Disconnect? || c.Save? || c.Stop? || c.SetUart?
  }

  /** The first position from k on whose prefix s starts with, or |Prefixes|. */
  function FirstMatch(s: seq<Byte>, k: nat): (i: nat)
    requires k <= |Prefixes|
    ensures k <= i <= |Prefixes|
    ensures i < |Prefixes| ==> Starts(s, Prefixes[i])
    ensures forall j :: k <= j < i ==> !Starts(s, Prefixes[j])
    decreases |Prefixes| - k
  {
    if k == |Prefixes| then k
    else if Starts(s, Prefixes[k]) then k
    else FirstMatch(s, k + 1)
  }

  lemma FirstMatchStep(s: seq<Byte>, k: nat)
    requires k < |Prefixes|
    ensures Starts(s, Prefixes[k]) ==> FirstMatch(s, k) == k
    ensures !Starts(s, Prefixes[k]) ==> FirstMatch(s, k) == FirstMatch(s, k + 1)
  {
  }

  /** Each test of the chain that fails hands on to the next: the command
      chosen is the one at the first position whose prefix matches. */
  lemma ParseRank(cmd: seq<Byte>)
    ensures Rank(Parse(cmd)) == FirstMatch(CStr(cmd), 0)
  {
    var s := CStr(cmd);
    FirstMatchStep(s, 0); FirstMatchStep(s, 1); FirstMatchStep(s, 2); FirstMatchStep(s, 3);
    FirstMatchStep(s, 4); FirstMatchStep(s, 5); FirstMatchStep(s, 6); FirstMatchStep(s, 7);
    FirstMatchStep(s, 8); FirstMatchStep(s, 9); FirstMatchStep(s, 10); FirstMatchStep(s, 11);
    FirstMatchStep(s, 12); FirstMatchStep(s, 13);
  }

  /** The chain picks the first prefix, in the listed order, that the string
      starts with: its command's prefix matches, no earlier one does, and
      Unknown exactly when none matches. */
  lemma ParseIsFirstMatch(cmd: seq<Byte>)
    ensures Rank(Parse(cmd)) < |Prefixes| ==> Starts(CStr(cmd), Prefixes[Rank(Parse(cmd))])
    ensures forall j :: 0 <= j < Rank(Parse(cmd)) ==> !Starts(CStr(cmd), Prefixes[j])
    ensures Parse(cmd).Unknown? <==> forall j :: 0 <= j < |Prefixes| ==> !Starts(CStr(cmd), Prefixes[j])
  {
    ParseRank(cmd);
  }

  /** `AT+NAME=` hands the name setter the first 19 characters (at most) of
      the text after its prefix. */
  lemma NameArgument(cmd: seq<Byte>)
    requires Starts(CStr(cmd), NameSet)
    ensures Parse(cmd).SetName? && |CStr(cmd)| >= 8
    ensures CStr(Param(Parse(cmd).arg, NameBufferSize)) == CStr(cmd)[8..Min(|CStr(cmd)|, 8 + NameBufferSize - 1)]
  {
    var s := CStr(cmd);
    CStrOfUnterminated(s[8..]);
    assert s[8..][..Min(|s[8..]|, NameBufferSize - 1)] == s[8..Min(|s|, 8 + NameBufferSize - 1)];
  }

  /** What one call prints and how it ends: `rc` is the returned code (None
      for the bare `return;` that leaves it undefined), `reset` tells that it
      ended in `NVIC_SystemReset`. */
  datatype Response = Response(rc: Option<RetCode>, replies: seq<string>, reset: bool)

  const Ok: string := "OK\r\n"
  const Error: string := "ERROR\r\n"
  const AdIntervalReply: string := "AT+ADINTERVAL:0040\r\n"

  /** The reply to `AT+UART?`: its format string prints the two `int`
      arguments with `%s`, so its text is undefined. */
  const UartReply: string := "AT+UART:?\r\n"

  /** "1" as the parameter buffer holds it. */
  predicate IsOne(param: seq<Byte>)
  {
    CStr(param) == [49]
  }

  /** Carries out `at_command_parse(cmd)` on the configuration store m.
      `version` is `FW_VERSION`; `gapName` is what
      `sd_ble_gap_device_name_get` yields; `updateRc` is what the flash update
      of `AT+SAVE=1` returns. */
  method Execute(m: FlashManager.Manager, cmd: seq<Byte>, version: string,
                 gapName: Result<seq<Byte>>, updateRc: RetCode) returns (r: Response)
    requires m.Valid()
    modifies m
    ensures m.Valid()
    ensures match Parse(cmd)
      case SetName(arg) =>
        && m.config == FlashManager.WithName(old(m.config), Param(arg, NameBufferSize))
        && m.records == old(m.records)
        && m.DeviceName() == CStr(Param(arg, NameBufferSize))
        && r == Response(Some(Success), [Ok], false)
      case SetCryptKey(arg) =>
        && m.config == FlashManager.WithKey(old(m.config), Param(arg, KeyBufferSize))
        && m.records == old(m.records)
        && m.EncryptionKey() == Param(arg, KeyBufferSize) && m.EncryptionKey()[KeyBufferSize - 1] == 0
        && r == Response(Some(Success), [Ok], false)
      case Save(arg) =>
        var param := Param(arg, ParamSize);
        && m.config == old(m.config)
        && (!IsOne(param) ==> m.records == old(m.records) && r == Response(Some(Success), [Ok], false))
        && (IsOne(param) && FlashManager.StoredConfig(old(m.records)).None? ==>
              m.records == old(m.records) && r == Response(None, [Error], false))
        && (IsOne(param) && FlashManager.StoredConfig(old(m.records)).Some? && updateRc != Success ==>
              m.records == old(m.records) && r == Response(None, [Error], false))
        && (IsOne(param) && FlashManager.StoredConfig(old(m.records)).Some? && updateRc == Success ==>
              && m.records == FlashManager.Replaced(old(m.records),
                   FlashManager.FindRecord(old(m.records), FlashManager.ConfigId).value,
                   FlashManager.Record(FlashManager.ConfigId, old(m.config)))
              && r == Response(None, [Ok], true))
      case GetName =>
        && m.config == old(m.config) && m.records == old(m.records)
        && r == (if gapName.Ok? then Response(Some(Success), ["+NAME: " + Chars(CStr(gapName.value)) + "\r\n", Ok], false)
                 else Response(Some(Success), [Error], false))
      case Reset =>
        m.config == old(m.config) && m.records == old(m.records) && r == Response(None, [Ok], true)
      case GetVersion =>
        && m.config == old(m.config) && m.records == old(m.records)
        && r == Response(Some(Success), ["+VERSION: " + version + "\r\n", Ok], false)
      case GetAdInterval =>
        && m.config == old(m.config) && m.records == old(m.records)
        && r == Response(Some(Success), [AdIntervalReply, Ok], false)
      case GetUart =>
        && m.config == old(m.config) && m.records == old(m.records)
        && r == Response(Some(Success), [UartReply, Ok], false)
      case Unknown =>
        m.config == old(m.config) && m.records == old(m.records) && r == Response(Some(Success), [Error], false)
      case _ =>
        m.config == old(m.config) && m.records == old(m.records) && r == Response(Some(Success), [Ok], false)
  {
    var c := Parse(cmd);
    match c {
      case SetName(arg) =>
        var name := Param(arg, NameBufferSize);
        var _ := m.SetDeviceName(name);
        r := Response(Some(Success), [Ok], false);
      case GetName =>
        if gapName.Ok? {
          r := Response(Some(Success), ["+NAME: " + Chars(CStr(gapName.value)) + "\r\n", Ok], false);
        } else {
          r := Response(Some(Success), [Error], false);
        }
      case SetCryptKey(arg) =>
        var key := Param(arg, KeyBufferSize);
        var _ := m.SetEncryptionKey(key, KeyBufferSize);
        assert key[..KeyBufferSize] == key;
        r := Response(Some(Success), [Ok], false);
      case Reset =>
        r := Response(None, [Ok], true);
      case GetVersion =>
        r := Response(Some(Success), ["+VERSION: " + version + "\r\n", Ok], false);
      case GetAdInterval =>
        r := Response(Some(Success), [AdIntervalReply, Ok], false);
      case Save(arg) =>
        var param := Param(arg, ParamSize);
        if IsOne(param) {
          var rc := m.Save(updateRc);
          if rc != Success {
            r := Response(None, [Error], false);
          } else {
            r := Response(None, [Ok], true);
          }
        } else {
          r := Response(Some(Success), [Ok], false);
        }
      case GetUart =>
        r := Response(Some(Success), [UartReply, Ok], false);
      case Unknown =>
        r := Response(Some(Success), [Error], false);
      case _ =>
        r := Response(Some(Success), [Ok], false);
    }
  }
}
