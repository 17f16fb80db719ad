/** The public interface of the shell (gshell.h): its sizes, the character
    codes and terminal escapes it emits, the command record and the log
    levels. */
module GshellH {
  import opened Wrappers
  import opened CString

  /** The C `uint8_t` that counters, indices and return codes are held in. */
  type uint8 = x: int | 0 <= x < 256

  /** G_RX_BUFSIZE: the receive buffer holds this many characters. */
  const RxBufSize: nat := 120
  /** G_MAX_ARGS: at most this many argument strings reach a handler. */
  const MaxArgs: nat := 16

  const Escape: CText := "\U{1b}["
  const TextNormal: CText := Escape + "0m"
  const TextBold: CText := Escape + "1m"
  const TextBlink: CText := Escape + "5m"
  const ClearLine: CText := Escape + "2K"
  const ColorReset: CText := Escape + "0m"
  const ColorRed: CText := Escape + "31m"
  const ColorGreen: CText := Escape + "32m"
  const ColorYellow: CText := Escape + "33m"
  const CrLf: CText := "\r\n"

  const NewLine: char := '\n'
  const CarRet: char := '\r'
  const Backspace1: char := '\U{8}'
  const Backspace2: char := '\U{7f}'
  const WhiteSpace: char := ' '

  predicate IsBackspace(c: char)
  {
    c == Backspace1 || c == Backspace2
  }

  /** The function a command record points at: the built-in gshell_cmd_help,
      or a handler of the host application, known by a number. */
  datatype Handler = HelpHandler | UserHandler(id: nat)

  /** gshell_cmd_t without its `next` field, which only the registration
      chain uses and which the model keeps beside the records. A None
      handler is a NULL function pointer. */
  datatype Command = Command(name: seq<char>, handler: Option<Handler>, desc: seq<char>)

  /** enum glog_level */
  datatype LogLevel = Normal | Info | Ok | Warn | Error | Fatal

  function LevelCode(level: LogLevel): (code: nat)
    ensures code < 6
  {
    match level
    case Normal => 0
    case Info => 1
    case Ok => 2
    case Warn => 3
    case Error => 4
    case Fatal => 5
  }

  /** The enumerator with a given numeric value; the enum has no other values. */
  function LevelOfCode(code: nat): (r: Option<LogLevel>)
    ensures r.Some? <==> code < 6
    ensures r.Some? ==> LevelCode(r.value) == code
  {
    if code == 0 then Some(Normal)
    else if code == 1 then Some(Info)
    else if code == 2 then Some(Ok)
    else if code == 3 then Some(Warn)
    else if code == 4 then Some(Error)
    else if code == 5 then Some(Fatal)
    else None
  }

  /** Every level has its own code and is found again from it. */
  lemma LevelCodeRoundTrip(level: LogLevel)
    ensures LevelOfCode(LevelCode(level)) == Some(level)
  {
    match level
    case Normal =>
    case Info =>
    case Ok =>
    case Warn =>
    case Error =>
    case Fatal =>
  }
}
