/** The shell engine of gshell.c: the single global record g_shell and the
    operations that change it. The transport is the field `out`, to which
    put_char appends; handlers of the host application are recorded in
    `calls` rather than run, and the built-in help handler is modelled. */
module Gshell {
  import opened Wrappers
  import opened CString
  import opened GshellH
  import opened Tokenizer
  import opened Registry
  import Terminal

  const UnknownCmd: CText := "Unknown command: "
  const HelpHintLine: CText := "Type 'help' to list all available commands"
  const HelpHint: CText := CrLf + HelpHintLine + CrLf
  const HelpDesc: CText := "Lists all available commands"
  /** The visible part of the prompt. */
  const PromptText: CText := "gshell> "
  /** G_PROMT: a fresh line, then the prompt in bold. */
  const Prompt: CText := CrLf + TextBold + PromptText + TextNormal
  /** The record cmd_help, registered by gshell_init. */
  const HelpCommand: Command := Command("help", Some(HelpHandler), HelpDesc)

  /** What _gshell_echo sends for an accepted character. */
  function EchoText(c: char): seq<char>
  {
    if c == NewLine then [CarRet, NewLine]
    else if IsBackspace(c) then [Backspace1, WhiteSpace, Backspace1]
    else [c]
  }

  /** console_levels: the prefix of a log line at each level. */
  function LevelTag(level: LogLevel): CText
  {
    match level
    case Normal => "[      ] "
    case Info => "[" + TextBold + " INFO " + TextNormal + "] "
    case Ok => "[" + TextBold + ColorGreen + "  OK  " + ColorReset + TextNormal + "] "
    case Warn => "[" + TextBold + ColorYellow + " WARN " + ColorReset + TextNormal + "] "
    case Error => "[" + TextBold + ColorRed + "ERROR" + ColorReset + TextNormal + "] "
    case Fatal => "[" + TextBold + TextBlink + ColorRed + "PANIC!" + ColorReset + TextNormal + "] "
  }

  /** Each log level has a prefix of its own: the tags differ in length,
      except those of Ok and Warn, which differ in their colour code. */
  lemma LevelTagsDistinct(a: LogLevel, b: LogLevel)
    requires a != b
    ensures LevelTag(a) != LevelTag(b)
  {
    assert |LevelTag(Normal)| == 9 && |LevelTag(Info)| == 17 && |LevelTag(Error)| == 25 && |LevelTag(Fatal)| == 30;
    assert |LevelTag(Ok)| == 26 && |LevelTag(Warn)| == 26;
    assert LevelTag(Ok)[8] == '2' && LevelTag(Warn)[8] == '3';
  }

  /** Every argument of a completed line is shorter than the receive
      buffer, so the strncmp of _gshellFindCmd, limited to G_RX_BUFSIZE,
      compares whole names: an argument matches a command exactly when it
      is the command's name. */
  lemma ArgsMatchExactly(line: seq<char>, cmd: Command)
    requires |line| <= RxBufSize && line != [] && line[|line| - 1] == NewLine
    ensures forall a :: a in Take(Tokens(line), MaxArgs) ==> (Matches(a, cmd) <==> UpToNul(cmd.name) == a)
  {
    TokensShorter(line);
    TokensAreWords(line);
    forall a | a in Take(Tokens(line), MaxArgs)
      ensures Matches(a, cmd) <==> UpToNul(cmd.name) == a
    {
      var i :| 0 <= i < |Tokens(line)| && Tokens(line)[i] == a;
      assert IsWord(a);
      StrnEqualShort(a, cmd.name, RxBufSize);
    }
  }

  /** What gshell_log_flash sends first: with the prompt on, the line is
      erased and the cursor returned to its start. */
  function Erase(prompt: bool): seq<char>
  {
    if prompt then ClearLine + [CarRet] else []
  }

  /** The timestamp text, sent only when a timestamp source was given. */
  function Stamp(clock: bool, stamp: seq<char>): seq<char>
  {
    if clock then UpToNul(stamp) else []
  }

  /** What gshell_log_flash sends last: with the prompt on, the prompt and
      the unsubmitted input `typed`; otherwise a line end. */
  function Restore(prompt: bool, typed: seq<char>): seq<char>
  {
    if prompt then Prompt + typed else CrLf
  }

  /** What gshell_log_flash sends while the shell is active: the erased
      line, the tag, the optional timestamp text, the message, then the
      restored prompt and input or a line end. */
  function LogText(prompt: bool, level: LogLevel, clock: bool, stamp: seq<char>, msg: seq<char>, typed: seq<char>): seq<char>
  {
    Erase(prompt) + LevelTag(level) + Stamp(clock, stamp) + UpToNul(msg) + Restore(prompt, typed)
  }

  /** The two strings of a command record that the help listing measures. */
  datatype Field = Name | Desc

  /** strnlen(cmdName, G_RX_BUFSIZE) or strnlen(desc, G_RX_BUFSIZE) */
  function FieldLen(cmd: Command, f: Field): nat
  {
    StrnLen(if f == Name then cmd.name else cmd.desc, RxBufSize)
  }

  /** The largest FieldLen among the first n of `cmds`, or 0 for none: what
      the first two loops of gshell_cmd_help keep in longestCommand and
      longestDescription after n commands. */
  function Longest(cmds: seq<Command>, n: nat, f: Field): nat
    requires n <= |cmds|
  {
    if n == 0 then 0
    else
      var m0 := Longest(cmds, n - 1, f);
      var x := FieldLen(cmds[n - 1], f);
      if x > m0 then x else m0
  }

  /** Longest is the maximum: none of the first n commands is longer, and it
      is attained unless it is 0. */
  lemma {:induction false} LongestIsMax(cmds: seq<Command>, n: nat, f: Field)
    requires n <= |cmds|
    ensures forall i :: 0 <= i < n ==> FieldLen(cmds[i], f) <= Longest(cmds, n, f)
    ensures Longest(cmds, n, f) == 0 || exists i :: 0 <= i < n && Longest(cmds, n, f) == FieldLen(cmds[i], f)
  {
    if n > 0 {
      LongestIsMax(cmds, n - 1, f);
    }
  }

  /** The pieces gshell_cmd_help prints around a command's name. */
  const NameOpen: CText := [CarRet] + TextBold
  const NameClose: CText := TextNormal + ":" + CrLf
  const DescIndent: CText := "     "
  const NameCloseIndent: CText := NameClose + DescIndent

  /** The lines the help command prints for one command: name and
      description on two lines when the widest name and description
      together do not fit the receive buffer's width, otherwise the
      description indented past the widest name, then a carriage return and
      the name in bold over the indentation. */
  function EntryText(cmd: Command, lc: nat, ld: nat): seq<char>
  {
    if 2 + ld + lc >= RxBufSize then
      Concat([NameOpen, UpToNul(cmd.name), NameCloseIndent, UpToNul(cmd.desc), CrLf])
    else
      Concat([Terminal.Spaces(lc + 2), UpToNul(cmd.desc), NameOpen, UpToNul(cmd.name), NameClose])
  }

  /** The carriage return and the bold attribute bring the cursor back to
      the start of the line. */
  lemma ReturnBold(text: seq<char>, k: nat)
    ensures Terminal.Feed(Terminal.Screen(text, k, Terminal.Ground), NameOpen) == Terminal.Screen(text, 0, Terminal.Ground)
  {
    var t0 := Terminal.Screen(text, k, Terminal.Ground);
    var t1 := Terminal.Screen(text, 0, Terminal.Ground);
    assert Terminal.Feed(t0, [CarRet]) == t1 by {
      assert [CarRet][1..] == [];
    }
    assert TextBold == [Terminal.Esc, '['] + "1" + ['m'];
    Terminal.SelectGraphic(t1, "1");
    Terminal.FeedAppend(t0, [CarRet], TextBold);
  }

  /** The normal attribute and the colon put a colon over the first
      character after the name. */
  lemma NormalColon(name: seq<char>, rest: seq<char>)
    requires rest != []
    ensures Terminal.Feed(Terminal.Screen(name + rest, |name|, Terminal.Ground), TextNormal + ":")
      == Terminal.Screen(name + ":" + rest[1..], |name| + 1, Terminal.Ground)
  {
    var text := name + rest;
    var t0 := Terminal.Screen(text, |name|, Terminal.Ground);
    NormalIsGraphic();
    Terminal.SelectGraphic(t0, "0");
    Terminal.Overtype(text, |name|, ":");
    Terminal.FeedAppend(t0, TextNormal, ":");
    SplitAt(name, rest, ":");
  }

  /** Writing one character over the start of `rest`, behind `name`. */
  lemma SplitAt(name: seq<char>, rest: seq<char>, c: seq<char>)
    requires |c| == 1 && rest != []
    ensures (name + rest)[..|name|] + c + (name + rest)[|name| + 1..] == name + c + rest[1..]
  {
    assert (name + rest)[..|name|] == name;
    assert (name + rest)[|name| + 1..] == rest[1..];
  }

  /** Writing `name` over the start of `pad`. */
  lemma OverStart(pad: seq<char>, name: seq<char>)
    requires |name| <= |pad|
    ensures pad[..0] + name + pad[|name|..] == name + pad[|name|..]
  {
    assert pad[..0] == [];
  }

  /** On a line that reads `pad` with the cursor at its end, the carriage
      return, the bold name, the normal attribute and the colon write the
      name and the colon over the start of `pad`. */
  lemma NameOverPad(pad: seq<char>, name: seq<char>)
    requires |name| + 1 <= |pad| && Terminal.AllPrintable(name)
    ensures Terminal.Feed(Terminal.Screen(pad, |pad|, Terminal.Ground), NameOpen + name + (TextNormal + ":"))
      == Terminal.Screen(name + ":" + pad[|name| + 1..], |name| + 1, Terminal.Ground)
  {
    var rest := pad[|name|..];
    var t0 := Terminal.Screen(pad, |pad|, Terminal.Ground);
    var t1 := Terminal.Screen(pad, 0, Terminal.Ground);
    var t2 := Terminal.Screen(name + rest, |name|, Terminal.Ground);
    var t3 := Terminal.Screen(name + ":" + pad[|name| + 1..], |name| + 1, Terminal.Ground);
    ReturnBold(pad, |pad|);
    NameOverStart(pad, name);
    NormalColon(name, rest);
    assert rest[1..] == pad[|name| + 1..];
    Terminal.FeedThrough(t0, NameOpen, t1, name, t2);
    Terminal.FeedThrough(t0, NameOpen + name, t2, TextNormal + ":", t3);
  }

  /** The name typed from the start of a line that reads `pad`. */
  lemma NameOverStart(pad: seq<char>, name: seq<char>)
    requires |name| <= |pad| && Terminal.AllPrintable(name)
    ensures Terminal.Feed(Terminal.Screen(pad, 0, Terminal.Ground), name)
      == Terminal.Screen(name + pad[|name|..], |name|, Terminal.Ground)
  {
    Terminal.Overtype(pad, 0, name);
    OverStart(pad, name);
  }

  /** Blanks followed by a text, from position k on. */
  lemma PadTail(n: nat, k: nat, desc: seq<char>)
    requires k <= n
    ensures (Terminal.Spaces(n) + desc)[k..] == Terminal.Spaces(n - k) + desc
  {
    var x, y := (Terminal.Spaces(n) + desc)[k..], Terminal.Spaces(n - k) + desc;
    assert |x| == |y|;
    forall i | 0 <= i < |x|
      ensures x[i] == y[i]
    {
      if i < n - k {
        assert x[i] == Terminal.Spaces(n)[k + i];
      } else {
        assert x[i] == desc[i - (n - k)];
      }
    }
  }

  lemma Regroup(a: seq<char>, b: seq<char>, c: seq<char>, d: seq<char>, e: seq<char>, f: seq<char>, g: seq<char>)
    ensures a + b + c + d + (e + f + g) == (a + b) + (c + d + (e + f)) + g
  {
  }

  /** A padded line, once the name is written over its start, reads the
      name, a colon, blanks, and the text from column n on. */
  lemma PaddedLine(name: seq<char>, desc: seq<char>, n: nat)
    requires |name| + 2 <= n
    requires Terminal.AllPrintable(name) && Terminal.AllPrintable(desc)
    ensures Terminal.Feed(Terminal.Screen([], 0, Terminal.Ground), Terminal.Spaces(n) + desc + (NameOpen + name + (TextNormal + ":")))
      == Terminal.Screen(name + ":" + Terminal.Spaces(n - 1 - |name|) + desc, |name| + 1, Terminal.Ground)
  {
    var pad := Terminal.Spaces(n) + desc;
    PadPrintable(n, desc);
    Terminal.TypeAtEnd([], pad);
    assert [] + pad == pad;
    Terminal.FeedAppend(Terminal.Screen([], 0, Terminal.Ground), pad, NameOpen + name + (TextNormal + ":"));
    NameOverPad(pad, name);
    PadTail(n, |name| + 1, desc);
  }

  /** In the single-line layout the entry is the padded line and its line end. */
  lemma SingleLineEntry(cmd: Command, lc: nat, ld: nat)
    requires 2 + ld + lc < RxBufSize
    ensures EntryText(cmd, lc, ld)
      == Terminal.Spaces(lc + 2) + UpToNul(cmd.desc) + (NameOpen + UpToNul(cmd.name) + (TextNormal + ":")) + CrLf
  {
    var name, desc := UpToNul(cmd.name), UpToNul(cmd.desc);
    Concat5(Terminal.Spaces(lc + 2), desc, NameOpen, name, NameClose);
    assert NameClose == TextNormal + ":" + CrLf;
    Regroup(Terminal.Spaces(lc + 2), desc, NameOpen, name, TextNormal, ":", CrLf);
  }

  /** A name no longer than lc when lc leaves room for the single-line layout. */
  lemma NameFits(cmd: Command, lc: nat, ld: nat)
    requires 2 + ld + lc < RxBufSize && FieldLen(cmd, Name) <= lc
    ensures |UpToNul(cmd.name)| <= lc
  {
  }

  /** In the single-line layout an entry sent to a blank line reads, just
      before its line end, the name, a colon, blanks, and the description
      from column lc + 2 on: the descriptions of all entries line up behind
      the widest name. */
  lemma SingleLineLayout(cmd: Command, lc: nat, ld: nat)
    requires 2 + ld + lc < RxBufSize && FieldLen(cmd, Name) <= lc
    requires Terminal.AllPrintable(UpToNul(cmd.name)) && Terminal.AllPrintable(UpToNul(cmd.desc))
    ensures var name, desc := UpToNul(cmd.name), UpToNul(cmd.desc);
      var line := Terminal.Spaces(lc + 2) + desc + (NameOpen + name + (TextNormal + ":"));
      && EntryText(cmd, lc, ld) == line + CrLf
      && |name| <= lc
      && Terminal.Feed(Terminal.Screen([], 0, Terminal.Ground), line)
         == Terminal.Screen(name + ":" + Terminal.Spaces(lc + 1 - |name|) + desc, |name| + 1, Terminal.Ground)
  {
    NameFits(cmd, lc, ld);
    SingleLineEntry(cmd, lc, ld);
    PaddedLine(UpToNul(cmd.name), UpToNul(cmd.desc), lc + 2);
  }

  lemma PadPrintable(n: nat, desc: seq<char>)
    requires Terminal.AllPrintable(desc)
    ensures Terminal.AllPrintable(Terminal.Spaces(n) + desc)
  {
    var x := Terminal.Spaces(n) + desc;
    forall i | 0 <= i < |x|
      ensures Terminal.Printable(x[i])
    {
      if i >= n {
        assert x[i] == desc[i - n];
      }
    }
  }

  /** The parts from index `lo` up to `hi`, one after the other. */
  function Join(parts: seq<seq<char>>, lo: nat, hi: nat): seq<char>
    requires lo <= hi <= |parts|
  {
    if lo == hi then [] else Join(parts, lo, hi - 1) + parts[hi - 1]
  }

  /** The entry of each of `cmds`, in order. */
  function Entries(cmds: seq<Command>, lc: nat, ld: nat): (r: seq<seq<char>>)
    ensures |r| == |cmds|
  {
    seq(|cmds|, i requires 0 <= i < |cmds| => EntryText(cmds[i], lc, ld))
  }

  /** The entries of all of `cmds`, in order. */
  function Listing(cmds: seq<Command>, lc: nat, ld: nat): seq<char>
  {
    Join(Entries(cmds, lc, ld), 0, |cmds|)
  }

  /** What cmd_help prints: the entries of the chain, then those of the
      static list, all laid out against the widest name and the widest
      description of either. */
  function HelpListing(chain: seq<Command>, list: seq<Command>): seq<char>
  {
    var lc := Max(Longest(chain, |chain|, Name), Longest(list, |list|, Name));
    var ld := Max(Longest(chain, |chain|, Desc), Longest(list, |list|, Desc));
    Listing(chain, lc, ld) + Listing(list, lc, ld)
  }

  /** The pieces one after the other. */
  function Concat(pieces: seq<seq<char>>): seq<char>
  {
    if pieces == [] then [] else pieces[0] + Concat(pieces[1..])
  }

  lemma Concat5(a: seq<char>, b: seq<char>, c: seq<char>, d: seq<char>, e: seq<char>)
    ensures Concat([a, b, c, d, e]) == a + b + c + d + e
  {
    assert Concat([e]) == e by {
      assert [e][1..] == [];
    }
    assert Concat([d, e]) == d + e by {
      assert [d, e][1..] == [e];
    }
    assert Concat([c, d, e]) == c + (d + e) by {
      assert [c, d, e][1..] == [d, e];
    }
    assert Concat([b, c, d, e]) == b + (c + (d + e)) by {
      assert [b, c, d, e][1..] == [c, d, e];
    }
    assert [a, b, c, d, e][1..] == [b, c, d, e];
  }

  /** Regrouping the pieces a method sends one after another. */
  lemma AppendAssoc(o: seq<char>, a: seq<char>, b: seq<char>)
    ensures o + a + b == o + (a + b)
  {
  }

  lemma AppendAssoc5(o: seq<char>, a: seq<char>, b: seq<char>, c: seq<char>, d: seq<char>, e: seq<char>)
    ensures o + a + b + c + d + e == o + (a + b + c + d + e)
  {
  }

  /** Joins of two part lists that agree part by part are equal. */
  lemma {:induction false} JoinShift(p: seq<seq<char>>, k: nat, q: seq<seq<char>>, j: nat)
    requires k + j <= |p| && j <= |q|
    requires forall i :: 0 <= i < j ==> p[k + i] == q[i]
    ensures Join(p, k, k + j) == Join(q, 0, j)
  {
    if j > 0 {
      JoinShift(p, k, q, j - 1);
      assert p[k + j - 1] == q[j - 1];
    }
  }

  /** The entries of `a` followed by `b` begin with the listing of `a`. */
  lemma ListingPrefix(a: seq<Command>, b: seq<Command>, lc: nat, ld: nat)
    ensures Join(Entries(a + b, lc, ld), 0, |a|) == Listing(a, lc, ld)
  {
    var p, q := Entries(a + b, lc, ld), Entries(a, lc, ld);
    forall i | 0 <= i < |a|
      ensures p[0 + i] == q[i]
    {
      assert (a + b)[i] == a[i];
    }
    JoinShift(p, 0, q, |a|);
  }

  /** The entries of `a` followed by `b` end with the listing of `b`. */
  lemma ListingSuffix(a: seq<Command>, b: seq<Command>, lc: nat, ld: nat)
    ensures Join(Entries(a + b, lc, ld), |a|, |a + b|) == Listing(b, lc, ld)
  {
    var p, q := Entries(a + b, lc, ld), Entries(b, lc, ld);
    forall i | 0 <= i < |b|
      ensures p[|a| + i] == q[i]
    {
      assert (a + b)[|a| + i] == b[i];
    }
    JoinShift(p, |a|, q, |b|);
  }

  /** The listing of two lists of commands one after the other is the
      listing of the first followed by that of the second. */
  lemma ListingConcat(a: seq<Command>, b: seq<Command>, lc: nat, ld: nat)
    ensures Listing(a + b, lc, ld) == Listing(a, lc, ld) + Listing(b, lc, ld)
  {
    JoinSplit(Entries(a + b, lc, ld), 0, |a|, |a + b|);
    ListingPrefix(a, b, lc, ld);
    ListingSuffix(a, b, lc, ld);
  }

  /** The help listing is the listing of all commands in lookup order, laid
      out against the widest name and description among them. */
  lemma HelpListingInOrder(chain: seq<Command>, list: seq<Command>)
    ensures var cmds := chain + list;
      HelpListing(chain, list) == Listing(cmds, Longest(cmds, |cmds|, Name), Longest(cmds, |cmds|, Desc))
  {
    LongestConcat(chain, list, |list|, Name);
    LongestConcat(chain, list, |list|, Desc);
    var cmds := chain + list;
    ListingConcat(chain, list, Longest(cmds, |cmds|, Name), Longest(cmds, |cmds|, Desc));
  }

  /** Sending one more part after a join sends the longer join. */
  lemma JoinStep(o: seq<char>, parts: seq<seq<char>>, lo: nat, hi: nat)
    requires lo <= hi < |parts|
    ensures o + Join(parts, lo, hi) + parts[hi] == o + Join(parts, lo, hi + 1)
  {
    AppendAssoc(o, Join(parts, lo, hi), parts[hi]);
  }

  /** Joining up to `mid` and joining on from it make the whole join. */
  lemma {:induction false} JoinSplit(parts: seq<seq<char>>, lo: nat, mid: nat, hi: nat)
    requires lo <= mid <= hi <= |parts|
    ensures Join(parts, lo, hi) == Join(parts, lo, mid) + Join(parts, mid, hi)
  {
    if mid < hi {
      JoinSplit(parts, lo, mid, hi - 1);
      AppendAssoc(Join(parts, lo, mid), Join(parts, mid, hi - 1), parts[hi - 1]);
    }
  }

  function Max(x: nat, y: nat): nat
  {
    if x < y then y else x
  }

  /** The longest among the first n commands does not depend on those after them. */
  lemma {:induction false} LongestExtend(a: seq<Command>, b: seq<Command>, n: nat, f: Field)
    requires n <= |a|
    ensures Longest(a + b, n, f) == Longest(a, n, f)
  {
    if n > 0 {
      LongestExtend(a, b, n - 1, f);
      assert (a + b)[n - 1] == a[n - 1];
    }
  }

  /** The longest of a list followed by the first j of another is the larger
      of the two lists' longest. */
  lemma {:induction false} LongestConcat(a: seq<Command>, b: seq<Command>, j: nat, f: Field)
    requires j <= |b|
    ensures Longest(a + b, |a| + j, f) == Max(Longest(a, |a|, f), Longest(b, j, f))
  {
    if j == 0 {
      LongestExtend(a, b, |a|, f);
    } else {
      LongestConcat(a, b, j - 1, f);
      assert (a + b)[|a| + j - 1] == b[j - 1];
    }
  }

  /** Where _gshellFindCmd found a command: a record of the chain, or an
      element of the static list. */
  datatype Loc = InChain(ref: CmdRef) | InList(index: nat)

  /** A call of a host handler with its arguments (argc is their number). */
  datatype Invocation = Invocation(handler: nat, argv: seq<seq<char>>)

  /** The terminal after everything the shell has sent. */
  function Render(out: seq<char>): Terminal.Screen
  {
    Terminal.Feed(Terminal.Blank, out)
  }

  /** The line end and the bold attribute that open the prompt leave a
      blank line, with no escape sequence pending. */
  lemma PromptOpens(t: Terminal.Screen)
    ensures Terminal.Feed(t, CrLf + TextBold) == Terminal.Screen([], 0, Terminal.Ground)
  {
    Terminal.NewLine(t);
    assert TextBold == [Terminal.Esc, '['] + "1" + ['m'];
    Terminal.SelectGraphic(Terminal.Feed(t, CrLf), "1");
    Terminal.FeedAppend(t, CrLf, TextBold);
  }

  /** On a blank line the rest of the prompt shows the prompt text. */
  lemma PromptWrites()
    ensures Terminal.Shows(Terminal.Feed(Terminal.Screen([], 0, Terminal.Ground), PromptText + TextNormal), PromptText)
  {
    var t0 := Terminal.Screen([], 0, Terminal.Ground);
    var t1 := Terminal.Screen(PromptText, |PromptText|, Terminal.Ground);
    PromptPrintable();
    Terminal.TypeOnBlank(PromptText);
    NormalIsGraphic();
    Terminal.SelectGraphic(t1, "0");
    Terminal.FeedThrough(t0, PromptText, t1, TextNormal, t1);
    assert t1.text[..t1.cursor] == PromptText;
  }

  lemma PromptPrintable()
    ensures Terminal.AllPrintable(PromptText)
  {
  }

  lemma NormalIsGraphic()
    ensures TextNormal == [Terminal.Esc, '['] + "0" + ['m']
  {
  }

  /** However the terminal was left, the prompt starts a fresh line that
      shows exactly the prompt text, with no escape sequence pending. */
  lemma PromptShows(t: Terminal.Screen)
    ensures Terminal.Shows(Terminal.Feed(t, Prompt), PromptText)
  {
    PromptOpens(t);
    PromptWrites();
    assert Prompt == (CrLf + TextBold) + (PromptText + TextNormal);
    Terminal.FeedAppend(t, CrLf + TextBold, PromptText + TextNormal);
  }

  /** An accepted printable character appears right after the input shown. */
  lemma EchoKeepsInput(o: seq<char>, line: seq<char>, c: char)
    requires Terminal.Shows(Render(o), PromptText + line) && Terminal.Printable(c)
    ensures Terminal.Shows(Render(o + EchoText(c)), PromptText + (line + [c]))
  {
    assert EchoText(c) == [c];
    Terminal.FeedAppend(Terminal.Blank, o, [c]);
    assert Terminal.Feed(Render(o), [c]) == Terminal.Step(Render(o), c) by {
      assert [c][1..] == [];
    }
    Terminal.TypeOne(Render(o), PromptText + line, c);
    assert PromptText + line + [c] == PromptText + (line + [c]);
  }

  /** The echo of a backspace removes the last character of the input shown. */
  lemma EraseKeepsInput(o: seq<char>, line: seq<char>, c: char)
    requires Terminal.Shows(Render(o), PromptText + line) && IsBackspace(c) && line != []
    ensures Terminal.Shows(Render(o + EchoText(c)), PromptText + line[..|line| - 1])
  {
    var shown := PromptText + line;
    assert EchoText(c) == [Terminal.Bs, ' ', Terminal.Bs];
    Terminal.FeedAppend(Terminal.Blank, o, EchoText(c));
    Terminal.EraseOne(Render(o), shown);
    assert shown[..|shown| - 1] == PromptText + line[..|line| - 1];
  }

  /** Whatever a completed line printed, the terminal then shows the bare
      prompt, matching the emptied buffer. */
  lemma LineEndShowsPrompt(o: seq<char>, reply: seq<char>)
    ensures Terminal.Shows(Render(o + reply + Prompt), PromptText + [])
  {
    Terminal.FeedAppend(Terminal.Blank, o + reply, Prompt);
    PromptShows(Render(o + reply));
    assert PromptText + [] == PromptText;
  }

  /** With the prompt on, a log line leaves the terminal showing the prompt
      and the unsubmitted input, so that typing goes on where it was. */
  lemma LogRestoresInput(o: seq<char>, level: LogLevel, clock: bool, stamp: seq<char>, msg: seq<char>, typed: seq<char>)
    requires Terminal.AllPrintable(typed)
    ensures Terminal.Shows(Render(o + LogText(true, level, clock, stamp, msg, typed)), PromptText + typed)
  {
    var head := o + (Erase(true) + LevelTag(level) + Stamp(clock, stamp) + UpToNul(msg));
    assert o + LogText(true, level, clock, stamp, msg, typed) == head + Prompt + typed;
    Terminal.FeedAppend(Terminal.Blank, head, Prompt);
    Terminal.FeedAppend(Terminal.Blank, head + Prompt, typed);
    PromptShows(Render(head));
    Terminal.TypeText(Render(head + Prompt), PromptText, typed);
  }

  /** What line completion prints before the prompt for the arguments
      `args`, given the commands `cmds` in lookup order: the hint for an
      empty line, the error and the hint for an unknown command, the
      listing for help, and nothing for a command of the host. */
  function Reply(chain: seq<Command>, list: seq<Command>, args: seq<seq<char>>): seq<char>
  {
    if args == [] then HelpHint
    else
      var cmds := chain + list;
      match FirstMatch(args[0], cmds)
      case None => UnknownCmd + args[0] + HelpHint
      case Some(i) => if cmds[i].handler == Some(HelpHandler) then HelpListing(chain, list) else []
  }

  /** The host handler call line completion makes for the arguments `args`. */
  function Invoked(cmds: seq<Command>, args: seq<seq<char>>): seq<Invocation>
  {
    if args == [] then []
    else
      match FirstMatch(args[0], cmds)
      case None => []
      case Some(i) => HandlerCall(cmds[i], args)
  }

  /** The call of a host handler that running `cmd` with `args` makes: one
      for a host handler, none for cmd_help or a record without handler. */
  function HandlerCall(cmd: Command, args: seq<seq<char>>): seq<Invocation>
  {
    match cmd.handler
    case Some(UserHandler(id)) => [Invocation(id, args)]
    case _ => []
  }

  class Shell {
    /** Everything handed to put_char, oldest first. */
    var out: seq<char>
    /** The calls made to handlers of the host application, oldest first. */
    var calls: seq<Invocation>
    /** get_msTimeStamp != NULL */
    var hasClock: bool
    var chainLen: uint8
    var lastChain: Option<CmdRef>
    /** The `next` field of every command record; a record that is not a key has a NULL `next`. */
    var next: map<CmdRef, CmdRef>
    var rxIndex: nat
    const rxBuf: array<char>
    var argc: nat
    var argv: seq<seq<char>>
    var isActive: bool
    var promptStatus: bool
    /** The command records in the host's memory, cmd_help at HelpRef. */
    const records: map<CmdRef, Command>
    /** gshell_list_commands, gshell_list_num_commands long. */
    const listCommands: seq<Command>

    /** The records and the chain hold together: every pointer the chain
        holds names a record. */
    ghost predicate RegistryValid()
      reads this`chainLen, this`lastChain, this`next
    {
      && HelpRef in records && records[HelpRef] == HelpCommand
      && (lastChain.None? ==> chainLen == 0)
      && (lastChain.Some? ==> lastChain.value in records)
      && (forall r :: r in next ==> r in records && next[r] in records)
      && |listCommands| < 256
    }

    /** The invariant of g_shell: the buffer is G_RX_BUFSIZE long, rx_index
        never passes its end, every slot from rx_index on holds NUL, and at
        most G_MAX_ARGS arguments are kept. */
    ghost predicate Valid()
      reads this`chainLen, this`lastChain, this`next, this`rxIndex, this`argc, this`argv, rxBuf
    {
      && RegistryValid()
      && rxBuf.Length == RxBufSize
      && rxIndex <= RxBufSize
      && (forall i :: rxIndex <= i < RxBufSize ==> rxBuf[i] == NUL)
      && argc == |argv| && argc <= MaxArgs
    }

    function Registration(): Links
      reads this`chainLen, this`lastChain, this`next
    {
      Links(chainLen, lastChain, next)
    }

    /** The line typed so far and not yet submitted. */
    function Line(): seq<char>
      reads this`rxIndex, rxBuf
      requires rxIndex <= rxBuf.Length
    {
      rxBuf[..rxIndex]
    }

    /** Every slot of the buffer holds NUL. */
    predicate Cleared()
      reads rxBuf
    {
      forall i :: 0 <= i < rxBuf.Length ==> rxBuf[i] == NUL
    }

    /** The chain loops can visit chain_len records without following a NULL `next`. */
    predicate WalkSafe()
      reads this`chainLen, this`lastChain, this`next
    {
      Walk(next, chainLen).Some?
    }

    /** The records the chain loops visit, in order. */
    function ChainNodes(): (nodes: seq<CmdRef>)
      reads this`chainLen, this`lastChain, this`next
      requires RegistryValid() && WalkSafe()
      ensures |nodes| == chainLen
    {
      Walk(next, chainLen).value
    }

    /** Every record the chain loops visit exists. */
    lemma ChainInRecords()
      requires RegistryValid() && WalkSafe()
      ensures forall k :: 0 <= k < chainLen ==> ChainNodes()[k] in records
    {
      assert Linked(next, ChainNodes());
    }

    /** The commands of the chain, in the order the chain loops visit them. */
    function ChainCommands(): (cmds: seq<Command>)
      reads this`chainLen, this`lastChain, this`next
      requires RegistryValid() && WalkSafe()
      ensures |cmds| == chainLen
    {
      var nodes := ChainNodes();
      ChainInRecords();
      seq(|nodes|, k requires 0 <= k < |nodes| => records[nodes[k]])
    }

    /** The commands in lookup order: the chain, then the static list. */
    function Commands(): (cmds: seq<Command>)
      reads this`chainLen, this`lastChain, this`next
      requires RegistryValid() && WalkSafe()
      ensures |cmds| == chainLen + |listCommands|
    {
      ChainCommands() + listCommands
    }

    /** Where each of Commands() is stored. */
    function Locations(): (locs: seq<Loc>)
      reads this`chainLen, this`lastChain, this`next
      requires RegistryValid() && WalkSafe()
      ensures |locs| == |Commands()|
    {
      var nodes := ChainNodes();
      seq(|nodes|, k requires 0 <= k < |nodes| => InChain(nodes[k]))
        + seq(|listCommands|, i requires 0 <= i < |listCommands| => InList(i))
    }

    /** The command `name` resolves to: the first in lookup order whose name matches. */
    function Lookup(name: seq<char>): Option<Loc>
      reads this`chainLen, this`lastChain, this`next
      requires RegistryValid() && WalkSafe()
    {
      match FirstMatch(name, Commands())
      case None => None
      case Some(i) => Some(Locations()[i])
    }

    /** The zero-initialised g_shell, with the host's command records and static list. */
    constructor (userRecords: map<CmdRef, Command>, list: seq<Command>)
      requires HelpRef !in userRecords && |list| < 256
      ensures Valid() && fresh(rxBuf)
      ensures records == userRecords[HelpRef := HelpCommand] && listCommands == list
      ensures Registration() == Unlinked && rxIndex == 0 && Cleared()
      ensures !isActive && !promptStatus && !hasClock
      ensures out == [] && calls == [] && argv == []
    {
      out := [];
      calls := [];
      hasClock := false;
      chainLen := 0;
      lastChain := None;
      next := map[];
      rxIndex := 0;
      rxBuf := new char[RxBufSize](_ => NUL);
      argc := 0;
      argv := [];
      isActive := false;
      promptStatus := false;
      records := userRecords[HelpRef := HelpCommand];
      listCommands := list;
    }

    /** gshell_putChar: forwards c to put_char unless the shell is inactive. */
    method PutChar(c: char)
      modifies this`out
      ensures out == old(out) + (if isActive then [c] else [])
    {
      if !isActive {
        return;
      }
      out := out + [c];
    }

    /** gshell_putString: sends the characters before the first NUL, or
        nothing while the shell is inactive. When `s` stands for a whole
        buffer, `overread` tells that the loop reached its end without
        meeting a NUL, where the C code reads on past the buffer. */
    method PutString(s: seq<char>) returns (ghost overread: bool)
      modifies this`out
      ensures out == old(out) + (if isActive then UpToNul(s) else [])
      ensures overread <==> isActive && NulFree(s)
    {
      if !isActive {
        return false;
      }
      var i := 0;
      while i < |s| && s[i] != NUL
        invariant 0 <= i <= |s| && NulFree(s[..i])
        invariant out == old(out) + s[..i]
      {
        PutChar(s[i]);
        assert s[..i + 1] == s[..i] + [s[i]];
        i := i + 1;
      }
      UpToNulAt(s, i);
      overread := i == |s|;
    }

    /** gshell_putString_flash: with the flash/RAM distinction dropped it
        is the same loop as gshell_putString. */
    method PutStringFlash(s: seq<char>)
      modifies this`out
      ensures out == old(out) + (if isActive then UpToNul(s) else [])
    {
      var _ := PutString(s);
    }

    /** _gshell_echo */
    method Echo(c: char)
      modifies this`out
      ensures out == old(out) + (if isActive then EchoText(c) else [])
    {
      if c == NewLine {
        PutChar(CarRet);
        PutChar(NewLine);
      } else if IsBackspace(c) {
        PutChar(Backspace1);
        PutChar(WhiteSpace);
        PutChar(Backspace1);
      } else {
        PutChar(c);
      }
    }

    /** The chain loops start at cmd_help and step along `next`. */
    lemma ChainStep(k: nat)
      requires RegistryValid() && WalkSafe() && k < chainLen
      ensures k == 0 ==> ChainNodes()[k] == HelpRef
      ensures 0 < k ==> ChainNodes()[k - 1] in next && ChainNodes()[k] == next[ChainNodes()[k - 1]]
      ensures ChainNodes()[k] in records && ChainCommands()[k] == records[ChainNodes()[k]]
      ensures Commands()[k] == ChainCommands()[k]
      ensures Locations()[k] == InChain(ChainNodes()[k])
    {
      var nodes := ChainNodes();
      ChainInRecords();
      assert Linked(next, nodes);
      if 0 < k {
        assert 0 <= k - 1 < |nodes| - 1;
      }
    }

    /** After the chain, the loops go through the static list in order. */
    lemma ListStep(i: nat)
      requires RegistryValid() && WalkSafe() && i < |listCommands|
      ensures Commands()[chainLen + i] == listCommands[i]
      ensures Locations()[chainLen + i] == InList(i)
    {
    }

    /** The record a successful lookup locates is the command found first. */
    lemma LookupCommand(name: seq<char>)
      requires RegistryValid() && WalkSafe() && Lookup(name).Some?
      ensures match Lookup(name).value
        case InChain(ref) => ref in records && records[ref] == Commands()[FirstMatch(name, Commands()).value]
        case InList(j) => j < |listCommands| && listCommands[j] == Commands()[FirstMatch(name, Commands()).value]
    {
      var i := FirstMatch(name, Commands()).value;
      if i < chainLen {
        ChainStep(i);
      } else {
        ListStep(i - chainLen);
      }
    }

    /** _gshellFindCmd: walks chain_len records of the chain from cmd_help,
        then the static list, and returns the first whose name matches. */
    method FindCmd(name: seq<char>) returns (loc: Option<Loc>)
      requires RegistryValid() && WalkSafe()
      ensures loc == Lookup(name)
    {
      ghost var cmds := Commands();
      ghost var chain := ChainCommands();
      assert cmds == chain + listCommands;
      var k, node := FindInChain(name);
      if k < chainLen {
        ChainStep(k);
        FirstMatchAt(name, cmds, k);
        return Some(InChain(node));
      }
      var i := FindInList(name);
      if i < |listCommands| {
        ListStep(i);
        FirstMatchAt(name, cmds, chainLen + i);
        return Some(InList(i));
      }
      return None;
    }

    /** The chain loop of _gshellFindCmd: the position k of the first record
        whose name matches, or chain_len when none does, and that record. */
    method FindInChain(name: seq<char>) returns (k: nat, node: CmdRef)
      requires RegistryValid() && WalkSafe()
      ensures k <= chainLen
      ensures forall j :: 0 <= j < k ==> !Matches(name, ChainCommands()[j])
      ensures k < chainLen ==> node == ChainNodes()[k] && Matches(name, ChainCommands()[k])
    {
      ghost var cmds := ChainCommands();
      ghost var nodes := ChainNodes();
      k := 0;
      node := HelpRef;
      while k < chainLen
        invariant k <= chainLen
        invariant 0 < k ==> node == nodes[k - 1]
        invariant forall j :: 0 <= j < k ==> !Matches(name, cmds[j])
      {
        ChainStep(k);
        if k > 0 {
          node := next[node];
        } else {
          node := HelpRef;
        }
        if StrnEqual(name, records[node].name, RxBufSize) {
          return;
        }
        k := k + 1;
      }
    }

    /** The list loop of _gshellFindCmd: the index of the first element of
        the static list whose name matches, or its length when none does. */
    method FindInList(name: seq<char>) returns (i: nat)
      ensures i <= |listCommands|
      ensures forall j :: 0 <= j < i ==> !Matches(name, listCommands[j])
      ensures i < |listCommands| ==> Matches(name, listCommands[i])
    {
      i := 0;
      while i < |listCommands|
        invariant i <= |listCommands|
        invariant forall j :: 0 <= j < i ==> !Matches(name, listCommands[j])
      {
        if StrnEqual(name, listCommands[i].name, RxBufSize) {
          return;
        }
        i := i + 1;
      }
    }

    /** The first loop of gshell_cmd_help: the longest name and the longest
        description in the chain. */
    method ChainLongest() returns (lc: nat, ld: nat)
      requires RegistryValid() && WalkSafe()
      ensures lc == Longest(ChainCommands(), chainLen, Name) && ld == Longest(ChainCommands(), chainLen, Desc)
    {
      ghost var cmds := ChainCommands();
      ghost var nodes := ChainNodes();
      lc, ld := 0, 0;
      var k: nat := 0;
      var node := HelpRef;
      while k < chainLen
        invariant k <= chainLen
        invariant 0 < k ==> node == nodes[k - 1]
        invariant lc == Longest(cmds, k, Name) && ld == Longest(cmds, k, Desc)
      {
        ChainStep(k);
        if k > 0 {
          node := next[node];
        } else {
          node := HelpRef;
        }
        var len := StrnLen(records[node].name, RxBufSize);
        if len > lc {
          lc := len;
        }
        len := StrnLen(records[node].desc, RxBufSize);
        if len > ld {
          ld := len;
        }
        k := k + 1;
      }
    }

    /** The second loop of gshell_cmd_help: goes on from the lengths lc0 and
        ld0 through the static list. */
    method ListLongest(lc0: nat, ld0: nat) returns (lc: nat, ld: nat)
      ensures lc == Max(lc0, Longest(listCommands, |listCommands|, Name))
      ensures ld == Max(ld0, Longest(listCommands, |listCommands|, Desc))
    {
      lc, ld := lc0, ld0;
      var i: nat := 0;
      while i < |listCommands|
        invariant i <= |listCommands|
        invariant lc == Max(lc0, Longest(listCommands, i, Name)) && ld == Max(ld0, Longest(listCommands, i, Desc))
      {
        var len := StrnLen(listCommands[i].name, RxBufSize);
        if len > lc {
          lc := len;
        }
        len := StrnLen(listCommands[i].desc, RxBufSize);
        if len > ld {
          ld := len;
        }
        i := i + 1;
      }
    }

    /** The first two loops of gshell_cmd_help: the longest name and the
        longest description over the chain and the static list. */
    method LongestLengths() returns (lc: nat, ld: nat)
      requires RegistryValid() && WalkSafe()
      ensures lc == Max(Longest(ChainCommands(), chainLen, Name), Longest(listCommands, |listCommands|, Name))
      ensures ld == Max(Longest(ChainCommands(), chainLen, Desc), Longest(listCommands, |listCommands|, Desc))
    {
      lc, ld := ChainLongest();
      lc, ld := ListLongest(lc, ld);
    }

    /** The body of the two printing loops of gshell_cmd_help, for one command. */
    method PrintEntry(cmd: Command, lc: nat, ld: nat)
      modifies this`out
      ensures out == old(out) + (if isActive then EntryText(cmd, lc, ld) else [])
    {
      UpToNulOfNulFree(NameOpen);
      if 2 + ld + lc >= RxBufSize {
        UpToNulOfNulFree(NameCloseIndent);
        UpToNulOfNulFree(CrLf);
        PutStringFlash(NameOpen);
        PutStringFlash(cmd.name);
        PutStringFlash(NameCloseIndent);
        PutStringFlash(cmd.desc);
        PutStringFlash(CrLf);
        Concat5(NameOpen, UpToNul(cmd.name), NameCloseIndent, UpToNul(cmd.desc), CrLf);
        AppendAssoc5(old(out), NameOpen, UpToNul(cmd.name), NameCloseIndent, UpToNul(cmd.desc), CrLf);
      } else {
        UpToNulOfNulFree(NameClose);
        var j := 0;
        while j < lc + 2
          invariant j <= lc + 2
          invariant out == old(out) + (if isActive then Terminal.Spaces(j) else [])
        {
          PutChar(WhiteSpace);
          j := j + 1;
        }
        PutStringFlash(cmd.desc);
        PutStringFlash(NameOpen);
        PutStringFlash(cmd.name);
        PutStringFlash(NameClose);
        Concat5(Terminal.Spaces(lc + 2), UpToNul(cmd.desc), NameOpen, UpToNul(cmd.name), NameClose);
        AppendAssoc5(old(out), Terminal.Spaces(lc + 2), UpToNul(cmd.desc), NameOpen, UpToNul(cmd.name), NameClose);
      }
    }

    /** The third loop of gshell_cmd_help: the entries of the chain. */
    method PrintChain(lc: nat, ld: nat)
      requires RegistryValid() && WalkSafe()
      modifies this`out
      ensures out == old(out) + (if isActive then Listing(ChainCommands(), lc, ld) else [])
    {
      ghost var parts := Entries(ChainCommands(), lc, ld);
      ghost var nodes := ChainNodes();
      var k: nat := 0;
      var node := HelpRef;
      while k < chainLen
        invariant k <= chainLen
        invariant 0 < k ==> node == nodes[k - 1]
        invariant isActive ==> out == old(out) + Join(parts, 0, k)
        invariant !isActive ==> out == old(out)
      {
        ChainStep(k);
        if k > 0 {
          node := next[node];
        } else {
          node := HelpRef;
        }
        PrintEntry(records[node], lc, ld);
        assert parts[k] == EntryText(records[node], lc, ld);
        JoinStep(old(out), parts, 0, k);
        k := k + 1;
      }
    }

    /** The fourth loop of gshell_cmd_help: the entries of the static list,
        which follow those of the chain. */
    method PrintList(lc: nat, ld: nat)
      modifies this`out
      ensures out == old(out) + (if isActive then Listing(listCommands, lc, ld) else [])
    {
      ghost var parts := Entries(listCommands, lc, ld);
      var i: nat := 0;
      while i < |listCommands|
        invariant i <= |listCommands|
        invariant isActive ==> out == old(out) + Join(parts, 0, i)
        invariant !isActive ==> out == old(out)
      {
        PrintEntry(listCommands[i], lc, ld);
        JoinStep(old(out), parts, 0, i);
        i := i + 1;
      }
    }

    /** gshell_cmd_help: lists every command of the chain and the static list. */
    method CmdHelp()
      requires RegistryValid() && WalkSafe()
      modifies this`out
      ensures out == old(out) + (if isActive then HelpListing(ChainCommands(), listCommands) else [])
    {
      ghost var chain := ChainCommands();
      var lc, ld := LongestLengths();
      assert HelpListing(chain, listCommands) == Listing(chain, lc, ld) + Listing(listCommands, lc, ld);
      PrintChain(lc, ld);
      assert ChainCommands() == chain;
      PrintList(lc, ld);
      AppendAssoc(old(out), Listing(chain, lc, ld), Listing(listCommands, lc, ld));
    }

    /** The dispatch of _gshell_process: an unknown first argument is
        reported with the hint, a known one runs its handler (cmd_help
        prints the listing, a host handler is recorded, none does nothing),
        and an empty line only prints the hint. */
    method Dispatch(args: seq<seq<char>>)
      requires RegistryValid() && WalkSafe()
      requires args != [] ==> IsWord(args[0])
      modifies this`out, this`calls
      ensures out == old(out) + (if isActive then Reply(ChainCommands(), listCommands, args) else [])
      ensures calls == old(calls) + Invoked(Commands(), args)
    {
      if |args| >= 1 {
        var loc := FindCmd(args[0]);
        if loc.None? {
          assert NulFree(args[0]);
          ReportUnknown(args[0]);
        } else {
          LookupCommand(args[0]);
          var cmd := match loc.value
            case InChain(ref) => records[ref]
            case InList(j) => listCommands[j];
          RunHandler(cmd, args);
        }
      } else {
        UpToNulOfNulFree(HelpHint);
        PutStringFlash(HelpHint);
      }
    }

    /** The message of _gshell_process for a command that was not found. */
    method ReportUnknown(name: seq<char>)
      requires NulFree(name)
      modifies this`out
      ensures out == old(out) + (if isActive then UnknownCmd + name + HelpHint else [])
    {
      UpToNulOfNulFree(name);
      UpToNulOfNulFree(UnknownCmd);
      UpToNulOfNulFree(HelpHint);
      PutStringFlash(UnknownCmd);
      var _ := PutString(name);
      PutStringFlash(HelpHint);
      AppendAssoc(old(out), UnknownCmd, name);
      AppendAssoc(old(out), UnknownCmd + name, HelpHint);
    }

    /** The handler call of _gshell_process for a command that was found:
        cmd_help prints the listing, a host handler is recorded with the
        arguments, and a record without handler does nothing. */
    method RunHandler(cmd: Command, args: seq<seq<char>>)
      requires RegistryValid() && WalkSafe()
      modifies this`out, this`calls
      ensures out == old(out) + (if isActive && cmd.handler == Some(HelpHandler) then HelpListing(ChainCommands(), listCommands) else [])
      ensures calls == old(calls) + HandlerCall(cmd, args)
    {
      match cmd.handler
      case Some(HelpHandler) =>
        CmdHelp();
      case Some(UserHandler(id)) =>
        calls := calls + [Invocation(id, args)];
      case None =>
    }

    /** _gshell_process: when the last stored character is a line feed, splits
        the buffer into at most G_MAX_ARGS arguments, dispatches the first
        one, clears the buffer and prints the prompt. Always returns 0. */
    method Process() returns (r: uint8, ghost overrun: bool)
      requires Valid() && 1 <= rxIndex
      requires rxBuf[rxIndex - 1] == NewLine ==> WalkSafe()
      modifies this`argv, this`argc, this`rxIndex, this`out, this`calls, rxBuf
      ensures Valid() && r == 0
      ensures old(rxBuf[rxIndex - 1]) != NewLine ==> unchanged(this) && unchanged(rxBuf) && !overrun
      ensures old(rxBuf[rxIndex - 1]) == NewLine ==>
        && argv == Take(Tokens(old(Line())), MaxArgs) && argc == |argv|
        && rxIndex == 0 && Cleared()
        && out == old(out) + (if isActive then Reply(ChainCommands(), listCommands, argv) + Prompt else [])
        && calls == old(calls) + Invoked(Commands(), argv)
        && (overrun <==> |old(Line())| == RxBufSize && NulFree(old(Line())) && |Tokens(old(Line()))| <= MaxArgs)
    {
      if rxBuf[rxIndex - 1] != NewLine {
        return 0, false;
      }
      BufferTokensLine();
      BufferNulFree();
      LineEndNotInWord();
      overrun := CompleteLine();
      return 0, overrun;
    }

    /** The line-feed path of _gshell_process. */
    method CompleteLine() returns (ghost overrun: bool)
      requires RegistryValid() && WalkSafe() && rxBuf.Length == RxBufSize
      modifies this`argv, this`argc, this`rxIndex, this`out, this`calls, rxBuf
      ensures argv == Take(Tokens(old(rxBuf[..])), MaxArgs) && argc == |argv|
      ensures overrun <==>
        NulFree(old(rxBuf[..])) &&
        (|Tokens(old(rxBuf[..]))| <= MaxArgs || (|Tokens(old(rxBuf[..]))| == MaxArgs + 1 && EndsInWord(old(rxBuf[..]))))
      ensures rxIndex == 0 && Cleared()
      ensures out == old(out) + (if isActive then Reply(ChainCommands(), listCommands, argv) + Prompt else [])
      ensures calls == old(calls) + Invoked(Commands(), argv)
    {
      ghost var cmds := Commands();
      overrun := ParseArgs();
      Dispatch(argv);
      ResetInput();
      assert Commands() == cmds;
    }

    /** The argument loop of _gshell_process: argv and argc are set to the
        first G_MAX_ARGS tokens of the buffer. `overrun` tells that strtok
        read past the end of the buffer, as Tokenizer.Split states. */
    method ParseArgs() returns (ghost overrun: bool)
      modifies this`argv, this`argc
      ensures argv == Take(Tokens(rxBuf[..]), MaxArgs) && argc == |argv|
      ensures argv != [] ==> IsWord(argv[0])
      ensures overrun <==>
        NulFree(rxBuf[..]) &&
        (|Tokens(rxBuf[..])| <= MaxArgs || (|Tokens(rxBuf[..])| == MaxArgs + 1 && EndsInWord(rxBuf[..])))
    {
      argc := 0;
      var args;
      args, overrun := Split(rxBuf);
      FirstArgIsWord(rxBuf[..]);
      argv, argc := args, |args|;
    }

    /** The end of _gshell_process: the buffer is cleared and the prompt printed. */
    method ResetInput()
      requires rxBuf.Length == RxBufSize
      modifies rxBuf, this`rxIndex, this`out
      ensures rxIndex == 0 && Cleared()
      ensures out == old(out) + (if isActive then Prompt else [])
    {
      ClearBuffer();
      rxIndex := 0;
      UpToNulOfNulFree(Prompt);
      PutStringFlash(Prompt);
    }

    /** gshell_init: records the timestamp source, activates the shell,
        registers cmd_help, clears the buffer and starts a fresh line.
        rx_index is left as it was. */
    method Init(clock: bool)
      requires Valid()
      modifies this`hasClock, this`isActive, this`chainLen, this`lastChain, this`next, this`out, rxBuf
      ensures Valid() && hasClock == clock && isActive
      ensures Registration() == Register(old(Registration()), HelpRef)
      ensures Cleared() && rxIndex == old(rxIndex)
      ensures out == old(out) + "\r\n\n"
    {
      hasClock := clock;
      isActive := true;
      var _ := RegisterCmd(HelpRef);
      ClearBuffer();
      UpToNulOfNulFree(CrLf + "\n");
      PutStringFlash(CrLf + "\n");
    }

    /** The memset of the receive buffer to C_NULLCHAR. */
    method ClearBuffer()
      modifies rxBuf
      ensures Cleared()
    {
      forall i | 0 <= i < rxBuf.Length {
        rxBuf[i] := NUL;
      }
    }

    /** gshell_register_cmd: links `cmd` into the chain as written, and
        returns the new chain length. */
    method RegisterCmd(cmd: CmdRef) returns (n: uint8)
      requires RegistryValid() && cmd in records
      modifies this`chainLen, this`lastChain, this`next
      ensures RegistryValid()
      ensures Registration() == Register(old(Registration()), cmd) && n == chainLen
    {
      if lastChain.None? && chainLen == 0 {
        lastChain := Some(cmd);
        chainLen := chainLen + 1;
      } else {
        next := next[lastChain.value := cmd];
        chainLen := (chainLen + 1) % 256;
      }
      return chainLen;
    }

    /** gshell_setActive: any non-zero argument activates the shell. */
    method SetActive(activeStatus: uint8)
      modifies this`isActive
      ensures isActive == (activeStatus != 0)
    {
      if activeStatus != 0 {
        isActive := true;
      } else {
        isActive := false;
      }
    }

    /** gshell_setPromt: prints the prompt only when the prompt turns on;
        turning it off prints nothing. */
    method SetPrompt(status: uint8)
      modifies this`promptStatus, this`out
      ensures promptStatus == (status != 0)
      ensures out == old(out) + (if status != 0 && !old(promptStatus) && isActive then Prompt else [])
    {
      if status != 0 {
        if !promptStatus {
          promptStatus := true;
          UpToNulOfNulFree(Prompt);
          PutStringFlash(Prompt);
        }
      } else {
        promptStatus := false;
      }
    }

    /** gshell_CharReceived: the per-character state machine. A carriage
        return is dropped, an inactive shell refuses input with 3, backspace
        removes the last character, a full buffer refuses input with 2, and
        any other character is echoed and stored, a line feed completing
        the line. The prompt state is not consulted. */
    method CharReceived(c: char) returns (r: uint8, ghost overrun: bool)
      requires Valid()
      requires c == NewLine ==> WalkSafe()
      modifies this`rxIndex, this`out, this`argv, this`argc, this`calls, rxBuf
      ensures Valid()
      ensures c == CarRet ==> r == 0 && unchanged(this) && unchanged(rxBuf)
      ensures c != CarRet && !isActive ==> r == 3 && unchanged(this) && unchanged(rxBuf)
      ensures c != CarRet && isActive && IsBackspace(c) && old(rxIndex) == 0 ==>
        r == 0 && unchanged(this) && unchanged(rxBuf)
      ensures c != CarRet && isActive && IsBackspace(c) && old(rxIndex) > 0 ==>
        && r == 0 && Line() == old(Line())[..old(rxIndex) - 1]
        && out == old(out) + EchoText(c)
        && calls == old(calls) && argv == old(argv)
      ensures c != CarRet && isActive && !IsBackspace(c) && old(rxIndex) >= RxBufSize ==>
        r == 2 && unchanged(this) && unchanged(rxBuf)
      ensures c != CarRet && isActive && !IsBackspace(c) && old(rxIndex) < RxBufSize && c != NewLine ==>
        && r == 0 && Line() == old(Line()) + [c]
        && out == old(out) + EchoText(c)
        && calls == old(calls) && argv == old(argv)
      ensures c == NewLine && isActive && old(rxIndex) < RxBufSize ==>
        && r == 0 && argv == Take(Tokens(old(Line()) + [c]), MaxArgs) && argc == |argv|
        && rxIndex == 0 && Cleared()
        && out == old(out) + EchoText(c) + Reply(ChainCommands(), listCommands, argv) + Prompt
        && calls == old(calls) + Invoked(Commands(), argv)
        && (overrun <==> old(rxIndex) == RxBufSize - 1 && NulFree(old(Line()) + [c]) && |Tokens(old(Line()) + [c])| <= MaxArgs)
      ensures !(c == NewLine && isActive && old(rxIndex) < RxBufSize) ==> !overrun
    {
      if c == CarRet {
        return 0, false;
      } else if !isActive {
        return 3, false;
      }
      if IsBackspace(c) {
        if rxIndex > 0 {
          EraseChar(c);
        }
        return 0, false;
      } else if rxIndex >= RxBufSize {
        return 2, false;
      }
      r, overrun := StoreChar(c);
    }

    /** The backspace branch of gshell_CharReceived: the last character is
        removed from the buffer and erased on the terminal. */
    method EraseChar(c: char)
      requires Valid() && isActive && IsBackspace(c) && rxIndex > 0
      modifies this`rxIndex, this`out, rxBuf
      ensures Valid()
      ensures Line() == old(Line())[..old(rxIndex) - 1]
      ensures out == old(out) + EchoText(c)
    {
      rxIndex := rxIndex - 1;
      rxBuf[rxIndex] := NUL;
      Echo(c);
    }

    /** The storing branch of gshell_CharReceived: the character is echoed
        and appended to the buffer, and a line feed completes the line. */
    method StoreChar(c: char) returns (r: uint8, ghost overrun: bool)
      requires Valid() && isActive && rxIndex < RxBufSize
      requires c != CarRet && !IsBackspace(c)
      requires c == NewLine ==> WalkSafe()
      modifies this`rxIndex, this`out, this`argv, this`argc, this`calls, rxBuf
      ensures Valid() && r == 0
      ensures c != NewLine ==>
        && Line() == old(Line()) + [c]
        && out == old(out) + EchoText(c)
        && calls == old(calls) && argv == old(argv)
      ensures c == NewLine ==>
        && argv == Take(Tokens(old(Line()) + [c]), MaxArgs) && argc == |argv|
        && rxIndex == 0 && Cleared()
        && out == old(out) + EchoText(c) + Reply(ChainCommands(), listCommands, argv) + Prompt
        && calls == old(calls) + Invoked(Commands(), argv)
        && (overrun <==> old(rxIndex) == RxBufSize - 1 && NulFree(old(Line()) + [c]) && |Tokens(old(Line()) + [c])| <= MaxArgs)
      ensures c != NewLine ==> !overrun
    {
      Append(c);
      ghost var echoed := out;
      r, overrun := Process();
      if c == NewLine {
        AppendAssoc(echoed, Reply(ChainCommands(), listCommands, argv), Prompt);
      }
    }

    /** The character is echoed and stored at rx_index, which moves on. */
    method Append(c: char)
      requires Valid() && isActive && rxIndex < RxBufSize
      modifies this`rxIndex, this`out, rxBuf
      ensures Valid() && Line() == old(Line()) + [c] && rxIndex == old(rxIndex) + 1 && rxBuf[rxIndex - 1] == c
      ensures out == old(out) + EchoText(c)
    {
      Echo(c);
      rxBuf[rxIndex] := c;
      rxIndex := rxIndex + 1;
    }

    /** The tokens strtok finds in the buffer are those of the line typed so far. */
    lemma BufferTokensLine()
      requires Valid()
      ensures Tokens(rxBuf[..]) == Tokens(Line())
    {
      assert rxBuf[..] == Line() + rxBuf[rxIndex..];
      TokensNulTail(Line(), rxBuf[rxIndex..]);
    }

    /** A C routine reading the buffer stops at the end of the line typed so
        far, or reads the whole line when it fills the buffer. */
    lemma BufferReadsLine()
      requires Valid()
      ensures UpToNul(rxBuf[..]) == UpToNul(Line())
    {
      assert rxBuf[..] == Line() + rxBuf[rxIndex..];
      UpToNulTail(Line(), rxBuf[rxIndex..]);
    }

    /** The buffer holds no NUL exactly when the line fills it and holds
        none. */
    lemma BufferNulFree()
      requires Valid()
      ensures NulFree(rxBuf[..]) <==> rxIndex == RxBufSize && NulFree(Line())
    {
      if rxIndex < RxBufSize {
        assert rxBuf[..][RxBufSize - 1] == NUL;
      } else {
        assert rxBuf[..] == Line();
      }
    }

    /** When the line ends in a line feed, the buffer does not end inside a
        token: its last slot holds that line feed or a NUL. */
    lemma LineEndNotInWord()
      requires Valid() && 1 <= rxIndex && rxBuf[rxIndex - 1] == NewLine
      ensures !EndsInWord(rxBuf[..])
    {
      assert rxBuf[..][RxBufSize - 1] == rxBuf[RxBufSize - 1];
    }

    /** Once G_RX_BUFSIZE characters without a NUL are stored, the buffer
        holds no terminator: strtok and gshell_putString, which read it as
        a C string, run past its end. */
    lemma FullBufferUnterminated()
      requires Valid() && rxIndex == RxBufSize && NulFree(Line())
      ensures CStr(rxBuf[..]).None?
    {
      assert rxBuf[..] == Line();
    }

    /** gshell_log_flash: nothing while inactive; otherwise the log line, and
        with the prompt on, the prompt again followed by the unsubmitted
        input. `msg` is the formatted message and `stamp` the formatted
        "[%09d] " timestamp, sent only when a timestamp source was given. */
    method LogFlash(level: LogLevel, msg: seq<char>, stamp: seq<char>) returns (ghost overread: bool)
      requires Valid()
      modifies this`out
      ensures out == old(out) + (if isActive then LogText(promptStatus, level, hasClock, stamp, msg, UpToNul(Line())) else [])
      ensures overread <==> isActive && promptStatus && rxIndex == RxBufSize && NulFree(Line())
    {
      if !isActive {
        return false;
      }
      LogErase();
      LogEntry(level, msg, stamp);
      overread := LogRestore();
      AppendAssoc5(old(out), Erase(promptStatus), LevelTag(level), Stamp(hasClock, stamp), UpToNul(msg), Restore(promptStatus, UpToNul(Line())));
    }

    /** The start of gshell_log_flash. */
    method LogErase()
      requires isActive
      modifies this`out
      ensures out == old(out) + Erase(promptStatus)
    {
      if promptStatus {
        UpToNulOfNulFree(ClearLine);
        var _ := PutString(ClearLine);
        PutChar(CarRet);
        AppendAssoc(old(out), ClearLine, [CarRet]);
      }
    }

    /** The end of gshell_log_flash: the prompt and the buffer, or a line
        end. `overread` tells that gshell_putString read the buffer past its
        end, which happens when the line fills it without a NUL. */
    method LogRestore() returns (ghost overread: bool)
      requires Valid() && isActive
      modifies this`out
      ensures out == old(out) + Restore(promptStatus, UpToNul(Line()))
      ensures overread <==> promptStatus && rxIndex == RxBufSize && NulFree(Line())
    {
      BufferReadsLine();
      BufferNulFree();
      if promptStatus {
        UpToNulOfNulFree(Prompt);
        PutStringFlash(Prompt);
        overread := PutString(rxBuf[..]);
        AppendAssoc(old(out), Prompt, UpToNul(Line()));
      } else {
        UpToNulOfNulFree(CrLf);
        PutStringFlash(CrLf);
        overread := false;
      }
    }

    /** The middle of gshell_log_flash: the level's tag, the timestamp when
        a timestamp source was given, and the message. */
    method LogEntry(level: LogLevel, msg: seq<char>, stamp: seq<char>)
      requires isActive
      modifies this`out
      ensures out == old(out) + LevelTag(level) + Stamp(hasClock, stamp) + UpToNul(msg)
    {
      var tag := LevelTag(level);
      UpToNulOfNulFree(tag);
      PutStringFlash(tag);
      if hasClock {
        PutStringFlash(stamp);
      }
      assert out == old(out) + tag + Stamp(hasClock, stamp);
      var _ := PutString(msg);
    }
  }
}
