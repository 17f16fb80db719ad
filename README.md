# gshell line-input engine in Dafny

gshell is a small command shell for microcontrollers, written in C
(`gshell.c`, `gshell.h`). The host hands it one received character at a
time through `gshell_CharReceived`. The shell keeps the line in a
120-character receive buffer and echoes it back through a `put_char`
callback. When a line feed arrives, it splits the line into at most 16
arguments with `strtok`, finds the command and calls its handler. It then
clears the buffer and prints the prompt. Commands come from two places:
a chain of records linked by `gshell_register_cmd`, which always starts at
the built-in `help`, and a static array supplied by the host. The same
module prints log lines (`gshell_log_flash`). With the prompt on, a log
line erases the input line, prints the tag, the optional timestamp and the
message, and then reprints the prompt and what the user had typed, up to
the first NUL typed, if any.

The model is a Dafny class `Gshell.Shell` whose fields are those of the
global `g_shell` record. The receive buffer is an `array<char>`; `rx_index`
and the registration chain are fields that the methods update in place.
The `next` pointers of the command records are a map from record to
record. Everything sent to `put_char` is appended to the field `out`.
Calls of host handlers are appended to the field `calls`. The built-in
`help` handler is modelled in full.

Each method is proved against specification functions:

- `Tokens` gives the maximal runs of characters other than blank and line
  feed that come before the first NUL.
- `FirstMatch` gives the first command whose name matches.
- `Reply` and `Invoked` give what a completed line prints and calls.
- `HelpListing` gives what `help` prints.
- `LogText` gives what a log line prints.

Lemmas then prove what those functions promise: tokenisation round-trips,
lookup takes the first match, the help listing covers every command in
lookup order with the widest name and description, and the log levels have
distinct tags. A small terminal model (`Terminal.Feed`) interprets the
output stream. It shows that echo, backspace, the prompt and log lines
leave the screen showing the prompt followed by the unsubmitted input up
to its first NUL, and
that the single-line help layout lines the descriptions up behind the
widest name.

Files:

- `wrappers.dfy`: `Option`.
- `cstring.dfy`: C strings in a buffer (`strnlen`, `strncmp`, `while (*s)` loops).
- `gshell_h.dfy`: the constants, the command record and the log levels of `gshell.h`.
- `tokenizer.dfy`: `strtok` and the argument loop.
- `registry.dfy`: registration, the chain walk and lookup order.
- `terminal.dfy`: the terminal model.
- `gshell.dfy`: the shell.

## Model

| member | source | states |
|---|---|---|
| CString.CStr | gshell.c:362-369 | a buffer read as a C string yields a NUL-free prefix of the buffer, shorter than it, that a NUL follows (the characters before its first NUL), and yields nothing (the read runs off the end) exactly when the buffer holds no NUL |
| CString.UpToNul | gshell.c:362-369 | definition: the characters a `while (*str)` loop reads, those before the first NUL or all of them when there is none; its contract is proved in `UpToNulIsPrefix` |
| CString.UpToNulIsPrefix | gshell.c:365-368 | a `while (*str)` loop reads a NUL-free prefix of the buffer, stopping at a NUL or at the end |
| CString.StrnLen | gshell.c:280 | `strnlen(s, n)` is never more than n or the string's length, and equals one of them |
| CString.StrnEqual | gshell.c:101 | definition: `strncmp(a, b, n) == 0`, the two C strings agree on their first n characters; `StrnEqualShort` states when this is equality of names |
| CString.StrnEqualShort | gshell.c:101 | `strncmp(name, cmdName, 120) == 0` for a NUL-free name shorter than 120 holds exactly when the command's name is that name: lookup is by exact name |
| CString.UpToNulTail | gshell.c:167 | whatever follows a NUL in a buffer is never read as part of its string |
| GshellH.LevelOfCode | gshell.h:74-81 | the codes 0 to 5, and no others, each name one log level, and the level's code is that number |
| GshellH.LevelCodeRoundTrip | gshell.h:74-81 | every log level is found again from its code |
| Tokenizer.WordLenRun | gshell.c:130 | a token runs to the first blank, line feed or NUL |
| Tokenizer.Tokens | gshell.c:128-136 | definition: the tokens strtok with the delimiters blank and line feed finds, the maximal runs of other characters before the first NUL, left to right; `TokensAreWords`, `TokensSplitAtDelim`, `TokensOfUnsplit` and `Split` state what they are |
| Tokenizer.Take | gshell.c:131-142 | the arguments kept are the first `G_MAX_ARGS` tokens in order: all of them when there are at most `G_MAX_ARGS`, otherwise exactly `G_MAX_ARGS` |
| Tokenizer.TokensAreWords | gshell.c:130-136 | every token is a non-empty run of characters other than blank, line feed and NUL |
| Tokenizer.TokensSplitAtDelim | gshell.c:130-136 | a blank or line feed splits the line: the tokens before it and then those after it, in order |
| Tokenizer.TokensOfWord | gshell.c:130 | a single word is a single token |
| Tokenizer.TokensOfBlank | gshell.c:130 | a line of blanks and line feeds has no tokens |
| Tokenizer.TokensNulTail | gshell.c:130 | nothing after a NUL yields tokens |
| Tokenizer.EndsInWordHasToken | gshell.c:130 | a NUL-free buffer whose last character is neither blank, line feed nor NUL holds at least one token, and its last token runs up to its end |
| Tokenizer.TokensShorter | gshell.c:130 | every token of a text whose last character is not a word character is shorter than the text |
| Tokenizer.TokensOfUnsplit | gshell.c:130-136 | splitting the line typed for some words, one blank apart, gives back exactly those words |
| Tokenizer.FirstArgIsWord | gshell.c:148 | the first argument, when there is one, is a word |
| Tokenizer.SkipDelims | gshell.c:130 | strtok's first scan stops at the first character that is not a delimiter, and the tokens from there are those from where it started |
| Tokenizer.ScanWord | gshell.c:130 | strtok's second scan stops at the end of the run of word characters |
| Tokenizer.Resume | gshell.c:136 | the next strtok call resumes after the delimiter that ended the token, or at the NUL or the end of the buffer; it reports reaching the end exactly when the token ran up to it |
| Tokenizer.Strtok | gshell.c:130-136 | one strtok call returns the first token from its position on, or none when no token is left, and resumes where the remaining tokens start. `overrun` is set exactly when the scan reaches the end of the buffer without meeting a NUL: for no token, when nothing from the position on is NUL; for a token, when it runs up to the last slot |
| Tokenizer.Split | gshell.c:128-142 | the argument loop keeps the first `G_MAX_ARGS` tokens of the buffer, in order. It reads past the buffer exactly when the buffer holds no NUL and either holds at most `G_MAX_ARGS` tokens, or holds `G_MAX_ARGS + 1` with the last one running up to the last slot |
| Registry.Register | gshell.c:188-201 | registration keeps `lastChain == NULL` only for an empty chain and increases `chain_len` by one, modulo 256 |
| Registry.RegisterLinked | gshell.c:188-201 | the corrected registration does the same and makes the new record `lastChain` |
| Registry.Walk | gshell.c:89-99 | the chain walk of n steps visits n records, starting at `help` and following `next` |
| Registry.WalkFollows | gshell.c:89-99 | any path that starts at `help` and follows `next` is what the walk visits |
| Registry.AsWrittenLinksOnlyLast | gshell.c:197 | as written, after `help` and some commands are registered, only the last command is linked, behind `help` |
| Registry.ThirdRegistrationBreaksWalk | gshell.c:197 | as written, after registering `help` and two commands, `chain_len` is 3 but the walk meets a NULL `next` |
| Registry.AsWrittenWalkSafe | gshell.c:188-201 | as written, `help` plus at most one command can be walked safely |
| Registry.LinkedChainFollowsOrder | gshell.c:188-201 | with the corrected registration, the walk of `chain_len` steps visits exactly the registered commands in registration order |
| Registry.LinkedNext | gshell.c:197 | with the corrected registration, each command's `next` is the command registered after it |
| Registry.FirstMatch | gshell.c:81-118 | the lookup result matches, no earlier command matches, and no result means that no command matches |
| Registry.FirstMatchAt | gshell.c:101-104 | a match with no earlier match is the one the lookup returns |
| Gshell.LevelTagsDistinct | gshell.c:50-58 | the six log levels have six different tags |
| Gshell.LevelTag | gshell.c:50-58 | definition: `console_levels`, the tag printed before a log message at each level; `LevelTagsDistinct` shows the six differ |
| Gshell.LongestIsMax | gshell.c:269-296 | the longest length is at least every command's length and is attained by one of them unless it is 0 |
| Gshell.LongestConcat | gshell.c:269-296 | the longest over the chain followed by the list is the larger of the two |
| Gshell.ListingConcat | gshell.c:298-352 | listing two runs of commands prints the first run's entries, then the second's |
| Gshell.HelpListingInOrder | gshell.c:261-354 | `help` prints one entry per command in lookup order, laid out with the widest name and description over all commands |
| Gshell.SingleLineLayout | gshell.c:317-327 | in the single-line layout an entry shows the name, a colon, blanks and then the description from column `longestCommand + 2`, so all descriptions line up |
| Gshell.EntryText | gshell.c:309-327 | definition: the text `help` prints for one command, on two lines when `2 + longestDescription + longestCommand >= 120`, otherwise padded so that the name is drawn over the indentation; `SingleLineLayout` states what the terminal then shows |
| Gshell.PromptShows | gshell.c:14 | the prompt starts a fresh line showing exactly `gshell> ` with no escape sequence pending |
| Gshell.EchoText | gshell.c:60-79 | definition: what `_gshell_echo` sends for an accepted character; `EchoKeepsInput` and `EraseKeepsInput` state what the terminal then shows |
| Gshell.EchoKeepsInput | gshell.c:256-257 | an accepted printable character shows up right after the input already shown |
| Gshell.EraseKeepsInput | gshell.c:242-248 | the echo of a backspace removes the last character shown |
| Gshell.LineEndShowsPrompt | gshell.c:166-171 | after a completed line, whatever it printed, the terminal shows the bare prompt |
| Gshell.LogRestoresInput | gshell.c:448-452 | with the prompt on, a log line leaves the terminal showing the prompt and the restored input `typed`, which `LogFlash` takes to be the typed line up to its first NUL |
| Gshell.LogText | gshell.c:415-457 | definition: what an active `gshell_log_flash` sends, in order; `LogRestoresInput` states what the terminal then shows |
| Gshell.ArgsMatchExactly | gshell.c:101 | every argument of a completed line is shorter than 120 characters, so `strncmp(argv[0], cmdName, 120) == 0` holds exactly when the command's name is that argument: lookup is by exact name |
| Gshell.Shell.constructor | gshell.c:24-39 | the zero-initialised `g_shell`: inactive, nothing registered, an empty and cleared buffer |
| Gshell.Shell.PutChar | gshell.c:356-360 | the character is sent when the shell is active, and nothing otherwise |
| Gshell.Shell.PutString | gshell.c:362-369 | the characters before the first NUL are sent when active, and nothing otherwise; `overread` is set exactly when the shell is active and the string holds no NUL, so that the loop runs past the buffer it stands for |
| Gshell.Shell.PutStringFlash | gshell.c:384-394 | the same as `gshell_putString` |
| Gshell.Shell.Echo | gshell.c:60-79 | a line feed is echoed as CR LF, a backspace as `\b \b`, and any other character as itself |
| Gshell.Shell.ChainStep | gshell.c:89-99 | the chain loops visit `help` first and then follow `next` |
| Gshell.Shell.ListStep | gshell.c:108-110 | after the chain the lookup order goes through the static list |
| Gshell.Shell.LookupCommand | gshell.c:148-157 | the record a lookup locates is the first matching command in lookup order |
| Gshell.Shell.FindCmd | gshell.c:81-118 | `_gshellFindCmd` returns where the first matching command of the chain and then the list is stored, or NULL |
| Gshell.Shell.FindInChain | gshell.c:89-105 | the chain loop stops at the first matching record of the chain |
| Gshell.Shell.FindInList | gshell.c:107-115 | the list loop stops at the first matching element of the static list |
| Gshell.Shell.ChainLongest | gshell.c:269-286 | the first loop of `help` finds the longest name and description in the chain |
| Gshell.Shell.ListLongest | gshell.c:288-296 | the second loop of `help` extends them over the static list |
| Gshell.Shell.LongestLengths | gshell.c:269-296 | the lengths `help` lays out against are the maxima over chain and list |
| Gshell.Shell.PrintEntry | gshell.c:309-327 | one entry: two lines when `2 + longestDescription + longestCommand >= 120`, otherwise the padded single line |
| Gshell.Shell.PrintChain | gshell.c:298-328 | the third loop of `help` prints the entries of the chain in order |
| Gshell.Shell.PrintList | gshell.c:330-352 | the fourth loop of `help` prints the entries of the static list in order |
| Gshell.Shell.CmdHelp | gshell.c:261-354 | `help` prints the help listing when the shell is active |
| Gshell.Shell.Dispatch | gshell.c:144-164 | no arguments prints the hint; an unknown command prints the error, the name and the hint; a found command runs its handler once with all arguments; a NULL handler does nothing |
| Gshell.Shell.ReportUnknown | gshell.c:149-154 | the unknown-command message is `Unknown command: `, the name, and the hint |
| Gshell.Shell.RunHandler | gshell.c:155-158 | `help` prints the listing, a host handler is called once with the arguments, a NULL handler does nothing |
| Gshell.Shell.Process | gshell.c:120-172 | without a final line feed nothing changes, 0 is returned and nothing is read past the buffer. With one, the arguments are the first 16 tokens of the line, the reply and the prompt are printed, the buffer is cleared, `rx_index` is 0 and 0 is returned; strtok reads past the buffer exactly when the line fills all 120 slots without a NUL and has at most 16 tokens |
| Gshell.Shell.CompleteLine | gshell.c:128-171 | the line-feed path of `_gshell_process`: tokenise, dispatch, clear, prompt; it reads past the buffer under the condition `Split` states |
| Gshell.Shell.ParseArgs | gshell.c:128-142 | `argv` is the first 16 tokens of the buffer and `argc` their number; `overrun` is set under the condition `Split` states |
| Gshell.Shell.ResetInput | gshell.c:166-171 | every buffer slot is NUL, `rx_index` is 0 and the prompt is printed |
| Gshell.Shell.Init | gshell.c:174-186 | the timestamp source is recorded, the shell is active, `help` is registered, the buffer is cleared and CR LF LF is printed |
| Gshell.Shell.ClearBuffer | gshell.c:167 | the memset leaves every buffer slot NUL |
| Gshell.Shell.RegisterCmd | gshell.c:188-201 | the registration as written, returning the new `chain_len` |
| Gshell.Shell.SetActive | gshell.c:203-213 | any non-zero argument activates the shell, zero deactivates it |
| Gshell.Shell.SetPrompt | gshell.c:215-229 | the prompt is printed only when the prompt status goes from off to on; turning it off prints nothing |
| Gshell.Shell.CharReceived | gshell.c:231-259 | CR is dropped even when inactive; inactive returns 3 with no change; backspace removes the last character and echoes `\b \b`, or does nothing on an empty line; a full buffer returns 2 with no change; any other character is echoed and stored, and a line feed completes the line. Only a line feed typed as the 120th character of a NUL-free line with at most 16 tokens makes strtok read past the buffer |
| Gshell.Shell.EraseChar | gshell.c:242-248 | the last character is removed and erased on the terminal |
| Gshell.Shell.StoreChar | gshell.c:256-258 | the character is echoed and appended, and a line feed completes the line; strtok reads past the buffer exactly when that line feed is the 120th character of a NUL-free line with at most 16 tokens |
| Gshell.Shell.Append | gshell.c:256-257 | the character is echoed and stored at `rx_index`, which moves on by one |
| Gshell.Shell.BufferTokensLine | gshell.c:130 | the tokens strtok finds in the buffer are those of the typed line, which stop at its first NUL |
| Gshell.Shell.BufferReadsLine | gshell.c:451 | a read of the buffer as a C string yields the typed line up to its first NUL |
| Gshell.Shell.FullBufferUnterminated | gshell.c:251-257 | once 120 characters without NUL are stored, the buffer holds no terminator |
| Gshell.Shell.BufferNulFree | gshell.c:251-257 | the buffer holds no NUL exactly when the typed line fills all 120 slots and holds none |
| Gshell.Shell.LineEndNotInWord | gshell.c:123-130 | when the line ends in a line feed, the buffer's last slot holds that line feed or a NUL, never a word character |
| Gshell.Shell.LogFlash | gshell.c:415-457 | nothing while inactive; otherwise the erased line, the tag, the timestamp when a source was given, the message, and the prompt with the unsubmitted input up to its first NUL, or a line end; buffer and index unchanged. `overread` is set exactly when the shell is active, the prompt is on and the typed line fills all 120 slots without a NUL |
| Gshell.Shell.LogErase | gshell.c:421-425 | with the prompt on, the line is cleared and the cursor returned |
| Gshell.Shell.LogEntry | gshell.c:427-446 | the level's tag, the timestamp text when a timestamp source was given, and the message |
| Gshell.Shell.LogRestore | gshell.c:448-456 | with the prompt on, the prompt and the typed line up to its first NUL; otherwise CR LF. `overread` is set exactly when the prompt is on and the typed line fills all 120 slots without a NUL |

## Left out

- Formatting with `vsprintf` is not modelled. `gshell_printf` and `gshell_printf_flash` are not modelled: each formats into `vspr_buf` and then calls `gshell_putString`, which is modelled. `LogFlash` takes the formatted message and the formatted `"[%09d] "` timestamp as inputs.
- The `put_char` callback is the field `out`. Of `get_msTimeStamp` only whether it is NULL is kept, in `hasClock`.
- Host handlers are recorded in `calls` with their arguments. What they do, including calling back into the shell, is not modelled.
- AVR flash storage and `strnlen_PF`/`strncmp_PF`: every string is an ordinary sequence of characters.
- Calls of `gshell_log_flash` from an interrupt, interleaved with `gshell_CharReceived`: each call is modelled as atomic.
- main.c and example/example.c, the demo host and the hardware bring-up, are not part of this model.
- Tokenizer.Strtok: the NUL that strtok writes over the delimiter ending a token, and its hidden resume pointer, are not modelled. The scan resumes after the delimiter, and the shell clears the buffer before it is read again. `argv` holds copies of the tokens, not pointers into the buffer.
- Reads past the receive buffer: `Tokenizer.Split`, the methods of `Gshell.Shell` that call it, and `LogRestore`/`LogFlash` report them in ghost results (`overrun`, `overread`). The byte that the C code then reads from the memory after the buffer is not modelled. `argv` and `out` are stated as if that byte were a NUL; in C the behaviour is undefined.
- The strings handed to `gshell_putString` other than the receive buffer (literals, the formatted message and timestamp, a name from `argv`) stand for C strings without their terminator. For them `overread` only says that the sequence holds no NUL; no read past a buffer is meant.
- Gshell.Shell.CharReceived, Gshell.Shell.Process and the lookup and help methods require `WalkSafe()`: walking `chain_len` records never meets a NULL `next`. The C code has no such check. Its lookup loop (gshell.c:89-104) stops at the first match, so it fails only when it reaches the NULL `next` before a match. For example, after `gshell_init`, `gshell_register_cmd(&a)` and `gshell_register_cmd(&b)`, the line `b` runs b's handler. Only `help` (gshell.c:269-286) always walks every record. The model leaves every line feed out of its contracts in a state that is not `WalkSafe()`, including lines the C code handles. As written `WalkSafe()` holds only while at most two records are registered (see Findings).
- Gshell.Shell.Dispatch requires its first argument to be a word, which `ParseArgs` guarantees.
- Gshell.Shell.Process requires `rx_index >= 1`. `_gshell_process` is only reached from `gshell_CharReceived` after a character was stored; called directly on an empty buffer it would read `rx_buf[-1]`.
- A typed NUL (Ctrl-@): `gshell_CharReceived` stores it like any other character (gshell.c:257). Both strtok (gshell.c:130) and the reprint of a log line (gshell.c:451) stop at it. The rest of the line is then neither an argument nor reprinted, and the contracts state it that way, through `Tokens` and `UpToNul`.
- Log levels outside 0 to 5: `gshell_log_flash` takes an `enum glog_level`, and any other value indexes past the end of `console_levels` (gshell.c:427). The datatype `GshellH.LogLevel` has only the six levels, so `LogFlash` cannot be given such a value. `GshellH.LevelOfCode` maps every other code to None.
- Gshell.Shell.constructor requires fewer than 256 static commands, since `gshell_list_num_commands` is a `uint8_t`.
- The terminal model covers printable ASCII, CR, LF, backspace and `ESC [ … final` sequences. The rendering lemmas require printable input, names and descriptions. The two-line help layout is specified by its output text only, not rendered.
- Gshell.SingleLineLayout: states the layout of one entry on a blank line, not of the whole listing on the screen.

## Findings

| source | as written | input that shows it | evidently intended | confidence | as-written member | corrected member |
|---|---|---|---|---|---|---|
| gshell.c:197 | `g_shell.lastChain->next = cmd` without advancing `lastChain`, so every registration after the first overwrites `help`'s `next`, while the lookup and `help` walk `chain_len` records | `gshell_init` (registers `help`), then `gshell_register_cmd(&a)` and `gshell_register_cmd(&b)`: `chain_len` is 3, `help->next` is `b`, `b->next` is NULL, and the third step of the walk dereferences NULL | each new record is linked behind the previous one and becomes `lastChain`, so the walk visits the registered commands in order | not executed | Registry.ThirdRegistrationBreaksWalk | Registry.LinkedChainFollowsOrder |
| gshell.c:130 | `rx_buf` is `G_RX_BUFSIZE` long and the 120th stored character takes its last slot, so no NUL terminates it; strtok (line 130) and `gshell_putString(g_shell.rx_buf)` (line 451) read it as a C string | 119 characters without blank or line feed followed by a line feed: the first strtok ends the token at slot 119 and the next call starts at slot 120, past the buffer; or 120 printable characters and then a log line with the prompt on. The ghost results of `Process`, `StoreChar`, `CharReceived` and `LogFlash` are set on exactly these inputs | the scan and the reprint stop at the end of the typed line | not executed | Gshell.Shell.FullBufferUnterminated | Gshell.Shell.BufferReadsLine |
