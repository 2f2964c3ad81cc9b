# Command editor and configuration parser of `cmdline-ai-helper`

`cmdline-ai-helper` asks a language model for a shell command. It shows the
proposal on one terminal line and lets the user edit it before running it.
This project models two pieces of `ai.py` and proves properties of them.

- **The in-place line editor of `AI.run`.** The buffer starts as the
  proposed command, with the cursor at its end. Before every key, the line
  is redrawn. The keys are:
  - printable characters, which are inserted at the cursor;
  - Backspace (DEL or BS);
  - Delete (ESC `[` `3` plus one more character);
  - Left, Right, Home and End (ESC `[` `D`/`C`/`H`/`F`);
  - Enter (CR), which confirms;
  - ESC followed by anything but `[`, which cancels.

  A buffer that is empty when Enter is pressed falls back to the original
  proposal.
- **The line parser of `AI.load_config`.** Each line is stripped. Blank
  lines and `#` comments are skipped. Every other line is split at its
  first `=`, and both halves are stripped. Later settings win. A line with
  no `=` produces a warning. `DEFAULT_PROVIDER` and `DEFAULT_MODEL` are
  required.

Modules:

- `Keys` (`keys.dfy`): a pure decoder from pending input to one key event
  and the number of characters the event consumed. A canonical `Encode`
  serves as its inverse.
- `Edit` (`edit.dfy`): the effect of each key on a (text, cursor) value,
  `Apply`. The class `LineBuffer` holds the mutable `input_text` and
  `position`, and each of its methods is proved against `Apply`.
- `Display` (`render.dfy`): the output written before each key is read.
  It also holds a small terminal-line model that interprets exactly the
  control sequences used, and gives every character one cell. On that
  model, the output is proved to show printable buffer text with the
  cursor at its position.
- `Session` (`session.dfy`): the edit loop.
  - `Continue` is the loop as a recursive function of the line and the
    unread input. It yields the outcome and every frame drawn.
  - `EditCommand` is the `while` loop over a `LineBuffer`, proved to
    produce exactly that trace.
- `Config` (`config.dfy`): the parser.
  - `ParseLine` handles one line.
  - `Collect` and `Scan` fold the parsed lines into settings and warnings.
  - `AI.LoadConfig` is the loop that updates the `config` field.

Some behaviours of the code worth knowing, which the model follows:

- A line feed is not Enter. Only CR (13) confirms; LF is dropped.
- After ESC `[` `3`, the fourth character is read and dropped, whatever it
  is. ESC `[` followed by any other unknown character consumes three
  characters. So for Page Up (ESC `[` `5` `~`), the `~` is then inserted
  as text (`Keys.DecodeTildeLeftOver`).
- On the seed `ls -la`, three Left presses put the cursor at index 3,
  before `-`. Typing `x` then gives `ls x-la`, not `ls -xla`. `ls -xla`
  takes two Left presses (`Session.ScenarioThreeLefts`,
  `Session.ScenarioTwoLefts`).
- Python's `str.strip()` removes every character for which `str.isspace`
  holds, not only blanks and tabs. `Config.IsSpace` lists that set.

## Model

| member | source | states |
|---|---|---|
| Keys.Printable | ai.py:224 | the characters that are inserted: code point 32 or above, other than DEL, which is Backspace; `Edit.ApplyKeepsPrintable` and `Session.Continue` use it |
| Keys.Decode | ai.py:194-226 | a decoded key used between 1 and all of the pending characters; the input runs out exactly when it is empty, a lone ESC, ESC `[`, or ESC `[` `3` |
| Keys.DecodeEncode | ai.py:196-226 | for every key a terminal can send, decoding its spelling followed by anything yields that key, having consumed exactly the spelling |
| Keys.DecodeLooksOnlyAtConsumed | ai.py:194-226 | the key decoded depends only on the characters it consumed, so decoding resynchronises after every key |
| Keys.DecodeEnterIffCR | ai.py:216-217 | Enter is decoded if and only if the input starts with CR; a leading LF is an ignored key |
| Keys.DecodeBareEscape | ai.py:196-214 | ESC followed by any character other than `[` is the cancel key and consumes two characters |
| Keys.DecodeUnknownCsi | ai.py:198-211 | ESC `[` followed by a character other than D, C, H, F and 3 is ignored, after consuming three characters |
| Keys.DecodeDeleteAnyTail | ai.py:208-211 | ESC `[` `3` followed by any fourth character is Delete and consumes all four |
| Keys.DecodeBackspace | ai.py:219 | both DEL (127) and BS (8) decode to Backspace, after consuming one character |
| Keys.DecodeControlIgnored | ai.py:196-226 | a control character other than BS, CR and ESC is ignored, after consuming one character |
| Keys.DecodeTildeLeftOver | ai.py:198-226 | ESC `[` `5` `~` is an ignored three-character key, after which `~` is decoded as a character to insert |
| Edit.InsertAt | ai.py:225 | the result is one longer, holds `c` at the cursor index, and keeps the characters before and after it in order |
| Edit.RemoveAt | ai.py:221 | the result is one shorter, keeps the characters before the index and shifts those after it down by one |
| Edit.RemoveInsert | ai.py:211-225 | removing the character at the index where one was inserted gives back the original text |
| Edit.Apply | ai.py:200-226 | every key keeps the cursor within 0 and the length of the text |
| Edit.CursorKeys | ai.py:200-207 | Left, Right, Home and End never change the text; Left stops at 0 and Right at the end, and otherwise each moves by one; Home goes to 0 and End to the end |
| Edit.BackspaceEffect | ai.py:219-222 | Backspace at column 0 changes nothing; elsewhere it removes the character before the cursor and moves the cursor back by one |
| Edit.DeleteEffect | ai.py:208-211 | Delete at the end changes nothing; elsewhere it removes the character under the cursor and keeps the cursor |
| Edit.InsertEffect | ai.py:224-226 | a character is inserted before the cursor and the cursor advances past it |
| Edit.NonEditingKeys | ai.py:196-226 | Enter, cancel and ignored keys leave text and cursor unchanged |
| Edit.InsertLeftDeleteRoundTrip | ai.py:200-226 | typing a character, then Left, then Delete restores both the text and the cursor |
| Edit.ApplyKeepsPrintable | ai.py:224-226 | a line holding only printable characters still does after any key whose inserted character is printable |
| Edit.LineBuffer.constructor | ai.py:176-177 | the buffer starts as the proposed command, with the cursor at its end |
| Edit.LineBuffer.Insert | ai.py:224-226 | the buffer becomes the insertion of `c` at the old position, and the position moves on by one |
| Edit.LineBuffer.Backspace | ai.py:219-222 | at position 0 the buffer is unchanged; otherwise the character before the position is removed and the position decreases by one |
| Edit.LineBuffer.Delete | ai.py:208-211 | the position is kept; the character under it is removed unless the position is at the end |
| Edit.LineBuffer.Left | ai.py:200-201 | the text is unchanged and the position decreases by one, but not below 0 |
| Edit.LineBuffer.Right | ai.py:202-203 | the text is unchanged and the position increases by one, but not past the end |
| Edit.LineBuffer.Home | ai.py:204-205 | the text is unchanged and the position is 0 |
| Edit.LineBuffer.End | ai.py:206-207 | the text is unchanged and the position is the length of the text |
| Edit.LineBuffer.Press | ai.py:196-226 | the new buffer state is the effect `Apply` gives the key on the old state |
| Display.Decimal | ai.py:191 | the spelling of the cursor column is a non-empty run of digits, with no leading zero except for 0 itself |
| Display.DecimalRoundTrip | ai.py:191 | reading the decimal spelling of a column back gives that column |
| Display.CursorForward | ai.py:190-191 | the cursor-forward sequence for column `n` moves the cursor right by exactly `n` |
| Display.FeedText | ai.py:187 | printable text written at the end of the line is appended to it, with the cursor after it |
| Display.Render | ai.py:185-191 | the output written before each read: carriage return, clear to end of line, the text, carriage return, and the cursor-forward sequence when the position is not 0; `RenderShows` states what it does to the terminal line |
| Display.RenderShows | ai.py:185-192 | for printable text, whatever the line showed before, after the rendered output it shows exactly the buffer text, with the cursor at the buffer position |
| Session.Continue | ai.py:183-226 | a session from any line draws at least one frame, and the first frame shows that line; a confirmed command is empty only if the proposal was; a printable proposal and line confirm a printable command |
| Session.EditSession | ai.py:176-226 | a session starts from the proposal with the cursor at its end and runs the loop; `EditCommand` is proved to compute it |
| Session.EnterConfirms | ai.py:216-233 | Enter on any line confirms its text, or the original proposal when the line is empty |
| Session.BackspaceAtEnd | ai.py:219-222 | one Backspace at the end of a non-empty line drops its last character before the loop goes on |
| Session.BackspacesFromEnd | ai.py:219-222 | `k` Backspaces from the end of a line remove its last `k` characters before the loop goes on |
| Session.BlankedLineConfirmsProposal | ai.py:219-233 | for every proposal, erasing it with Backspaces and pressing Enter confirms the proposal unchanged |
| Session.EditCommand | ai.py:176-233 | the loop over the mutable buffer ends with exactly the outcome and the frames of the session function on its input |
| Session.ImmediateEnter | ai.py:216-233 | Enter as the first key confirms the proposed command unchanged |
| Session.EscapeCancels | ai.py:196-214 | ESC followed by anything but `[` cancels, whatever the line holds |
| Session.TruncatedInputCancels | ai.py:194-199 | input that ends, even in the middle of an escape sequence, ends the session as cancelled after one more frame |
| Session.NoCarriageReturnNoConfirm | ai.py:216-217 | input without a carriage return never confirms |
| Session.ContinueStep | ai.py:183-226 | an editing or cursor key is applied to the line and the loop carries on with the rest of the input |
| Session.InsertLeftDeleteInSession | ai.py:200-226 | typing a character, Left and Delete in a session leads to the same outcome as not typing them |
| Session.ScenarioThreeLefts | ai.py:176-226 | seed `ls -la`, three Lefts, `x`, Enter confirms `ls x-la` |
| Session.ScenarioTwoLefts | ai.py:176-226 | seed `ls -la`, two Lefts, `x`, Enter confirms `ls -xla` |
| Session.ScenarioDeleteAtHome | ai.py:204-217 | seed `rm file`, Home, Delete twice, Enter confirms ` file` |
| Session.ScenarioEscape | ai.py:196-214 | seed `echo hi`, ESC and any character but `[` cancels |
| Session.ScenarioBlankedLine | ai.py:219-233 | erasing the whole proposal and pressing Enter confirms the original proposal |
| Config.IsSpace | ai.py:41 | the characters Python's `str.isspace` accepts, which `str.strip()` removes; `TrimStart`, `TrimEnd` and `Strip` are stated in terms of it |
| Config.TrimStart | ai.py:41 | the result is a suffix of the line, everything dropped is whitespace, and it does not start with whitespace |
| Config.TrimEnd | ai.py:41 | the result is a prefix of the line, everything dropped is whitespace, and it does not end with whitespace |
| Config.Strip | ai.py:41 | the stripped line neither starts nor ends with whitespace |
| Config.StripIsSlice | ai.py:41 | the stripped line is a contiguous slice of the line, starting after the leading whitespace |
| Config.StripDropsSpaceOnRight | ai.py:41 | everything after the stripped slice is whitespace |
| Config.StripIdempotent | ai.py:41-45 | stripping a stripped string changes nothing |
| Config.FirstIndex | ai.py:44 | there is no index exactly when `=` does not occur; otherwise the index holds `=` and no `=` occurs before it |
| Config.ParseLine | ai.py:41-47 | a line is skipped exactly when it is blank or a comment once stripped; it is malformed exactly when it is neither and has no `=`, and its warning text is the stripped line |
| Config.ParseLineSetting | ai.py:44-45 | a line whose stripped text has its first `=` at index `i` sets the stripped text before `i` to the stripped text after it |
| Config.FirstIsUnique | ai.py:44 | the split is at the first `=` |
| Config.Absorb | ai.py:42-47 | one parsed line's effect on the settings and warnings read so far; `CollectPrefix` ties it to the loop |
| Config.Collect | ai.py:40-47 | the settings and warnings of a sequence of parsed lines, read in order; `CollectKeys`, `LastSettingWins`, `SkippedLineIrrelevant` and `WarningsAreMalformedLines` give it its meaning |
| Config.Scan | ai.py:39-47 | the settings and warnings of the file's raw lines; `ConfiguredKeys` and `UnsetKeyAbsent` state what it holds, and `AI.LoadConfig` is proved to compute it |
| Config.CollectPrefix | ai.py:40-47 | reading one more line updates the settings and warnings from those of the lines before it |
| Config.CollectKeys | ai.py:40-45 | a key is configured if and only if some line sets it |
| Config.LastSettingWins | ai.py:44-45 | the value of a key is the one from the last line that sets it |
| Config.SkippedLineIrrelevant | ai.py:42 | inserting a blank or comment line anywhere changes neither settings nor warnings |
| Config.ParseAllAppend | ai.py:40 | parsing two blocks of lines is parsing each block |
| Config.ConfiguredKeys | ai.py:40-45 | for raw file lines, the value of a key is the stripped value on the last line that sets it |
| Config.UnsetKeyAbsent | ai.py:40-45 | a key that no line sets is not configured |
| Config.WarningsAreMalformedLines | ai.py:46-47 | a warning is produced if and only if some line is malformed with that text |
| Config.AI.constructor | ai.py:15-18 | the object's state before `LoadConfig`, which stands for the call to `load_config` that `__init__` makes: the configuration is empty |
| Config.AI.LoadConfig | ai.py:36-51 | the configuration and the warnings are those of the file's lines; the missing keys are the required ones not configured, and none is missing exactly when DEFAULT_PROVIDER and DEFAULT_MODEL are both set |

## Left out

- Calling the language model (`call_llm`, the provider calls, `make_request`, JSON): network I/O. The proposal enters the model as the `command` parameter.
- Building the prompt (`get_prompt`) and detecting the OS: string templates and platform calls outside the editor.
- Raw terminal mode (`termios`, `tty.setraw`) and restoring the settings in `finally`: terminal I/O. The keys the terminal delivers are the `input` parameter.
- `get_char` blocking on each read: a finite input is modelled instead. When it ends, even inside an escape sequence, the session ends as Cancelled. The source would wait for more input.
- Session.EditCommand: the messages printed around the editor (the instructions, "Cancelled.", the final newline) and `flush` are not modelled. Only the redraw frames are.
- Running the confirmed command through a subprocess, its environment (`TERM`) and the exit code of `run` and `main`: process execution.
- Config.AI.LoadConfig: the missing-file `FileNotFoundError`, opening and splitting the file into lines, and the printing of warnings are not modelled. The lines arrive as a sequence and the warnings are returned. Raising `ValueError` for missing keys is modelled as returning the non-empty set of missing keys.
- Display.RenderShows: the terminal model covers one line, without a width, line wrapping or other control sequences. Every character is taken to fill one cell. With wide or zero-width characters, the source's cursor move counts characters, not cells, and so misplaces the cursor; the model does not capture this. The proof is for printable text only. The proposal enters the buffer unfiltered, so a tab, line feed or other control character in it is written out as is, and what the terminal then shows is not modelled.
