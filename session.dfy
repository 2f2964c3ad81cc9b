/**
 * The `while True` edit loop of `AI.run`: render, read a key, apply it;
 * Enter confirms the buffer (or the original command when the buffer is
 * empty) and ESC followed by anything but '[' cancels.
 *
 * `Continue` is the loop as a function of the current line and the input
 * still unread, producing the outcome and the frames drawn; `EditCommand`
 * is the loop itself over a `LineBuffer`, proved to produce exactly that.
 * The input is finite here: when it runs out, even in the middle of an
 * escape sequence, the session ends as Cancelled.
 */
module Session {
  import opened Keys
  import opened Edit
  import opened Display

  datatype Outcome = Confirmed(command: string) | Cancelled

  /** How a session ended, and every line it drew, in order. */
  datatype Trace = Trace(outcome: Outcome, frames: seq<string>)

  /** The text handed to the shell on Enter. */
  function ConfirmedText(command: string, text: string): string
  {
    if text == [] then command else text
  }

  /** The loop from line `l` with `input` still to be read.  Each round
      draws one frame before reading. */
  function Continue(command: string, l: Line, input: string): (r: Trace)
    requires l.Valid()
    ensures 1 <= |r.frames| && r.frames[0] == Render(l.text, l.cursor)
    ensures r.outcome.Confirmed? && r.outcome.command == [] ==> command == []
    ensures (r.outcome.Confirmed? && AllPrintable(command) && AllPrintable(l.text))
      ==> AllPrintable(r.outcome.command)
    decreases |input|
  {
    var frame := Render(l.text, l.cursor);
    match Decode(input)
    case Exhausted => Trace(Cancelled, [frame])
    case Key(e, n) =>
      if e == Enter then Trace(Confirmed(ConfirmedText(command, l.text)), [frame])
      else if e == Cancel then Trace(Cancelled, [frame])
      else
        ApplyKeepsPrintableFromInput(l, input);
        var t := Continue(command, Apply(l, e), input[n..]);
        Trace(t.outcome, [frame] + t.frames)
  }

  /** The decoder only yields printable characters to insert. */
  lemma ApplyKeepsPrintableFromInput(l: Line, input: string)
    requires l.Valid() && Decode(input).Key?
    ensures AllPrintable(l.text) ==> AllPrintable(Apply(l, Decode(input).event).text)
  {
    if AllPrintable(l.text) {
      ApplyKeepsPrintable(l, Decode(input).event);
    }
  }

  /** One round of the loop, for a key that does not end it. */
  lemma ContinueUnfold(command: string, l: Line, input: string)
    requires l.Valid() && Decode(input).Key?
    requires Decode(input).event != Enter && Decode(input).event != Cancel
    ensures var k := Decode(input);
      var t := Continue(command, Apply(l, k.event), input[k.consumed..]);
      Continue(command, l, input) == Trace(t.outcome, [Render(l.text, l.cursor)] + t.frames)
  {
  }

  /** A whole session: the buffer starts as the proposed command with the
      cursor at its end. */
  function EditSession(command: string, input: string): Trace
  {
    Continue(command, Line(command, |command|), input)
  }

  /** `t` with `drawn` drawn before its frames. */
  function After(drawn: seq<string>, t: Trace): Trace
  {
    Trace(t.outcome, drawn + t.frames)
  }

  /** Drawing one more frame and continuing from the next round is the
      same trace as continuing from this round. */
  lemma AfterRound(drawn: seq<string>, frame: string, t: Trace)
    ensures After(drawn + [frame], t) == After(drawn, Trace(t.outcome, [frame] + t.frames))
  {
    assert drawn + [frame] + t.frames == drawn + ([frame] + t.frames);
  }

  /** The edit loop, on a mutable buffer. */
  method EditCommand(command: string, input: string) returns (outcome: Outcome, frames: seq<string>)
    ensures Trace(outcome, frames) == EditSession(command, input)
  {
    var buffer := new LineBuffer(command);
    var i := 0;
    frames := [];
    while true
      invariant 0 <= i <= |input| && buffer.Valid()
      invariant After(frames, Continue(command, buffer.State(), input[i..])) == EditSession(command, input)
      decreases |input| - i
    {
      ghost var before := buffer.State();
      var frame := Render(buffer.text, buffer.position);
      frames := frames + [frame];
      var key := Decode(input[i..]);
      if key.Exhausted? {
        outcome := Cancelled;
        return;
      }
      var e, n := key.event, key.consumed;
      if e == Enter {
        break;
      }
      if e == Cancel {
        outcome := Cancelled;
        return;
      }
      buffer.Press(e);
      assert input[i..][n..] == input[i + n..];
      ContinueUnfold(command, before, input[i..]);
      AfterRound(frames[..|frames| - 1], frame, Continue(command, buffer.State(), input[i + n..]));
      assert frames[..|frames| - 1] + [frame] == frames;
      i := i + n;
    }
    outcome := Confirmed(if buffer.text == [] then command else buffer.text);
  }

  /** An Enter straight away confirms the proposed command unchanged
      (an empty proposal included). */
  lemma ImmediateEnter(command: string, rest: string)
    ensures EditSession(command, [CR] + rest).outcome == Confirmed(command)
  {
    assert ([CR] + rest)[0] == CR;
  }

  /** ESC followed by anything but '[' cancels, whatever the line holds. */
  lemma EscapeCancels(command: string, l: Line, x: char, rest: string)
    requires l.Valid() && x != '['
    ensures Continue(command, l, [ESC, x] + rest).outcome == Cancelled
  {
    DecodeBareEscape(x, rest);
  }

  /** Input that runs out, including in the middle of an escape sequence,
      ends the session as Cancelled. */
  lemma TruncatedInputCancels(command: string, l: Line, input: string)
    requires l.Valid() && Truncated(input)
    ensures Continue(command, l, input) == Trace(Cancelled, [Render(l.text, l.cursor)])
  {
  }

  /** Only a carriage return confirms: input without one never does. */
  lemma {:induction false} NoCarriageReturnNoConfirm(command: string, l: Line, input: string)
    requires l.Valid() && CR !in input
    ensures Continue(command, l, input).outcome == Cancelled
    decreases |input|
  {
    match Decode(input)
    case Exhausted =>
    case Key(e, n) =>
      DecodeEnterIffCR(input);
      if e != Enter && e != Cancel {
        assert CR !in input[n..] by {
          forall k | 0 <= k < |input[n..]| ensures input[n..][k] != CR {
            assert input[n..][k] == input[n + k];
          }
        }
        NoCarriageReturnNoConfirm(command, Apply(l, e), input[n..]);
      }
  }

  /** One key that edits or moves is applied and the loop goes on. */
  lemma ContinueStep(command: string, l: Line, e: KeyEvent, rest: string)
    requires l.Valid() && Encodable(e) && e != Enter && e != Cancel
    ensures Continue(command, l, Encode(e) + rest).outcome == Continue(command, Apply(l, e), rest).outcome
  {
    DecodeEncode(e, rest);
    assert (Encode(e) + rest)[|Encode(e)|..] == rest;
  }

  /** Typing a character, then Left, then Delete leads to the same outcome
      as not typing them at all. */
  lemma InsertLeftDeleteInSession(command: string, l: Line, c: char, rest: string)
    requires l.Valid() && Printable(c)
    ensures Continue(command, l, Encode(Char(c)) + Encode(ArrowLeft) + Encode(Delete) + rest).outcome
         == Continue(command, l, rest).outcome
  {
    var l1 := Apply(l, Char(c));
    var l2 := Apply(l1, ArrowLeft);
    assert Encode(Char(c)) + Encode(ArrowLeft) + Encode(Delete) + rest
        == Encode(Char(c)) + (Encode(ArrowLeft) + (Encode(Delete) + rest));
    ContinueStep(command, l, Char(c), Encode(ArrowLeft) + (Encode(Delete) + rest));
    ContinueStep(command, l1, ArrowLeft, Encode(Delete) + rest);
    ContinueStep(command, l2, Delete, rest);
    InsertLeftDeleteRoundTrip(l, c);
  }

  /** `s` repeated `k` times. */
  function Repeat(s: string, k: nat): string
  {
    if k == 0 then [] else s + Repeat(s, k - 1)
  }

  /** Enter confirms the line, or the proposal when the line is empty. */
  lemma EnterConfirms(command: string, l: Line, rest: string)
    requires l.Valid()
    ensures l.text != [] ==> Continue(command, l, [CR] + rest).outcome == Confirmed(l.text)
    ensures l.text == [] ==> Continue(command, l, [CR] + rest).outcome == Confirmed(command)
  {
    assert ([CR] + rest)[0] == CR;
  }

  /** One Backspace at the end of a non-empty line drops its last
      character. */
  lemma BackspaceAtEnd(command: string, t: string, tail: string)
    requires |t| > 0
    ensures Continue(command, Line(t, |t|), Encode(Backspace) + tail).outcome
         == Continue(command, Line(t[..|t| - 1], |t| - 1), tail).outcome
  {
    var l := Line(t, |t|);
    var input := Encode(Backspace) + tail;
    DecodeBackspace(DEL, tail);
    assert input == [DEL] + tail && input[1..] == tail;
    BackspaceEffect(l);
    assert t[..|t| - 1] + t[|t|..] == t[..|t| - 1];
    ContinueUnfold(command, l, input);
  }

  /** `k` Backspaces from the end of a line remove its last `k`
      characters. */
  lemma {:induction false} BackspacesFromEnd(command: string, t: string, k: nat, rest: string)
    requires k <= |t|
    ensures Continue(command, Line(t, |t|), Repeat(Encode(Backspace), k) + rest).outcome
         == Continue(command, Line(t[..|t| - k], |t| - k), rest).outcome
    decreases k
  {
    var b := Encode(Backspace);
    RepeatThenRest(b, k, rest);
    PrefixOfPrefix(t, k);
    if k > 0 {
      BackspaceAtEnd(command, t, Repeat(b, k - 1) + rest);
      BackspacesFromEnd(command, t[..|t| - 1], k - 1, rest);
    }
  }

  lemma RepeatThenRest(s: string, k: nat, rest: string)
    ensures k == 0 ==> Repeat(s, k) + rest == rest
    ensures k > 0 ==> Repeat(s, k) + rest == s + (Repeat(s, k - 1) + rest)
  {
    if k == 0 {
      assert [] + rest == rest;
    }
  }

  lemma PrefixOfPrefix(t: string, k: nat)
    requires k <= |t|
    ensures k == 0 ==> t[..|t| - k] == t
    ensures k > 0 ==> t[..|t| - 1][..|t| - k] == t[..|t| - k]
  {
  }

  /** Erasing the whole proposal and pressing Enter runs the proposal
      unchanged, whatever it was. */
  lemma BlankedLineConfirmsProposal(command: string)
    ensures EditSession(command, Repeat(Encode(Backspace), |command|) + [CR]).outcome == Confirmed(command)
  {
    BackspacesFromEnd(command, command, |command|, [CR]);
    EnterConfirms(command, Line([], 0), []);
    assert [CR] + [] == [CR];
  }

  /** Seed "ls -la", Left three times, 'x', Enter.  Three Lefts from the
      end put the cursor at 3, before '-', so "ls x-la" is confirmed. */
  lemma ScenarioThreeLefts()
    ensures EditSession("ls -la", Encode(ArrowLeft) + Encode(ArrowLeft) + Encode(ArrowLeft)
                              + Encode(Char('x')) + Encode(Enter)).outcome
         == Confirmed("ls x-la")
  {
    var l0 := Line("ls -la", 6);
    var l1 := Apply(l0, ArrowLeft);
    var l2 := Apply(l1, ArrowLeft);
    var l3 := Apply(l2, ArrowLeft);
    var l4 := Apply(l3, Char('x'));
    assert l3 == Line("ls -la", 3);
    assert l4.text == "ls x-la";
    assert Encode(ArrowLeft) + Encode(ArrowLeft) + Encode(ArrowLeft) + Encode(Char('x')) + Encode(Enter)
        == Encode(ArrowLeft) + (Encode(ArrowLeft) + (Encode(ArrowLeft) + (Encode(Char('x')) + Encode(Enter))));
    ContinueStep("ls -la", l0, ArrowLeft, Encode(ArrowLeft) + (Encode(ArrowLeft) + (Encode(Char('x')) + Encode(Enter))));
    ContinueStep("ls -la", l1, ArrowLeft, Encode(ArrowLeft) + (Encode(Char('x')) + Encode(Enter)));
    ContinueStep("ls -la", l2, ArrowLeft, Encode(Char('x')) + Encode(Enter));
    ContinueStep("ls -la", l3, Char('x'), Encode(Enter));
  }

  /** Seed "ls -la", Left twice, 'x', Enter: "ls -xla" is confirmed. */
  lemma ScenarioTwoLefts()
    ensures EditSession("ls -la", Encode(ArrowLeft) + Encode(ArrowLeft)
                              + Encode(Char('x')) + Encode(Enter)).outcome
         == Confirmed("ls -xla")
  {
    var l0 := Line("ls -la", 6);
    var l1 := Apply(l0, ArrowLeft);
    var l2 := Apply(l1, ArrowLeft);
    var l3 := Apply(l2, Char('x'));
    assert l2 == Line("ls -la", 4);
    assert l3.text == "ls -xla";
    assert Encode(ArrowLeft) + Encode(ArrowLeft) + Encode(Char('x')) + Encode(Enter)
        == Encode(ArrowLeft) + (Encode(ArrowLeft) + (Encode(Char('x')) + Encode(Enter)));
    ContinueStep("ls -la", l0, ArrowLeft, Encode(ArrowLeft) + (Encode(Char('x')) + Encode(Enter)));
    ContinueStep("ls -la", l1, ArrowLeft, Encode(Char('x')) + Encode(Enter));
    ContinueStep("ls -la", l2, Char('x'), Encode(Enter));
  }

  /** Seed "rm file", Home, Delete twice, Enter: " file" is confirmed. */
  lemma ScenarioDeleteAtHome()
    ensures EditSession("rm file", Encode(Home) + Encode(Delete) + Encode(Delete) + Encode(Enter)).outcome
         == Confirmed(" file")
  {
    var l0 := Line("rm file", 7);
    var l1 := Apply(l0, Home);
    var l2 := Apply(l1, Delete);
    var l3 := Apply(l2, Delete);
    assert l2 == Line("m file", 0);
    assert l3 == Line(" file", 0);
    var input := Encode(Home) + (Encode(Delete) + (Encode(Delete) + Encode(Enter)));
    assert Encode(Home) + Encode(Delete) + Encode(Delete) + Encode(Enter) == input;
    ContinueStep("rm file", l0, Home, Encode(Delete) + (Encode(Delete) + Encode(Enter)));
    ContinueStep("rm file", l1, Delete, Encode(Delete) + Encode(Enter));
    ContinueStep("rm file", l2, Delete, Encode(Enter));
    assert Continue("rm file", l3, Encode(Enter)).outcome == Confirmed(" file");
  }

  /** Seed "echo hi", ESC then a character other than '[': Cancelled. */
  lemma ScenarioEscape(x: char)
    requires x != '['
    ensures EditSession("echo hi", [ESC, x]).outcome == Cancelled
  {
    EscapeCancels("echo hi", Line("echo hi", 7), x, []);
    assert [ESC, x] + [] == [ESC, x];
  }

  /** Blanking the line and pressing Enter runs the original proposal. */
  lemma ScenarioBlankedLine()
    ensures EditSession("ls", Encode(Backspace) + Encode(Backspace) + Encode(Enter)).outcome
         == Confirmed("ls")
  {
    var l0 := Line("ls", 2);
    var l1 := Apply(l0, Backspace);
    var l2 := Apply(l1, Backspace);
    assert l2 == Line("", 0);
    assert Encode(Backspace) + Encode(Backspace) + Encode(Enter)
        == Encode(Backspace) + (Encode(Backspace) + Encode(Enter));
    ContinueStep("ls", l0, Backspace, Encode(Backspace) + Encode(Enter));
    ContinueStep("ls", l1, Backspace, Encode(Enter));
  }
}
