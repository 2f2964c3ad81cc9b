/**
 * Redrawing the command line after every key.  The editor writes
 * carriage return, clear-to-end-of-line, the text, carriage return and,
 * when the cursor is not at column 0, a cursor-forward sequence with the
 * column in decimal.
 *
 * To say what that output means, the module also holds a small model of
 * a single terminal line (`Screen`, `Feed`) that understands exactly
 * those control sequences, and proves that feeding it the rendered
 * output shows the text with the cursor at the buffer's position.
 */
module Display {
  import opened Keys

  predicate IsDigit(c: char) {
    '0' <= c <= '9'
  }

  predicate AllDigits(s: string) {
    forall i :: 0 <= i < |s| ==> IsDigit(s[i])
  }

  function DigitChar(d: nat): (c: char)
    requires d < 10
    ensures IsDigit(c) && c as int - '0' as int == d
  {
    (('0' as int) + d) as char
  }

  /** The decimal spelling of `n`, as Python's `str` gives it: no leading
      zero except for 0 itself. */
  function Decimal(n: nat): (r: string)
    ensures |r| >= 1 && AllDigits(r)
    ensures r[0] == '0' ==> n == 0
    decreases n
  {
    if n < 10 then [DigitChar(n)] else Decimal(n / 10) + [DigitChar(n % 10)]
  }

  /** The number a string of digits stands for. */
  function DecimalValue(s: string): nat
    requires AllDigits(s)
    decreases |s|
  {
    if |s| == 0 then 0
    else DecimalValue(s[..|s| - 1]) * 10 + (s[|s| - 1] as int - '0' as int)
  }

  lemma {:induction false} DecimalRoundTrip(n: nat)
    ensures DecimalValue(Decimal(n)) == n
    decreases n
  {
    var r := Decimal(n);
    if n >= 10 {
      assert r[..|r| - 1] == Decimal(n / 10);
      DecimalRoundTrip(n / 10);
    }
  }

  /** The output written before each read of a key. */
  function Render(text: string, position: nat): string
  {
    ['\r'] + [ESC, '[', 'K'] + text + ['\r']
    + (if position > 0 then [ESC, '['] + Decimal(position) + ['C'] else [])
  }

  /** One terminal line: what it shows and the cursor column. */
  datatype Screen = Screen(line: string, col: nat)

  function Spaces(n: nat): (r: string)
    ensures |r| == n && forall i :: 0 <= i < n ==> r[i] == ' '
  {
    if n == 0 then [] else Spaces(n - 1) + [' ']
  }

  /** An ordinary character overwrites the cell under the cursor (blank
      cells are filled in when the cursor is past the end) and advances. */
  function Put(s: Screen, c: char): Screen
  {
    if s.col < |s.line| then Screen(s.line[s.col := c], s.col + 1)
    else Screen(s.line + Spaces(s.col - |s.line|) + [c], s.col + 1)
  }

  /** The length of the run of digits `s` starts with. */
  function DigitRun(s: string): (n: nat)
    ensures n <= |s| && AllDigits(s[..n])
    ensures n < |s| ==> !IsDigit(s[n])
  {
    if |s| > 0 && IsDigit(s[0]) then
      var n := 1 + DigitRun(s[1..]);
      assert forall i :: 1 <= i < n ==> s[..n][i] == s[1..][..n - 1][i - 1];
      n
    else 0
  }

  /** The terminal line after it receives `out`: carriage return goes to
      column 0, ESC '[' 'K' erases from the cursor to the end of the line,
      ESC '[' digits 'C' moves the cursor right by that many columns, and
      every other character is written at the cursor. */
  function Feed(s: Screen, out: string): Screen
    decreases |out|
  {
    if |out| == 0 then s
    else if out[0] == '\r' then Feed(Screen(s.line, 0), out[1..])
    else if out[0] == ESC && |out| >= 3 && out[1] == '[' && out[2] == 'K' then
      Feed(Screen(s.line[..if s.col <= |s.line| then s.col else |s.line|], s.col), out[3..])
    else if out[0] == ESC && |out| >= 2 && out[1] == '['
         && 0 < DigitRun(out[2..]) && 2 + DigitRun(out[2..]) < |out|
         && out[2 + DigitRun(out[2..])] == 'C' then
      var n := DigitRun(out[2..]);
      assert out[2..2 + n] == out[2..][..n];
      Feed(Screen(s.line, s.col + DecimalValue(out[2..2 + n])), out[3 + n..])
    else Feed(Put(s, out[0]), out[1..])
  }

  /** Printable text written at the end of the line is appended to it. */
  lemma {:induction false} FeedText(line: string, text: string, rest: string)
    requires AllPrintable(text)
    ensures Feed(Screen(line, |line|), text + rest) == Feed(Screen(line + text, |line + text|), rest)
    decreases |text|
  {
    if |text| > 0 {
      var out := text + rest;
      assert out[0] == text[0] && out[1..] == text[1..] + rest;
      assert Printable(text[0]);
      assert Put(Screen(line, |line|), text[0]) == Screen(line + [text[0]], |line| + 1);
      assert AllPrintable(text[1..]) by {
        forall i | 0 <= i < |text[1..]| ensures Printable(text[1..][i]) {
          assert text[1..][i] == text[i + 1];
        }
      }
      FeedText(line + [text[0]], text[1..], rest);
      assert line + [text[0]] + text[1..] == line + text;
    } else {
      assert text + rest == rest && line + text == line;
    }
  }

  /** The cursor-forward sequence for `n` moves the cursor right by `n`. */
  lemma CursorForward(s: Screen, n: nat)
    requires n > 0
    ensures Feed(s, [ESC, '['] + Decimal(n) + ['C']) == Screen(s.line, s.col + n)
  {
    var d := Decimal(n);
    var out := [ESC, '['] + d + ['C'];
    assert out[2..] == d + ['C'];
    DigitRunStops(d, ['C']);
    assert out[2..2 + |d|] == d;
    assert out[2 + |d|] == 'C';
    DecimalRoundTrip(n);
    assert out[3 + |d|..] == [];
  }

  lemma {:induction false} DigitRunStops(d: string, rest: string)
    requires AllDigits(d)
    requires |rest| > 0 && !IsDigit(rest[0])
    ensures DigitRun(d + rest) == |d|
    decreases |d|
  {
    if |d| > 0 {
      assert (d + rest)[0] == d[0] && (d + rest)[1..] == d[1..] + rest;
      DigitRunStops(d[1..], rest);
    } else {
      assert d + rest == rest;
    }
  }

  /** Whatever the line showed before, after the rendered output it shows
      exactly the buffer text, with the cursor at the buffer's position. */
  lemma RenderShows(s: Screen, text: string, position: nat)
    requires position <= |text| && AllPrintable(text)
    ensures Feed(s, Render(text, position)) == Screen(text, position)
  {
    var move := if position > 0 then [ESC, '['] + Decimal(position) + ['C'] else [];
    var out := Render(text, position);
    assert out == ['\r'] + ([ESC, '[', 'K'] + (text + (['\r'] + move)));
    var tail := text + (['\r'] + move);
    calc {
      Feed(s, out);
      Feed(Screen(s.line, 0), [ESC, '[', 'K'] + tail);
      { assert ([ESC, '[', 'K'] + tail)[3..] == tail; }
      Feed(Screen([], 0), tail);
      { FeedText([], text, ['\r'] + move); assert [] + text == text; }
      Feed(Screen(text, |text|), ['\r'] + move);
      { assert (['\r'] + move)[1..] == move; }
      Feed(Screen(text, 0), move);
    }
    if position > 0 {
      CursorForward(Screen(text, 0), position);
    }
  }
}
