/**
 * Keystroke decoding for the command editor of `AI.run`.
 *
 * The editor reads one character at a time from a raw-mode terminal and
 * recognises a handful of escape sequences inline.  Here that logic is a
 * pure decoder from the pending input to one key event plus the number of
 * characters the event consumed.  A finite input that ends in the middle
 * of a key is reported as `Exhausted`; the original blocks on the read.
 */
module Keys {

  const ESC: char := '\U{1B}'
  const CR: char := '\r'
  const LF: char := '\n'
  const BS: char := '\U{8}'
  const DEL: char := '\U{7F}'

  /** The logical keys the editor distinguishes. */
  datatype KeyEvent =
    | Char(c: char)      // a character to insert at the cursor
    | Enter
    | Backspace
    | Delete
    | ArrowLeft
    | ArrowRight
    | Home
    | End
    | Cancel             // ESC followed by anything but '['
    | Unrecognized       // read and dropped without effect

  /** One decoding step: a key and how many characters it used, or the
      input ran out before a key was complete. */
  datatype Decoded = Key(event: KeyEvent, consumed: nat) | Exhausted

  /** Characters the editor inserts: code point 32 or above, except DEL,
      which is taken as Backspace first. */
  predicate Printable(c: char) {
    c >= ' ' && c != DEL
  }

  predicate AllPrintable(s: string) {
    forall i :: 0 <= i < |s| ==> Printable(s[i])
  }

  /** The input is a proper prefix of something the decoder would have to
      read further: nothing at all, ESC, ESC '[', or ESC '[' '3'. */
  predicate Truncated(input: string) {
    || |input| == 0
    || input == [ESC]
    || input == [ESC, '[']
    || input == [ESC, '[', '3']
  }

  /** Decodes the key at the head of `input`. */
  function Decode(input: string): (r: Decoded)
    ensures r.Key? ==> 1 <= r.consumed <= |input|
    ensures r.Exhausted? <==> Truncated(input)
  {
    if |input| == 0 then Exhausted
    else if input[0] == ESC then
      if |input| == 1 then Exhausted
      else if input[1] != '[' then Key(Cancel, 2)
      else if |input| == 2 then Exhausted
      else if input[2] == 'D' then Key(ArrowLeft, 3)
      else if input[2] == 'C' then Key(ArrowRight, 3)
      else if input[2] == 'H' then Key(Home, 3)
      else if input[2] == 'F' then Key(End, 3)
      else if input[2] == '3' then
        // the fourth character is read and dropped whatever it is
        if |input| == 3 then Exhausted else Key(Delete, 4)
      else Key(Unrecognized, 3)
    else if input[0] == CR then Key(Enter, 1)
    else if input[0] == DEL || input[0] == BS then Key(Backspace, 1)
    else if input[0] >= ' ' then Key(Char(input[0]), 1)
    else Key(Unrecognized, 1)
  }

  /** The events a terminal can send, each with one canonical spelling. */
  predicate Encodable(e: KeyEvent) {
    e.Char? ==> Printable(e.c)
  }

  function Encode(e: KeyEvent): (r: string)
    requires Encodable(e)
  {
    match e
    case Char(c) => [c]
    case Enter => [CR]
    case Backspace => [DEL]
    case Delete => [ESC, '[', '3', '~']
    case ArrowLeft => [ESC, '[', 'D']
    case ArrowRight => [ESC, '[', 'C']
    case Home => [ESC, '[', 'H']
    case End => [ESC, '[', 'F']
    case Cancel => [ESC, ESC]
    case Unrecognized => ['\0']
  }

  /** Decoding the canonical spelling of a key gives back that key, having
      consumed exactly that spelling, whatever follows it. */
  lemma DecodeEncode(e: KeyEvent, rest: string)
    requires Encodable(e)
    ensures Decode(Encode(e) + rest) == Key(e, |Encode(e)|)
  {
    var s := Encode(e) + rest;
    assert s[..|Encode(e)|] == Encode(e);
    match e
    case Char(c) => assert s[0] == c;
    case Enter => assert s[0] == CR;
    case Backspace => assert s[0] == DEL;
    case Cancel => assert s[0] == ESC && s[1] == ESC;
    case Unrecognized => assert s[0] == '\0';
    case _ => assert s[0] == ESC && s[1] == '[';
  }

  /** A decoded key depends only on the characters it consumed: changing
      what follows does not change it, so the decoder resynchronises after
      every key. */
  lemma DecodeLooksOnlyAtConsumed(input: string, rest: string)
    requires Decode(input).Key?
    ensures Decode(input[..Decode(input).consumed] + rest) == Decode(input)
  {
    var n := Decode(input).consumed;
    var s := input[..n] + rest;
    assert forall k :: 0 <= k < n ==> s[k] == input[k];
  }

  /** Enter is exactly a leading carriage return; line feed is not Enter. */
  lemma DecodeEnterIffCR(input: string)
    ensures (Decode(input).Key? && Decode(input).event == Enter)
        <==> (|input| > 0 && input[0] == CR)
    ensures |input| > 0 && input[0] == LF ==> Decode(input) == Key(Unrecognized, 1)
  {
  }

  /** ESC followed by any character other than '[' is Cancel. */
  lemma DecodeBareEscape(x: char, rest: string)
    requires x != '['
    ensures Decode([ESC, x] + rest) == Key(Cancel, 2)
  {
    assert ([ESC, x] + rest)[1] == x;
  }

  /** ESC '[' followed by a character the editor does not know is read and
      dropped. */
  lemma DecodeUnknownCsi(x: char, rest: string)
    requires x !in {'D', 'C', 'H', 'F', '3'}
    ensures Decode([ESC, '[', x] + rest) == Key(Unrecognized, 3)
  {
    assert ([ESC, '[', x] + rest)[2] == x;
  }

  /** ESC '[' '3' is Delete whatever the fourth character is; the fourth
      character is never decoded on its own. */
  lemma DecodeDeleteAnyTail(x: char, rest: string)
    ensures Decode([ESC, '[', '3', x] + rest) == Key(Delete, 4)
  {
    assert ([ESC, '[', '3', x] + rest)[2] == '3';
  }

  /** DEL and BS are both Backspace. */
  lemma DecodeBackspace(c: char, rest: string)
    requires c == DEL || c == BS
    ensures Decode([c] + rest) == Key(Backspace, 1)
  {
    assert ([c] + rest)[0] == c;
  }

  /** Control characters other than BS, CR and ESC are dropped. */
  lemma DecodeControlIgnored(c: char, rest: string)
    requires c < ' ' && c != BS && c != CR && c != ESC
    ensures Decode([c] + rest) == Key(Unrecognized, 1)
  {
    assert ([c] + rest)[0] == c;
  }

  /** A four-character sequence such as Page Up (ESC '[' '5' '~') is read
      as an unrecognised three-character sequence, and its '~' is then
      decoded on its own as a character to insert. */
  lemma DecodeTildeLeftOver(rest: string)
    ensures Decode([ESC, '[', '5', '~'] + rest) == Key(Unrecognized, 3)
    ensures ([ESC, '[', '5', '~'] + rest)[3..] == ['~'] + rest
    ensures Decode(['~'] + rest) == Key(Char('~'), 1)
  {
    assert ([ESC, '[', '5', '~'] + rest)[2] == '5';
    assert ([ESC, '[', '5', '~'] + rest)[3..] == ['~'] + rest;
    assert (['~'] + rest)[0] == '~';
  }
}
