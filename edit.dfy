/**
 * The editable command line of `AI.run`: the text `input_text` and the
 * cursor `position`.  The edits themselves are slice expressions on the
 * text, modelled as functions; `Apply` gives the effect of one key on a
 * (text, cursor) value, and `LineBuffer` is the mutable pair the loop
 * updates, each method proved against `Apply`.
 */
module Edit {
  import opened Keys

  /** `c` inserted before index `p`. */
  function InsertAt(s: string, p: nat, c: char): (r: string)
    requires p <= |s|
    ensures |r| == |s| + 1 && r[p] == c
    ensures forall k :: 0 <= k < p ==> r[k] == s[k]
    ensures forall k :: p < k < |r| ==> r[k] == s[k - 1]
  {
    s[..p] + [c] + s[p..]
  }

  /** The character at index `i` removed. */
  function RemoveAt(s: string, i: nat): (r: string)
    requires i < |s|
    ensures |r| == |s| - 1
    ensures forall k :: 0 <= k < i ==> r[k] == s[k]
    ensures forall k :: i <= k < |r| ==> r[k] == s[k + 1]
  {
    s[..i] + s[i + 1..]
  }

  /** Removing what was just inserted gives back the original text. */
  lemma RemoveInsert(s: string, p: nat, c: char)
    requires p <= |s|
    ensures RemoveAt(InsertAt(s, p, c), p) == s
  {
    var r := RemoveAt(InsertAt(s, p, c), p);
    assert |r| == |s|;
    forall k | 0 <= k < |s| ensures r[k] == s[k] {
      if k < p {
        assert r[k] == InsertAt(s, p, c)[k];
      } else {
        assert r[k] == InsertAt(s, p, c)[k + 1];
      }
    }
  }

  /** A value of the editor state: the text and the cursor offset. */
  datatype Line = Line(text: string, cursor: nat) {
    predicate Valid() {
      cursor <= |text|
    }
  }

  /** The effect of one key on the line.  Enter, Cancel and unrecognised
      keys leave the line as it is; the edit loop handles the first two. */
  function Apply(l: Line, e: KeyEvent): (r: Line)
    requires l.Valid()
    ensures r.Valid()
  {
    match e
    case Char(c) => Line(InsertAt(l.text, l.cursor, c), l.cursor + 1)
    case Backspace =>
      if l.cursor > 0 then Line(RemoveAt(l.text, l.cursor - 1), l.cursor - 1) else l
    case Delete =>
      if l.cursor < |l.text| then Line(RemoveAt(l.text, l.cursor), l.cursor) else l
    case ArrowLeft => Line(l.text, if l.cursor == 0 then 0 else l.cursor - 1)
    case ArrowRight => Line(l.text, if l.cursor == |l.text| then |l.text| else l.cursor + 1)
    case Home => Line(l.text, 0)
    case End => Line(l.text, |l.text|)
    case _ => l
  }

  /** Cursor keys never change the text; Left stops at 0, Right stops at
      the end, Home goes to 0 and End to the end. */
  lemma CursorKeys(l: Line)
    requires l.Valid()
    ensures Apply(l, ArrowLeft).text == l.text && Apply(l, ArrowRight).text == l.text
    ensures Apply(l, Home) == Line(l.text, 0) && Apply(l, End) == Line(l.text, |l.text|)
    ensures l.cursor == 0 ==> Apply(l, ArrowLeft) == l
    ensures l.cursor > 0 ==> Apply(l, ArrowLeft).cursor == l.cursor - 1
    ensures l.cursor == |l.text| ==> Apply(l, ArrowRight) == l
    ensures l.cursor < |l.text| ==> Apply(l, ArrowRight).cursor == l.cursor + 1
  {
  }

  /** Backspace at 0 does nothing; elsewhere it removes the character
      before the cursor and moves the cursor back by one. */
  lemma BackspaceEffect(l: Line)
    requires l.Valid()
    ensures l.cursor == 0 ==> Apply(l, Backspace) == l
    ensures l.cursor > 0 ==>
      && Apply(l, Backspace).cursor == l.cursor - 1
      && Apply(l, Backspace).text == l.text[..l.cursor - 1] + l.text[l.cursor..]
  {
  }

  /** Delete at the end does nothing; elsewhere it removes the character
      under the cursor and keeps the cursor. */
  lemma DeleteEffect(l: Line)
    requires l.Valid()
    ensures l.cursor == |l.text| ==> Apply(l, Delete) == l
    ensures l.cursor < |l.text| ==>
      && Apply(l, Delete).cursor == l.cursor
      && Apply(l, Delete).text == l.text[..l.cursor] + l.text[l.cursor + 1..]
  {
  }

  /** Inserting puts the character before the cursor and advances it. */
  lemma InsertEffect(l: Line, c: char)
    requires l.Valid()
    ensures Apply(l, Char(c)) == Line(l.text[..l.cursor] + [c] + l.text[l.cursor..], l.cursor + 1)
  {
  }

  /** Keys other than edits and movements leave the line unchanged. */
  lemma NonEditingKeys(l: Line)
    requires l.Valid()
    ensures Apply(l, Enter) == l && Apply(l, Cancel) == l && Apply(l, Unrecognized) == l
  {
  }

  /** Insert, then Left, then Delete restores both text and cursor. */
  lemma InsertLeftDeleteRoundTrip(l: Line, c: char)
    requires l.Valid()
    ensures Apply(Apply(Apply(l, Char(c)), ArrowLeft), Delete) == l
  {
    RemoveInsert(l.text, l.cursor, c);
  }

  /** Keys the decoder can produce keep a printable line printable. */
  lemma ApplyKeepsPrintable(l: Line, e: KeyEvent)
    requires l.Valid() && AllPrintable(l.text)
    requires e.Char? ==> Printable(e.c)
    ensures AllPrintable(Apply(l, e).text)
  {
    var r := Apply(l, e);
    forall k | 0 <= k < |r.text| ensures Printable(r.text[k]) {
      match e
      case Char(c) =>
        if k < l.cursor {
          assert r.text[k] == l.text[k];
        } else if k > l.cursor {
          assert r.text[k] == l.text[k - 1];
        }
      case Backspace =>
        if l.cursor > 0 && k >= l.cursor - 1 {
          assert r.text[k] == l.text[k + 1];
        }
      case Delete =>
        if l.cursor < |l.text| && k >= l.cursor {
          assert r.text[k] == l.text[k + 1];
        }
      case _ =>
    }
  }

  /** The mutable buffer the edit loop works on: `input_text` and
      `position`. */
  class LineBuffer {
    var text: string
    var position: nat

    predicate Valid()
      reads this
    {
      position <= |text|
    }

    /** The buffer as a value. */
    function State(): Line
      reads this
    {
      Line(text, position)
    }

    /** Seeded with the proposed command, cursor at its end. */
    constructor (seed: string)
      ensures Valid() && text == seed && position == |seed|
    {
      text := seed;
      position := |seed|;
    }

    method Left()
      requires Valid()
      modifies this
      ensures Valid() && State() == Apply(old(State()), ArrowLeft)
      ensures text == old(text)
      ensures position == if old(position) == 0 then 0 else old(position) - 1
    {
      if position > 0 {
        position := position - 1;
      }
    }

    method Right()
      requires Valid()
      modifies this
      ensures Valid() && State() == Apply(old(State()), ArrowRight)
      ensures text == old(text)
      ensures position == if old(position) == |text| then |text| else old(position) + 1
    {
      if position < |text| {
        position := position + 1;
      }
    }

    method Home()
      requires Valid()
      modifies this
      ensures Valid() && State() == Apply(old(State()), KeyEvent.Home)
      ensures text == old(text) && position == 0
    {
      position := 0;
    }

    method End()
      requires Valid()
      modifies this
      ensures Valid() && State() == Apply(old(State()), KeyEvent.End)
      ensures text == old(text) && position == |text|
    {
      position := |text|;
    }

    method Delete()
      requires Valid()
      modifies this
      ensures Valid() && State() == Apply(old(State()), KeyEvent.Delete)
      ensures position == old(position)
      ensures old(position) == |old(text)| ==> text == old(text)
      ensures old(position) < |old(text)| ==> text == RemoveAt(old(text), old(position))
    {
      if position < |text| {
        text := text[..position] + text[position + 1..];
      }
    }

    method Backspace()
      requires Valid()
      modifies this
      ensures Valid() && State() == Apply(old(State()), KeyEvent.Backspace)
      ensures old(position) == 0 ==> text == old(text) && position == 0
      ensures old(position) > 0 ==>
        text == RemoveAt(old(text), old(position) - 1) && position == old(position) - 1
    {
      if position > 0 {
        text := text[..position - 1] + text[position..];
        position := position - 1;
      }
    }

    method Insert(c: char)
      requires Valid()
      modifies this
      ensures Valid() && State() == Apply(old(State()), Char(c))
      ensures text == InsertAt(old(text), old(position), c) && position == old(position) + 1
    {
      text := text[..position] + [c] + text[position..];
      position := position + 1;
    }

    /** Dispatches one decoded key to the edit it stands for, as the
        branches of the edit loop do. */
    method Press(e: KeyEvent)
      requires Valid()
      modifies this
      ensures Valid() && State() == Apply(old(State()), e)
    {
      match e {
        case Char(c) => Insert(c);
        case Backspace => Backspace();
        case Delete => Delete();
        case ArrowLeft => Left();
        case ArrowRight => Right();
        case Home => Home();
        case End => End();
        case _ =>
      }
    }
  }
}
