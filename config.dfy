/**
 * The line parser of `AI.load_config`.  Each line is stripped of
 * surrounding whitespace; empty lines and lines starting with '#' are
 * skipped; other lines are split at their first '=' into a key and a
 * value, both stripped, and a later line for the same key replaces an
 * earlier one; a line with no '=' is reported as a warning and otherwise
 * ignored.  Afterwards DEFAULT_PROVIDER and DEFAULT_MODEL must both be
 * present.
 *
 * The file's lines arrive as a sequence; opening and reading the file is
 * not part of this module.
 */
module Config {

  datatype Option<T> = None | Some(value: T)

  /** Python's `str.isspace`: the characters `str.strip()` removes. */
  predicate IsSpace(c: char) {
    || ('\t' <= c <= '\r')
    || ('\U{1C}' <= c <= '\U{1F}')
    || c == ' ' || c == '\U{85}' || c == '\U{A0}' || c == '\U{1680}'
    || ('\U{2000}' <= c <= '\U{200A}')
    || c == '\U{2028}' || c == '\U{2029}' || c == '\U{202F}' || c == '\U{205F}' || c == '\U{3000}'
  }

  /** `s` without its leading whitespace: a suffix of `s`, everything
      dropped is whitespace, and what is left does not start with any. */
  function TrimStart(s: string): (r: string)
    ensures |r| <= |s| && r == s[|s| - |r|..]
    ensures forall k :: 0 <= k < |s| - |r| ==> IsSpace(s[k])
    ensures r != [] ==> !IsSpace(r[0])
  {
    if s != [] && IsSpace(s[0]) then
      var r := TrimStart(s[1..]);
      assert s[1..][|s| - 1 - |r|..] == s[|s| - |r|..];
      assert forall k :: 1 <= k < |s| - |r| ==> s[k] == s[1..][k - 1];
      r
    else s
  }

  /** `s` without its trailing whitespace. */
  function TrimEnd(s: string): (r: string)
    ensures |r| <= |s| && r == s[..|r|]
    ensures forall k :: |r| <= k < |s| ==> IsSpace(s[k])
    ensures r != [] ==> !IsSpace(r[|r| - 1])
  {
    if s != [] && IsSpace(s[|s| - 1]) then
      var r := TrimEnd(s[..|s| - 1]);
      assert s[..|s| - 1][..|r|] == s[..|r|];
      assert forall k :: |r| <= k < |s| - 1 ==> s[k] == s[..|s| - 1][k];
      r
    else s
  }

  /** Python's `str.strip()`. */
  function Strip(s: string): (r: string)
    ensures r != [] ==> !IsSpace(r[0]) && !IsSpace(r[|r| - 1])
  {
    var t := TrimStart(s);
    var r := TrimEnd(t);
    assert r != [] ==> r[0] == t[0];
    r
  }

  /** What `Strip` keeps is a slice of the input. */
  lemma StripIsSlice(s: string)
    ensures var i := |s| - |TrimStart(s)|;
      i + |Strip(s)| <= |s| && Strip(s) == s[i..i + |Strip(s)|]
  {
    var t := TrimStart(s);
    var i := |s| - |t|;
    SliceOfSuffix(s, i, |Strip(s)|);
  }

  lemma SliceOfSuffix(s: string, i: nat, m: nat)
    requires i + m <= |s|
    ensures s[i..][..m] == s[i..i + m]
  {
  }

  /** What `Strip` drops on the right is whitespace. */
  lemma StripDropsSpaceOnRight(s: string)
    ensures var i := |s| - |TrimStart(s)|;
      forall k :: i + |Strip(s)| <= k < |s| ==> IsSpace(s[k])
  {
    var t := TrimStart(s);
    var i := |s| - |t|;
    forall k | i + |Strip(s)| <= k < |s| ensures IsSpace(s[k]) {
      assert s[k] == t[k - i];
    }
  }

  /** Stripping twice is stripping once. */
  lemma StripIdempotent(s: string)
    ensures Strip(Strip(s)) == Strip(s)
  {
    var r := Strip(s);
    if r != [] {
      assert TrimStart(r) == r;
      assert TrimEnd(r) == r;
    }
  }

  /** The index of the first `c` in `s`, if any. */
  function FirstIndex(s: string, c: char): (r: Option<nat>)
    ensures r.None? <==> c !in s
    ensures r.Some? ==> r.value < |s| && s[r.value] == c && c !in s[..r.value]
  {
    if |s| == 0 then None
    else if s[0] == c then Some(0)
    else
      match FirstIndex(s[1..], c)
      case None => None
      case Some(i) =>
        assert s[..i + 1] == [s[0]] + s[1..][..i];
        Some(i + 1)
  }

  /** What one line of the file contributes. */
  datatype ConfigLine =
    | Skipped                            // blank or comment
    | Malformed(text: string)            // no '=': warned about, then ignored
    | Setting(key: string, value: string)

  /** `line.strip()`, then `split('=', 1)` with both halves stripped. */
  function ParseLine(raw: string): (r: ConfigLine)
    ensures var t := Strip(raw); r.Skipped? <==> (t == [] || t[0] == '#')
    ensures var t := Strip(raw); r.Malformed? <==> (t != [] && t[0] != '#' && '=' !in t)
    ensures r.Malformed? ==> r.text == Strip(raw)
  {
    var t := Strip(raw);
    if t == [] || t[0] == '#' then Skipped
    else match FirstIndex(t, '=')
      case None => Malformed(t)
      case Some(i) => Setting(Strip(t[..i]), Strip(t[i + 1..]))
  }

  /** A line whose stripped text has its first '=' at `i` is the setting
      of the stripped text before it to the stripped text after it. */
  lemma ParseLineSetting(raw: string, i: nat)
    requires var t := Strip(raw); i < |t| && t[i] == '=' && '=' !in t[..i]
    requires Strip(raw)[0] != '#'
    ensures var t := Strip(raw); ParseLine(raw) == Setting(Strip(t[..i]), Strip(t[i + 1..]))
  {
    var t := Strip(raw);
    FirstIsUnique(t, '=', i);
  }

  /** The first occurrence is the one `FirstIndex` finds. */
  lemma FirstIsUnique(t: string, c: char, i: nat)
    requires i < |t| && t[i] == c && c !in t[..i]
    ensures FirstIndex(t, c) == Some(i)
  {
  }

  /** The settings and the warnings after reading lines in order. */
  datatype Scanned = Scanned(settings: map<string, string>, warnings: seq<string>)

  /** Every line parsed on its own. */
  function ParseAll(lines: seq<string>): seq<ConfigLine>
  {
    seq(|lines|, i requires 0 <= i < |lines| => ParseLine(lines[i]))
  }

  lemma ParsedLines(lines: seq<string>)
    ensures |ParseAll(lines)| == |lines|
    ensures forall i :: 0 <= i < |lines| ==> ParseAll(lines)[i] == ParseLine(lines[i])
  {
  }

  /** What one parsed line does to the dictionary and the warnings. */
  function Absorb(before: Scanned, l: ConfigLine): Scanned
  {
    match l
    case Skipped => before
    case Malformed(t) => Scanned(before.settings, before.warnings + [t])
    case Setting(k, v) => Scanned(before.settings[k := v], before.warnings)
  }

  /** The parsed lines folded in order into `self.config` and the printed
      warnings. */
  function Collect(parsed: seq<ConfigLine>): Scanned
    decreases |parsed|
  {
    if |parsed| == 0 then Scanned(map[], [])
    else Absorb(Collect(parsed[..|parsed| - 1]), parsed[|parsed| - 1])
  }

  lemma CollectPrefix(parsed: seq<ConfigLine>, i: nat)
    requires i < |parsed|
    ensures Collect(parsed[..i + 1]) == Absorb(Collect(parsed[..i]), parsed[i])
  {
    assert parsed[..i + 1][..i] == parsed[..i];
  }

  /** What `load_config` builds from the lines of the file. */
  function Scan(lines: seq<string>): Scanned
  {
    Collect(ParseAll(lines))
  }

  predicate SetsKey(l: ConfigLine, key: string) {
    l.Setting? && l.key == key
  }

  /** A key is configured exactly when some line sets it. */
  lemma {:induction false} CollectKeys(parsed: seq<ConfigLine>, key: string)
    ensures key in Collect(parsed).settings <==> exists i :: 0 <= i < |parsed| && SetsKey(parsed[i], key)
    decreases |parsed|
  {
    if |parsed| > 0 {
      var init := parsed[..|parsed| - 1];
      CollectKeys(init, key);
      assert forall i :: 0 <= i < |init| ==> init[i] == parsed[i];
      if exists i :: 0 <= i < |parsed| && SetsKey(parsed[i], key) {
        var i :| 0 <= i < |parsed| && SetsKey(parsed[i], key);
        if i < |init| {
          assert SetsKey(init[i], key);
        }
      }
    }
  }

  /** The value of a key is the one on the last line that sets it. */
  lemma {:induction false} LastSettingWins(parsed: seq<ConfigLine>, i: nat, key: string, value: string)
    requires i < |parsed| && parsed[i] == Setting(key, value)
    requires forall j :: i < j < |parsed| ==> !SetsKey(parsed[j], key)
    ensures key in Collect(parsed).settings && Collect(parsed).settings[key] == value
    decreases |parsed|
  {
    if i < |parsed| - 1 {
      var init := parsed[..|parsed| - 1];
      assert forall j :: 0 <= j < |init| ==> init[j] == parsed[j];
      LastSettingWins(init, i, key, value);
      assert !SetsKey(parsed[|parsed| - 1], key);
    }
  }

  /** Skipped lines (blank or comment) can be dropped anywhere without
      changing the result. */
  lemma {:induction false} SkippedLineIrrelevant(before: seq<ConfigLine>, after: seq<ConfigLine>)
    ensures Collect(before + [Skipped] + after) == Collect(before + after)
    decreases |after|
  {
    if |after| == 0 {
      assert before + [Skipped] + after == before + [Skipped];
      assert (before + [Skipped])[..|before|] == before;
      assert before + after == before;
    } else {
      var init := after[..|after| - 1];
      SkippedLineIrrelevant(before, init);
      assert (before + [Skipped] + after)[..|before| + |after|] == before + [Skipped] + init;
      assert (before + after)[..|before| + |after| - 1] == before + init;
    }
  }

  /** Parsing is line by line, so the parse of a file is the parse of its
      parts. */
  lemma ParseAllAppend(a: seq<string>, b: seq<string>)
    ensures ParseAll(a + b) == ParseAll(a) + ParseAll(b)
  {
    var l, r := ParseAll(a + b), ParseAll(a) + ParseAll(b);
    forall i | 0 <= i < |l| ensures l[i] == r[i] {
      if i < |a| {
        assert (a + b)[i] == a[i];
      } else {
        assert (a + b)[i] == b[i - |a|];
      }
    }
  }

  /** On the file's own lines: a key ends up in `config` exactly when a
      line sets it, and it has the value of the last such line. */
  lemma ConfiguredKeys(lines: seq<string>, key: string, i: nat)
    requires i < |lines| && SetsKey(ParseLine(lines[i]), key)
    requires forall j :: i < j < |lines| ==> !SetsKey(ParseLine(lines[j]), key)
    ensures key in Scan(lines).settings && Scan(lines).settings[key] == ParseLine(lines[i]).value
  {
    var parsed := ParseAll(lines);
    ParsedLines(lines);
    LastSettingWins(parsed, i, key, parsed[i].value);
  }

  /** A key no line sets is not in `config`. */
  lemma UnsetKeyAbsent(lines: seq<string>, key: string)
    requires forall j :: 0 <= j < |lines| ==> !SetsKey(ParseLine(lines[j]), key)
    ensures key !in Scan(lines).settings
  {
    ParsedLines(lines);
    CollectKeys(ParseAll(lines), key);
  }

  /** A warning is printed exactly for the (stripped) lines without '='. */
  lemma {:induction false} WarningsAreMalformedLines(parsed: seq<ConfigLine>, w: string)
    ensures w in Collect(parsed).warnings <==> exists i :: 0 <= i < |parsed| && parsed[i] == Malformed(w)
    decreases |parsed|
  {
    if |parsed| > 0 {
      var init := parsed[..|parsed| - 1];
      WarningsAreMalformedLines(init, w);
      assert forall i :: 0 <= i < |init| ==> init[i] == parsed[i];
      if exists i :: 0 <= i < |parsed| && parsed[i] == Malformed(w) {
        var i :| 0 <= i < |parsed| && parsed[i] == Malformed(w);
        if i < |init| {
          assert init[i] == Malformed(w);
        }
      }
    }
  }

  const Required: set<string> := {"DEFAULT_PROVIDER", "DEFAULT_MODEL"}

  /** The object whose `config` dictionary `load_config` fills. */
  class AI {
    var config: map<string, string>

    constructor ()
      ensures config == map[]
    {
      config := map[];
    }

    /** Fills `config` from the file's lines and returns the warnings in
        the order they are printed and the required keys that are
        missing; a non-empty `missing` is the error `load_config` raises
        after `config` has been filled. */
    method LoadConfig(lines: seq<string>) returns (warnings: seq<string>, missing: set<string>)
      modifies this
      ensures config == Scan(lines).settings && warnings == Scan(lines).warnings
      ensures missing == Required - config.Keys
      ensures missing == {} <==> ("DEFAULT_PROVIDER" in config && "DEFAULT_MODEL" in config)
    {
      config := map[];
      warnings := [];
      ghost var parsed := ParseAll(lines);
      for i := 0 to |lines|
        invariant config == Collect(parsed[..i]).settings && warnings == Collect(parsed[..i]).warnings
      {
        var entry := ParseLine(lines[i]);
        CollectPrefix(parsed, i);
        assert entry == parsed[i];
        match entry {
          case Skipped =>
          case Malformed(t) => warnings := warnings + [t];
          case Setting(k, v) => config := config[k := v];
        }
        assert Scanned(config, warnings) == Absorb(Collect(parsed[..i]), entry);
      }
      assert parsed[..|lines|] == parsed;
      missing := Required - config.Keys;
      if missing != {} {
        var key :| key in missing;
        assert key == "DEFAULT_PROVIDER" || key == "DEFAULT_MODEL";
      } else {
        assert "DEFAULT_PROVIDER" !in missing && "DEFAULT_MODEL" !in missing;
      }
    }
  }
}
