/** The line-oriented text format of cf.h: CfRead and CfWrite. A file is
    modelled as its sequence of lines, each without its newline; `None`
    stands for a file that cannot be opened. */
module Format {

  import opened Options
  import opened Text
  import opened Store

  /** XCF_BF_SIZE: the input buffer holds 128 characters, a newline and the
      terminator. */
  const BufSize := 130

  /** The longest line CfRead accepts. A line of BufSize - 1 = 129 characters
      or more fills the buffer without its newline, which CfRead rejects as
      too long (a final line without a newline is rejected at the same
      length, when fgets stops at the buffer's end). */
  const LineMax := BufSize - 2

  /** What one line contributes to the store. */
  datatype Line =
    | Skip                                 // comment or blank line, comments not kept
    | Assign(key: string, value: string)   // set `key` to `value` with CfSetKey
    | Malformed                            // a syntax error that aborts the read
    | TooLong                              // a line that does not fit the buffer

  /** Comment and blank lines, once trimmed. */
  predicate CommentOrBlank(t: string) {
    t == [] || t[0] == '#' || t[0] == ';'
  }

  /** The body of CfRead's loop for one line; `cmt` is its third argument. */
  function ParseLine(line: string, cmt: bool): (p: Line)
    ensures p.TooLong? <==> |line| > LineMax
    ensures p.Skip? ==> !cmt
    ensures p.Assign? ==> Clean(p.value)
    ensures p.Assign? && Regular(p.key) ==> KeyName(p.key) && p.value != []
    ensures p.Assign? && !Regular(p.key) ==> cmt && (p.key == "" || p.key == "#" || p.key == ";")
  {
    if |line| >= BufSize - 1 then TooLong
    else
      var bf := Trim(line);
      if CommentOrBlank(bf) then ParseComment(bf, cmt) else ParseAssignment(bf)
  }

  /** A trimmed comment or blank line: skipped, or kept under the key "#",
      ";" or "" with the text after the marker, leading blanks removed. */
  function ParseComment(bf: string, cmt: bool): (p: Line)
    requires Clean(bf) && CommentOrBlank(bf)
    ensures p.Skip? || p.Assign?
    ensures p.Skip? <==> !cmt
    ensures p.Assign? ==> Clean(p.value) && !Regular(p.key)
    ensures p.Assign? ==> p.key == "" || p.key == "#" || p.key == ";"
  {
    if !cmt then Skip
    else if bf == [] then Assign("", "")
    else Assign([bf[0]], bf[Scan(bf, 1, IsBlank)..])
  }

  /** A trimmed line that must be a key/value declaration: the longest run
      of key characters; a blank or `=` right after it; if a blank, more
      blanks and then `=`; then blanks and a non-empty value. */
  function ParseAssignment(bf: string): (p: Line)
    requires Clean(bf) && !CommentOrBlank(bf)
    ensures p.Assign? || p.Malformed?
    ensures p.Assign? ==> Regular(p.key) && p.value != [] && Clean(p.value)
  {
    var n := Scan(bf, 0, IsKeyChar);
    if n == 0 || n == |bf| || !(IsBlank(bf[n]) || bf[n] == '=') then Malformed
    else
      var e := if bf[n] == '=' then n else Scan(bf, n + 1, IsBlank);
      if e == |bf| || bf[e] != '=' then Malformed
      else
        var v := Scan(bf, e + 1, IsBlank);
        if v == |bf| then Malformed
        else Assign(bf[..n], bf[v..])
  }

  /** The accepted shape of a key/value line, once trimmed: the key name,
      blanks, `=` at some position `e`, blanks, and the value, which starts
      with a non-blank character. */
  predicate IsAssignment(t: string, key: string, value: string) {
    && KeyName(key) && value != [] && !IsBlank(value[0])
    && |key| + |value| < |t|
    && t[..|key|] == key && t[|t| - |value|..] == value
    && exists e :: |key| <= e < |t| - |value| && t[e] == '='
         && AllBetween(t, |key|, e, IsBlank) && AllBetween(t, e + 1, |t| - |value|, IsBlank)
  }

  lemma {:induction false} AssignmentParses(t: string, key: string, value: string)
    requires Clean(t) && !CommentOrBlank(t)
    requires IsAssignment(t, key, value)
    ensures ParseAssignment(t) == Assign(key, value)
  {
    var e :| |key| <= e < |t| - |value| && t[e] == '='
         && AllBetween(t, |key|, e, IsBlank) && AllBetween(t, e + 1, |t| - |value|, IsBlank);
    var n := |key|;
    assert AllBetween(t, 0, n, IsKeyChar) by {
      forall k | 0 <= k < n ensures IsKeyChar(t[k]) { assert t[k] == t[..n][k]; }
    }
    assert IsBlank(t[n]) || t[n] == '=';
    ScanStopsAt(t, 0, n, IsKeyChar);
    if t[n] != '=' {
      ScanStopsAt(t, n + 1, e, IsBlank);
    }
    var v := |t| - |value|;
    assert t[v] == value[0];
    ScanStopsAt(t, e + 1, v, IsBlank);
  }

  lemma {:induction false} ParsedIsAssignment(t: string)
    requires Clean(t) && !CommentOrBlank(t)
    requires ParseAssignment(t).Assign?
    ensures IsAssignment(t, ParseAssignment(t).key, ParseAssignment(t).value)
  {
    var n := Scan(t, 0, IsKeyChar);
    var key := t[..n];
    AllOfSlice(t, 0, n, IsKeyChar);
    var e := if t[n] == '=' then n else Scan(t, n + 1, IsBlank);
    var v := Scan(t, e + 1, IsBlank);
    var value := t[v..];
    assert ParseAssignment(t) == Assign(key, value);
    assert |t| - |value| == v;
  }

  /** The key/value grammar: a line that fits the buffer and, once trimmed,
      is neither a comment nor blank is accepted with key `key` and value
      `value` exactly when the trimmed line has the accepted shape;
      otherwise it is malformed. */
  lemma {:induction false} AssignmentGrammar(line: string, cmt: bool, key: string, value: string)
    requires |line| <= LineMax
    requires !CommentOrBlank(Trim(line))
    ensures ParseLine(line, cmt) == Assign(key, value) <==> IsAssignment(Trim(line), key, value)
    ensures ParseLine(line, cmt).Assign? || ParseLine(line, cmt) == Malformed
  {
    var t := Trim(line);
    assert ParseLine(line, cmt) == ParseAssignment(t);
    if ParseAssignment(t) == Assign(key, value) {
      ParsedIsAssignment(t);
    }
    if IsAssignment(t, key, value) {
      AssignmentParses(t, key, value);
    }
  }

  /** A line of blanks only is dropped, or kept as an entry with the empty
      key and the empty value. */
  lemma {:induction false} BlankLine(line: string, cmt: bool)
    requires |line| <= LineMax && All(line, IsBlank)
    ensures ParseLine(line, cmt) == if cmt then Assign("", "") else Skip
  {
    assert line == line + [] + [];
    TrimOfPadded(line, [], []);
  }

  /** A comment line trims to its marker, the blanks after it and its text. */
  lemma {:induction false} CommentTrim(a: string, marker: char, gap: string, text: string, b: string)
    requires !IsBlank(marker)
    requires All(a, IsBlank) && All(gap, IsBlank) && All(b, IsBlank) && Clean(text)
    ensures Trim(a + [marker] + gap + text + b) == if text == [] then [marker] else [marker] + gap + text
  {
    var t := if text == [] then [marker] else [marker] + gap + text;
    var b' := if text == [] then gap + b else b;
    assert a + [marker] + gap + text + b == a + t + b';
    assert All(b', IsBlank) by {
      forall k | 0 <= k < |b'| ensures IsBlank(b'[k]) {
        if text == [] && k < |gap| { assert b'[k] == gap[k]; }
        else if text == [] { assert b'[k] == b[k - |gap|]; }
      }
    }
    assert t[|t| - 1] == if text == [] then marker else text[|text| - 1];
    TrimOfPadded(a, t, b');
  }

  /** Past the marker, the kept text starts at the first non-blank. */
  lemma {:induction false} CommentText(marker: char, gap: string, text: string)
    requires All(gap, IsBlank) && (text == [] || !IsBlank(text[0]))
    ensures var t := if text == [] then [marker] else [marker] + gap + text;
      t[Scan(t, 1, IsBlank)..] == text
  {
    var t := if text == [] then [marker] else [marker] + gap + text;
    var v := if text == [] then 1 else 1 + |gap|;
    assert AllBetween(t, 1, v, IsBlank) by {
      forall k | 1 <= k < v ensures IsBlank(t[k]) { assert t[k] == gap[k - 1]; }
    }
    assert v == |t| || t[v] == text[0];
    ScanStopsAt(t, 1, v, IsBlank);
    assert t[v..] == text;
  }

  /** A comment line is dropped, or kept as an entry whose key is the
      marker and whose value is the comment text without surrounding
      blanks. */
  lemma {:induction false} CommentLine(line: string, cmt: bool, a: string, marker: char, gap: string, text: string, b: string)
    requires |line| <= LineMax
    requires marker == '#' || marker == ';'
    requires All(a, IsBlank) && All(gap, IsBlank) && All(b, IsBlank) && Clean(text)
    requires line == a + [marker] + gap + text + b
    ensures ParseLine(line, cmt) == if cmt then Assign([marker], text) else Skip
  {
    CommentTrim(a, marker, gap, text, b);
    CommentText(marker, gap, text);
  }

  /** The store after CfRead and its result, 0 or -1. */
  datatype Loaded = Loaded(cf: Cf, code: int)

  /** After one line: go on with this store, or stop the read with it. */
  datatype Next = Continue(cf: Cf) | Stop(cf: Cf)

  /** One turn of CfRead's loop. */
  function Step(cf: Cf, line: string, cmt: bool): (n: Next)
    requires WellFormed(cf)
    ensures WellFormed(n.cf) && Max(n.cf) == Max(cf)
    ensures n.Stop? ==> n.cf == cf
    ensures forall i :: 0 <= i < Max(cf) && cf.keys[i].Some? ==> n.cf.keys[i] == cf.keys[i]
    ensures UniqueRegularKeys(cf) ==> UniqueRegularKeys(n.cf)
    ensures Compact(cf) ==> Compact(n.cf)
  {
    match ParseLine(line, cmt)
    case Skip => Continue(cf)
    case Assign(key, value) =>
      var u := SetKey(cf, key, value, NoFailure);
      if u.code != 0 then Stop(u.cf) else Continue(u.cf)
    case _ => Stop(cf)
  }

  /** CfRead's loop over the lines of an opened file: stop with -1 at the
      first line that is too long or malformed, or whose CfSetKey fails;
      everything set before that point stays in the store. */
  function ReadLines(cf: Cf, lines: seq<string>, cmt: bool): (l: Loaded)
    requires WellFormed(cf)
    ensures WellFormed(l.cf) && Max(l.cf) == Max(cf)
    ensures l.code == 0 || l.code == -1
    ensures forall i :: 0 <= i < Max(cf) && cf.keys[i].Some? ==> l.cf.keys[i] == cf.keys[i]
    ensures UniqueRegularKeys(cf) ==> UniqueRegularKeys(l.cf)
    ensures Compact(cf) ==> Compact(l.cf)
    decreases |lines|
  {
    if lines == [] then Loaded(cf, 0)
    else
      match Step(cf, lines[0], cmt)
      case Continue(next) => ReadLines(next, lines[1..], cmt)
      case Stop(last) => Loaded(last, -1)
  }

  /** CfRead: -1 with the store untouched when the file cannot be opened. */
  function Read(cf: Cf, file: Option<seq<string>>, cmt: bool): (l: Loaded)
    requires WellFormed(cf)
    ensures WellFormed(l.cf) && Max(l.cf) == Max(cf)
    ensures l.code == 0 || l.code == -1
    ensures file.None? ==> l == Loaded(cf, -1)
    ensures forall i :: 0 <= i < Max(cf) && cf.keys[i].Some? ==> l.cf.keys[i] == cf.keys[i]
    ensures UniqueRegularKeys(cf) ==> UniqueRegularKeys(l.cf)
    ensures Compact(cf) ==> Compact(l.cf)
  {
    match file
    case None => Loaded(cf, -1)
    case Some(lines) => ReadLines(cf, lines, cmt)
  }

  /** Reading is line by line: reading `a + b` is reading `a` and, if that
      succeeded, going on with `b` from the resulting store; a failure in
      `a` ends the read there. */
  lemma {:induction false} ReadLinesSplit(cf: Cf, a: seq<string>, b: seq<string>, cmt: bool)
    requires WellFormed(cf)
    ensures var r := ReadLines(cf, a, cmt);
      ReadLines(cf, a + b, cmt) == if r.code == 0 then ReadLines(r.cf, b, cmt) else r
    decreases |a|
  {
    if a == [] {
      assert a + b == b;
    } else {
      var ab := a + b;
      assert ab[0] == a[0] && ab[1..] == a[1..] + b;
      var n := Step(cf, a[0], cmt);
      if n.Continue? {
        assert ReadLines(cf, a, cmt) == ReadLines(n.cf, a[1..], cmt);
        assert ReadLines(cf, ab, cmt) == ReadLines(n.cf, a[1..] + b, cmt);
        ReadLinesSplit(n.cf, a[1..], b, cmt);
      } else {
        assert ReadLines(cf, a, cmt) == Loaded(n.cf, -1);
        assert ReadLines(cf, ab, cmt) == Loaded(n.cf, -1);
      }
    }
  }

  /** A malformed or overlong line after lines that all read successfully
      makes CfRead return -1 with exactly the store the earlier lines
      built; the lines after it are never looked at. */
  lemma {:induction false} StopsAtBadLine(cf: Cf, good: seq<string>, bad: string, rest: seq<string>, cmt: bool)
    requires WellFormed(cf)
    requires ReadLines(cf, good, cmt).code == 0
    requires ParseLine(bad, cmt) == Malformed || ParseLine(bad, cmt) == TooLong
    ensures ReadLines(cf, good + [bad] + rest, cmt) == Loaded(ReadLines(cf, good, cmt).cf, -1)
  {
    assert good + [bad] + rest == good + ([bad] + rest);
    ReadLinesSplit(cf, good, [bad] + rest, cmt);
  }

  /** The text CfWrite prints for one entry (without the newline). */
  function FormatEntry(key: string, value: string): string {
    if key == [] then []
    else if key[0] == '#' || key[0] == ';' then key + " " + value
    else key + " = " + value
  }

  /** CfWrite: one line per occupied slot, in slot order. */
  function Write(cf: Cf): (lines: seq<string>)
    requires WellFormed(cf)
    ensures |lines| == |Entries(cf)|
    ensures forall j :: 0 <= j < |lines| ==> lines[j] == FormatEntry(Entries(cf)[j].0, Entries(cf)[j].1)
  {
    WriteFrom(cf, 0)
  }

  function WriteFrom(cf: Cf, i: nat): (lines: seq<string>)
    requires WellFormed(cf) && i <= Max(cf)
    ensures |lines| == |EntriesFrom(cf, i)|
    ensures forall j :: 0 <= j < |lines| ==>
      lines[j] == FormatEntry(EntriesFrom(cf, i)[j].0, EntriesFrom(cf, i)[j].1)
    decreases Max(cf) - i
  {
    if i == Max(cf) then []
    else if cf.keys[i].Some? then
      [FormatEntry(cf.keys[i].value, cf.values[i].value)] + WriteFrom(cf, i + 1)
    else WriteFrom(cf, i + 1)
  }

}
