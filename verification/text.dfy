/** Character classes and the blank-skipping helpers of the configuration
    library (cf.h). Characters are taken as ASCII in the "C" locale, so
    `isalnum`, `isdigit` and `isspace` are fixed character ranges. The C
    code walks a `char *` over a buffer; here a walk is an index into the
    string. */
module Text {

  /** Space or tab: the only characters xCfLfSpaces and xCfRtSpaces skip. */
  predicate IsBlank(c: char) {
    c == ' ' || c == '\t'
  }

  /** C `isspace`: space, tab, newline, vertical tab, form feed, carriage return. */
  predicate IsSpace(c: char) {
    c == ' ' || '\t' <= c <= '\r'
  }

  predicate IsDigit(c: char) {
    '0' <= c <= '9'
  }

  predicate IsAlnum(c: char) {
    IsDigit(c) || 'A' <= c <= 'Z' || 'a' <= c <= 'z'
  }

  /** Characters allowed in a key name: A..Z a..z 0..9 . _ - */
  predicate IsKeyChar(c: char) {
    IsAlnum(c) || c == '.' || c == '_' || c == '-'
  }

  predicate All(s: string, p: char -> bool) {
    forall i :: 0 <= i < |s| ==> p(s[i])
  }

  /** Every character of `s[i..j]` satisfies `p`. */
  predicate AllBetween(s: string, i: int, j: int, p: char -> bool)
    requires 0 <= i && j <= |s|
  {
    forall k :: i <= k < j ==> p(s[k])
  }

  lemma AllOfSlice(s: string, i: int, j: int, p: char -> bool)
    requires 0 <= i <= j <= |s| && AllBetween(s, i, j, p)
    ensures All(s[i..j], p)
  {
    forall k | 0 <= k < j - i ensures p(s[i..j][k]) { assert s[i..j][k] == s[i + k]; }
  }

  /** A key name as the reader accepts it: one or more key characters. */
  predicate KeyName(k: string) {
    k != [] && All(k, IsKeyChar)
  }

  /** Neither starts nor ends with a blank (the shape trimming leaves). */
  predicate Clean(s: string) {
    s == [] || (!IsBlank(s[0]) && !IsBlank(s[|s| - 1]))
  }

  /** Walk forward from `i` over characters satisfying `p`: the index of the
      first one that does not, or |s|. */
  function Scan(s: string, i: nat, p: char -> bool): (j: nat)
    requires i <= |s|
    ensures i <= j <= |s|
    ensures AllBetween(s, i, j, p)
    ensures j == |s| || !p(s[j])
    decreases |s| - i
  {
    if i == |s| || !p(s[i]) then i else Scan(s, i + 1, p)
  }

  /** Walk backward from `j` over characters satisfying `p`: the start of
      the run of them that ends at `j`. */
  function ScanBack(s: string, j: nat, p: char -> bool): (i: nat)
    requires j <= |s|
    ensures i <= j
    ensures AllBetween(s, i, j, p)
    ensures i == 0 || !p(s[i - 1])
  {
    if j == 0 || !p(s[j - 1]) then j else ScanBack(s, j - 1, p)
  }

  /** The forward walk stops exactly at the first character outside `p`. */
  lemma {:induction false} ScanStopsAt(s: string, i: nat, j: nat, p: char -> bool)
    requires i <= j <= |s|
    requires AllBetween(s, i, j, p)
    requires j == |s| || !p(s[j])
    ensures Scan(s, i, p) == j
    decreases j - i
  {
    if i < j {
      ScanStopsAt(s, i + 1, j, p);
    }
  }

  /** The backward walk stops exactly after the last character outside `p`. */
  lemma {:induction false} ScanBackStopsAt(s: string, i: nat, j: nat, p: char -> bool)
    requires i <= j <= |s|
    requires AllBetween(s, i, j, p)
    requires i == 0 || !p(s[i - 1])
    ensures ScanBack(s, j, p) == i
    decreases j - i
  {
    if i < j {
      ScanBackStopsAt(s, i, j - 1, p);
    }
  }

  /** xCfLfSpaces: `s` without its leading spaces and tabs. */
  function LfSpaces(s: string): (r: string)
    ensures |r| <= |s| && r == s[|s| - |r|..]
    ensures All(s[..|s| - |r|], IsBlank)
    ensures r == [] || !IsBlank(r[0])
  {
    var i := Scan(s, 0, IsBlank);
    assert All(s[..i], IsBlank) by {
      forall k | 0 <= k < i ensures IsBlank(s[..i][k]) { assert s[..i][k] == s[k]; }
    }
    s[i..]
  }

  /** xCfRtSpaces: `s` without its trailing spaces and tabs. */
  function RtSpaces(s: string): (r: string)
    ensures |r| <= |s| && r == s[..|r|]
    ensures All(s[|r|..], IsBlank)
    ensures r == [] || !IsBlank(r[|r| - 1])
  {
    var i := ScanBack(s, |s|, IsBlank);
    assert All(s[i..], IsBlank) by {
      forall k | 0 <= k < |s| - i ensures IsBlank(s[i..][k]) { assert s[i..][k] == s[i + k]; }
    }
    s[..i]
  }

  /** Both trims, in the order CfRead applies them to a line. */
  function Trim(s: string): (r: string)
    ensures Clean(r)
    ensures |r| <= |s|
  {
    RtSpaces(LfSpaces(s))
  }

  /** Leading blanks are exactly what xCfLfSpaces removes. */
  lemma LfSpacesOfPadded(a: string, t: string)
    requires All(a, IsBlank)
    requires t == [] || !IsBlank(t[0])
    ensures LfSpaces(a + t) == t
  {
    var s := a + t;
    assert AllBetween(s, 0, |a|, IsBlank) by {
      forall k | 0 <= k < |a| ensures IsBlank(s[k]) { assert s[k] == a[k]; }
    }
    ScanStopsAt(s, 0, |a|, IsBlank);
    assert s[|a|..] == t;
  }

  /** Trailing blanks are exactly what xCfRtSpaces removes. */
  lemma RtSpacesOfPadded(t: string, b: string)
    requires All(b, IsBlank)
    requires t == [] || !IsBlank(t[|t| - 1])
    ensures RtSpaces(t + b) == t
  {
    var s := t + b;
    assert AllBetween(s, |t|, |s|, IsBlank) by {
      forall k | |t| <= k < |s| ensures IsBlank(s[k]) { assert s[k] == b[k - |t|]; }
    }
    ScanBackStopsAt(s, |t|, |s|, IsBlank);
    assert s[..|t|] == t;
  }

  /** Trimming a clean text padded with blanks on both sides gives back
      exactly that text. */
  lemma TrimOfPadded(a: string, t: string, b: string)
    requires All(a, IsBlank) && All(b, IsBlank)
    requires Clean(t)
    ensures Trim(a + t + b) == t
  {
    if t == [] {
      assert a + t + b == (a + b) + [];
      assert All(a + b, IsBlank) by {
        forall k | 0 <= k < |a + b| ensures IsBlank((a + b)[k]) {
          if k < |a| { assert (a + b)[k] == a[k]; } else { assert (a + b)[k] == b[k - |a|]; }
        }
      }
      LfSpacesOfPadded(a + b, []);
      assert RtSpaces([]) == [];
    } else {
      assert a + t + b == a + (t + b);
      LfSpacesOfPadded(a, t + b);
      RtSpacesOfPadded(t, b);
    }
  }

  /** Numeric value of a decimal digit. */
  function DigitValue(c: char): (d: nat)
    requires IsDigit(c)
    ensures d < 10
  {
    c as int - '0' as int
  }

  /** Mathematical value of a string of decimal digits (empty string: 0). */
  function Dec(s: string): nat
    requires All(s, IsDigit)
  {
    if s == [] then 0
    else
      assert All(s[..|s| - 1], IsDigit);
      Dec(s[..|s| - 1]) * 10 + DigitValue(s[|s| - 1])
  }

}
