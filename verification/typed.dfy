/** The typed accessor layer of cf.h: CfGetBool, CfGetInt, CfGetUint,
    CfGetStr, CfSetBool, CfSetStr and the visitor CfGetAll, all built on
    the raw CfGetKey / CfSetKey. */
module Typed {

  import opened Options
  import opened Text
  import opened Arrays
  import opened Store

  const IntMin := -0x8000_0000
  const IntMax := 0x7fff_ffff
  const UintBase := 0x1_0000_0000

  /** C `int` and `unsigned int`, 32 bits wide. */
  type int32 = n: int | IntMin <= n <= IntMax
  type uint32 = n: int | 0 <= n < UintBase

  /** CfGetBool: 1 for the raw value "true", 0 for "false", otherwise (and
      for an absent key) the default. */
  function GetBool(cf: Cf, key: string, def: int32): (r: int32)
    requires WellFormed(cf)
    ensures GetKey(cf, key) == Some("true") ==> r == 1
    ensures GetKey(cf, key) == Some("false") ==> r == 0
    ensures GetKey(cf, key) != Some("true") && GetKey(cf, key) != Some("false") ==> r == def
  {
    match GetKey(cf, key)
    case Some(value) =>
      if value == "true" then 1 else if value == "false" then 0 else def
    case None => def
  }

  /** CfSetBool: store "true" for a non-zero argument, "false" for zero. */
  function SetBool(cf: Cf, key: string, value: int32, mem: Alloc): (u: Updated)
    requires WellFormed(cf)
    ensures WellFormed(u.cf) && Max(u.cf) == Max(cf)
    ensures u.code == 0 || u.code == -1
    ensures u.code == -1 ==> u.cf == cf
  {
    SetKey(cf, key, if value != 0 then "true" else "false", mem)
  }

  /** Reading back a boolean that was set gives 1 or 0, whatever the default. */
  lemma BoolRoundTrip(cf: Cf, key: string, value: int32, mem: Alloc, def: int32)
    requires WellFormed(cf) && Regular(key)
    requires SetBool(cf, key, value, mem).code == 0
    ensures GetBool(SetBool(cf, key, value, mem).cf, key, def) == (if value != 0 then 1 else 0)
  {
    GetAfterSet(cf, key, if value != 0 then "true" else "false", mem);
  }

  /** With a default outside {0, 1}, the result tells exactly which of the
      two literal spellings is stored. */
  lemma BoolExactSpelling(cf: Cf, key: string, def: int32)
    requires WellFormed(cf) && def != 0 && def != 1
    ensures GetBool(cf, key, def) == 1 <==> GetKey(cf, key) == Some("true")
    ensures GetBool(cf, key, def) == 0 <==> GetKey(cf, key) == Some("false")
  {
  }

  /** Clamp to the range of a 32-bit int, as strtol does for a 32-bit long. */
  function Saturate(n: int): (r: int32)
    ensures IntMin <= n <= IntMax ==> r == n
    ensures n < IntMin ==> r == IntMin
    ensures n > IntMax ==> r == IntMax
  {
    if n < IntMin then IntMin else if n > IntMax then IntMax else n
  }

  /** C `atoi`: skip white space, read an optional sign and the longest run
      of digits, ignore the rest. */
  function Atoi(s: string): int32 {
    var i := Scan(s, 0, IsSpace);
    var neg := i < |s| && s[i] == '-';
    var j := if i < |s| && (s[i] == '-' || s[i] == '+') then i + 1 else i;
    var d := Scan(s, j, IsDigit);
    AllOfSlice(s, j, d, IsDigit);
    var magnitude: int := Dec(s[j..d]);
    Saturate(if neg then -magnitude else magnitude)
  }

  /** A value laid out as white space, sign, digits and a tail that does
      not start with a digit reads as the signed value of the digits. */
  lemma {:induction false} AtoiReadsDecimal(ws: string, sign: string, digits: string, tail: string)
    requires All(ws, IsSpace)
    requires sign == "" || sign == "+" || sign == "-"
    requires digits != [] && All(digits, IsDigit)
    requires tail == [] || !IsDigit(tail[0])
    ensures Atoi(ws + sign + digits + tail) == Saturate(if sign == "-" then -(Dec(digits) as int) else Dec(digits))
  {
    var s := ws + sign + digits + tail;
    var i := |ws|;
    var j := i + |sign|;
    var d := j + |digits|;
    assert AllBetween(s, 0, i, IsSpace) by {
      forall k | 0 <= k < i ensures IsSpace(s[k]) { assert s[k] == ws[k]; }
    }
    assert s[i] == if sign == "" then digits[0] else sign[0];
    ScanStopsAt(s, 0, i, IsSpace);
    assert AllBetween(s, j, d, IsDigit) by {
      forall k | j <= k < d ensures IsDigit(s[k]) { assert s[k] == digits[k - j]; }
    }
    assert d == |s| || s[d] == tail[0];
    ScanStopsAt(s, j, d, IsDigit);
    assert s[j..d] == digits;
  }

  /** A value with no digit after its white space and optional sign reads
      as 0 (where CfGetUint falls back to the default instead). */
  lemma {:induction false} AtoiNoDigits(ws: string, sign: string, tail: string)
    requires All(ws, IsSpace)
    requires sign == "" || sign == "+" || sign == "-"
    requires tail == [] || !IsDigit(tail[0])
    requires sign == "" && tail != [] ==> !IsSpace(tail[0]) && tail[0] != '+' && tail[0] != '-'
    ensures Atoi(ws + sign + tail) == 0
  {
    var s := ws + sign + tail;
    var i := |ws|;
    var j := i + |sign|;
    assert AllBetween(s, 0, i, IsSpace) by {
      forall k | 0 <= k < i ensures IsSpace(s[k]) { assert s[k] == ws[k]; }
    }
    assert i == |s| || s[i] == (if sign == "" then tail[0] else sign[0]);
    ScanStopsAt(s, 0, i, IsSpace);
    assert j == |s| || s[j] == tail[0];
    ScanStopsAt(s, j, j, IsDigit);
    assert s[j..j] == [];
  }

  /** CfGetInt: `atoi` of the raw value, or the default for an absent key. */
  function GetInt(cf: Cf, key: string, def: int32): (r: int32)
    requires WellFormed(cf)
    ensures GetKey(cf, key).None? ==> r == def
    ensures forall v :: GetKey(cf, key) == Some(v) ==> r == Atoi(v)
  {
    match GetKey(cf, key)
    case Some(value) => Atoi(value)
    case None => def
  }

  lemma ModStep(a: int, d: int)
    ensures ((a % UintBase) * 10 + d) % UintBase == (a * 10 + d) % UintBase
  {
    var q := a / UintBase;
    assert a == q * UintBase + a % UintBase;
    assert a * 10 + d == (a % UintBase) * 10 + d + (q * 10) * UintBase;
  }

  /** CfGetUint: when every character of the raw value is a decimal digit,
      its value modulo 2^32 (so 0 for the empty value); otherwise, or for
      an absent key, the default. */
  method GetUint(cf: Cf, key: string, def: uint32) returns (r: uint32)
    requires WellFormed(cf)
    ensures GetKey(cf, key).None? ==> r == def
    ensures forall v :: GetKey(cf, key) == Some(v) && All(v, IsDigit) ==> r == Dec(v) % UintBase
    ensures forall v :: GetKey(cf, key) == Some(v) && !All(v, IsDigit) ==> r == def
  {
    var value := GetKey(cf, key);
    if value.Some? {
      var s := value.value;
      var val: uint32 := 0;
      var i := 0;
      while i < |s| && IsDigit(s[i])
        invariant 0 <= i <= |s|
        invariant All(s[..i], IsDigit)
        invariant val == Dec(s[..i]) % UintBase
      {
        assert s[..i + 1][..i] == s[..i];
        ModStep(Dec(s[..i]), DigitValue(s[i]));
        val := (val * 10 + DigitValue(s[i])) % UintBase;
        i := i + 1;
      }
      if i == |s| {
        assert s[..i] == s;
        return val;
      }
    }
    return def;
  }

  /** The store and the string returned by CfGetStr, which may shorten the
      stored value. */
  datatype Fetched = Fetched(cf: Cf, str: string)

  /** A raw value CfGetStr accepts as quoted: at least two characters,
      a double quote at each end. */
  predicate QuotedValue(v: string) {
    |v| >= 2 && v[0] == '"' && v[|v| - 1] == '"'
  }

  /** CfGetStr. A value not starting with a double quote is returned as it
      is. A value starting with one must also end with one: the interior is
      returned, and the closing quote is removed from the STORED value (it
      is overwritten with the terminator in place). A quote that does not
      close, or an absent key, yields the default and changes nothing. */
  function GetStr(cf: Cf, key: string, def: string): (f: Fetched)
    requires WellFormed(cf)
    ensures WellFormed(f.cf) && f.cf.keys == cf.keys
    ensures UniqueRegularKeys(cf) ==> UniqueRegularKeys(f.cf)
    ensures Compact(cf) ==> Compact(f.cf)
    ensures match GetKey(cf, key)
      case None => f == Fetched(cf, def)
      case Some(v) =>
        if v == [] || v[0] != '"' then f == Fetched(cf, v)
        else if !QuotedValue(v) then f == Fetched(cf, def)
        else
          && f.str == v[1..|v| - 1]
          && (forall i :: FirstHolder(cf.keys, key, i) ==> f.cf == Cf(cf.keys, cf.values[i := Some(v[..|v| - 1])]))
          && GetKey(f.cf, key) == Some(v[..|v| - 1])
          && forall k :: k != key ==> GetKey(f.cf, k) == GetKey(cf, k)
  {
    var entry := Find(cf.keys, key);
    if entry == -1 then Fetched(cf, def)
    else
      var value := cf.values[entry].value;
      if value != [] && value[0] == '"' then
        if |value| >= 2 && value[|value| - 1] == '"' then
          var cf' := Cf(cf.keys, cf.values[entry := Some(value[..|value| - 1])]);
          assert forall k :: GetKey(cf', k) == (if k == key then Some(value[..|value| - 1]) else GetKey(cf, k)) by {
            forall k { ReplaceValue(cf, key, entry, value[..|value| - 1], k); }
          }
          Fetched(cf', value[1..|value| - 1])
        else Fetched(cf, def)
      else Fetched(cf, value)
  }

  /** Because the closing quote is consumed, a second CfGetStr of the same
      key falls back to the default, unless the interior itself ended with
      a double quote. */
  lemma GetStrTwice(cf: Cf, key: string, def1: string, def2: string)
    requires WellFormed(cf)
    requires GetKey(cf, key).Some? && QuotedValue(GetKey(cf, key).value)
    requires var v := GetKey(cf, key).value; |v| == 2 || v[|v| - 2] != '"'
    ensures var f := GetStr(cf, key, def1);
      GetStr(f.cf, key, def2) == Fetched(f.cf, def2)
  {
  }

  /** The string CfSetStr builds: a buffer of strlen(value) + 2 bytes gets a
      quote, then a copy of `value` with its terminator, then a quote at
      index size - 2 = strlen(value). That last write lands on the value's
      own last character, not after it; the terminator copied at index
      strlen(value) + 1 survives and ends the string. */
  function QuotedAsWritten(value: string): (tmp: string)
    ensures |tmp| == |value| + 1
    ensures tmp[0] == '"' && tmp[|value|] == '"'
    ensures value != [] ==> tmp[1..|value|] == value[..|value| - 1]
  {
    var n := |value|;
    var buf := ['"'] + value + ['\0'];
    var buf' := buf[n := '"'];
    buf'[..n + 1]
  }

  /** CfSetStr as written: `tmpAlloc` is the success of its own malloc. */
  function SetStr(cf: Cf, key: string, value: string, tmpAlloc: bool, mem: Alloc): (u: Updated)
    requires WellFormed(cf)
    ensures WellFormed(u.cf) && Max(u.cf) == Max(cf)
    ensures u.code == 0 || u.code == -1
    ensures u.code == -1 ==> u.cf == cf
    ensures !tmpAlloc ==> u.code == -1
  {
    if tmpAlloc then SetKey(cf, key, QuotedAsWritten(value), mem) else Updated(cf, -1)
  }

  /** The defect in CfSetStr: a non-empty string comes back from CfGetStr
      without its last character, and the empty string does not come back
      at all (the stored value is a lone quote, so the default is returned). */
  lemma {:induction false} SetStrDropsLastChar(cf: Cf, key: string, value: string, tmpAlloc: bool, mem: Alloc, def: string)
    requires WellFormed(cf) && Regular(key)
    requires SetStr(cf, key, value, tmpAlloc, mem).code == 0
    ensures var f := GetStr(SetStr(cf, key, value, tmpAlloc, mem).cf, key, def);
      && (value != [] ==> f.str == value[..|value| - 1] && f.str != value)
      && (value == [] ==> f.str == def)
  {
    GetAfterSet(cf, key, QuotedAsWritten(value), mem);
  }

  /** The string CfSetStr evidently means to store: `value` between quotes. */
  function Quote(value: string): (tmp: string)
    ensures QuotedValue(tmp) && tmp[1..|tmp| - 1] == value
  {
    ['"'] + value + ['"']
  }

  /** CfSetStr corrected to allocate strlen(value) + 3 bytes and put the
      closing quote after the copy. */
  function SetStrIntended(cf: Cf, key: string, value: string, tmpAlloc: bool, mem: Alloc): (u: Updated)
    requires WellFormed(cf)
    ensures WellFormed(u.cf) && Max(u.cf) == Max(cf)
    ensures u.code == 0 || u.code == -1
    ensures u.code == -1 ==> u.cf == cf
    ensures !tmpAlloc ==> u.code == -1
  {
    if tmpAlloc then SetKey(cf, key, Quote(value), mem) else Updated(cf, -1)
  }

  /** With the correction, CfGetStr returns exactly the string set. */
  lemma SetStrIntendedRoundTrip(cf: Cf, key: string, value: string, tmpAlloc: bool, mem: Alloc, def: string)
    requires WellFormed(cf) && Regular(key)
    requires SetStrIntended(cf, key, value, tmpAlloc, mem).code == 0
    ensures GetStr(SetStrIntended(cf, key, value, tmpAlloc, mem).cf, key, def).str == value
  {
    GetAfterSet(cf, key, Quote(value), mem);
  }

  /** CfGetAll: the (key, value) pairs handed to the visitor, in slot order.
      The visitor's non-zero answer (`stop` true) ends the walk after that
      pair. */
  function GetAll(cf: Cf, stop: ((string, string)) -> bool): (visited: seq<(string, string)>)
    requires WellFormed(cf)
    ensures |visited| <= |Entries(cf)| && visited == Entries(cf)[..|visited|]
    ensures forall j :: 0 <= j < |visited| - 1 ==> !stop(visited[j])
    ensures |visited| < |Entries(cf)| ==> visited != [] && stop(visited[|visited| - 1])
  {
    GetAllFrom(cf, stop, 0)
  }

  function GetAllFrom(cf: Cf, stop: ((string, string)) -> bool, i: nat): (visited: seq<(string, string)>)
    requires WellFormed(cf) && i <= Max(cf)
    ensures |visited| <= |EntriesFrom(cf, i)| && visited == EntriesFrom(cf, i)[..|visited|]
    ensures forall j :: 0 <= j < |visited| - 1 ==> !stop(visited[j])
    ensures |visited| < |EntriesFrom(cf, i)| ==> visited != [] && stop(visited[|visited| - 1])
    decreases Max(cf) - i
  {
    if i == Max(cf) then []
    else if cf.keys[i].Some? then
      var e := (cf.keys[i].value, cf.values[i].value);
      if stop(e) then [e] else [e] + GetAllFrom(cf, stop, i + 1)
    else GetAllFrom(cf, stop, i + 1)
  }

}
