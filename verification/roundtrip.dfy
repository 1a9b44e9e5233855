/** Writing a store with CfWrite and reading the text back with CfRead,
    comments kept, into a fresh store of the same capacity. */
module RoundTrip {

  import opened Options
  import opened Text
  import opened Arrays
  import opened Store
  import opened Format

  type Entry = (string, string)

  /** A store of capacity `max` whose first |es| slots hold `es` in order and
      whose other slots are free. */
  function Packed(es: seq<Entry>, max: nat): (cf: Cf)
    requires |es| <= max
    ensures WellFormed(cf) && Max(cf) == max && Compact(cf)
    ensures forall j :: 0 <= j < max ==> (cf.keys[j].Some? <==> j < |es|)
  {
    Cf(seq(max, j requires 0 <= j < max => if j < |es| then Some(es[j].0) else None),
       seq(max, j requires 0 <= j < max => if j < |es| then Some(es[j].1) else None))
  }

  /** No regular key occurs twice in a list of entries. */
  predicate UniqueRegular(es: seq<Entry>) {
    forall i, j :: 0 <= i < j < |es| && Regular(es[i].0) ==> es[j].0 != es[i].0
  }

  /** Every entry listed from slot `i` on comes from some slot at or after `i`. */
  lemma {:induction false} EntryOrigin(cf: Cf, i: nat, p: int)
    requires WellFormed(cf) && i <= Max(cf) && 0 <= p < |EntriesFrom(cf, i)|
    ensures exists j :: (i <= j < Max(cf) && cf.keys[j] == Some(EntriesFrom(cf, i)[p].0)
                         && cf.values[j] == Some(EntriesFrom(cf, i)[p].1))
    decreases Max(cf) - i
  {
    var es := EntriesFrom(cf, i);
    if cf.keys[i].Some? && p == 0 {
      assert cf.keys[i] == Some(es[0].0) && cf.values[i] == Some(es[0].1);
    } else if cf.keys[i].Some? {
      assert es[p] == EntriesFrom(cf, i + 1)[p - 1];
      EntryOrigin(cf, i + 1, p - 1);
    } else {
      EntryOrigin(cf, i + 1, p);
    }
  }

  /** A store without duplicate regular keys lists none either. */
  lemma {:induction false} EntriesUnique(cf: Cf, i: nat)
    requires WellFormed(cf) && UniqueRegularKeys(cf) && i <= Max(cf)
    ensures UniqueRegular(EntriesFrom(cf, i))
    decreases Max(cf) - i
  {
    if i < Max(cf) {
      EntriesUnique(cf, i + 1);
      if cf.keys[i].Some? {
        var r := EntriesFrom(cf, i + 1);
        var es := EntriesFrom(cf, i);
        forall p, q | 0 <= p < q < |es| && Regular(es[p].0) ensures es[q].0 != es[p].0 {
          assert es[q] == r[q - 1];
          if p == 0 {
            EntryOrigin(cf, i + 1, q - 1);
            var j :| i + 1 <= j < Max(cf) && cf.keys[j] == Some(r[q - 1].0);
            assert cf.keys[i] == Some(es[0].0);
          } else {
            assert es[p] == r[p - 1];
          }
        }
      }
    }
  }

  /** No entry is listed from a point past which every slot is free. */
  lemma {:induction false} EntriesOfFreeTail(cf: Cf, i: nat)
    requires WellFormed(cf) && i <= Max(cf)
    requires forall j :: i <= j < Max(cf) ==> cf.keys[j].None?
    ensures EntriesFrom(cf, i) == []
    decreases Max(cf) - i
  {
    if i < Max(cf) {
      EntriesOfFreeTail(cf, i + 1);
    }
  }

  /** When exactly the first `n` slots are taken, the entries listed from
      slot `i` are those of slots i .. n - 1. */
  lemma {:induction false} EntriesOfPrefix(cf: Cf, i: nat, n: nat)
    requires WellFormed(cf) && i <= n <= Max(cf)
    requires forall j :: 0 <= j < Max(cf) ==> (cf.keys[j].Some? <==> j < n)
    ensures |EntriesFrom(cf, i)| == n - i
    ensures forall p :: 0 <= p < n - i ==>
      EntriesFrom(cf, i)[p] == (cf.keys[i + p].value, cf.values[i + p].value)
    decreases n - i
  {
    if i == n {
      EntriesOfFreeTail(cf, i);
    } else {
      EntriesOfPrefix(cf, i + 1, n);
      var es := EntriesFrom(cf, i);
      assert es == [(cf.keys[i].value, cf.values[i].value)] + EntriesFrom(cf, i + 1);
    }
  }

  /** A packed store lists exactly the entries it was packed from. */
  lemma {:induction false} EntriesOfPacked(es: seq<Entry>, max: nat)
    requires |es| <= max
    ensures Entries(Packed(es, max)) == es
  {
    EntriesOfPrefix(Packed(es, max), 0, |es|);
  }

  /** A compact store is the packing of its own entries. */
  lemma {:induction false} CompactIsPacked(cf: Cf)
    requires WellFormed(cf) && Compact(cf)
    ensures Packed(Entries(cf), Max(cf)) == cf
  {
    var f := FirstFree(cf.keys);
    var n := if f == -1 then Max(cf) else f;
    assert forall j :: 0 <= j < Max(cf) ==> (cf.keys[j].Some? <==> j < n);
    EntriesOfPrefix(cf, 0, n);
    var pk := Packed(Entries(cf), Max(cf));
    assert pk.keys == cf.keys;
    assert pk.values == cf.values;
  }

  /** An entry CfWrite prints as a line CfRead turns back into the same
      entry: a blank line holds nothing; a comment's text and a value carry
      no blanks at either end and no newline; a regular key is a key name
      with a non-empty value; and the line fits the input buffer. */
  predicate Writable(key: string, value: string) {
    && '\n' !in value
    && if key == [] then value == []
       else if key == "#" || key == ";" then Clean(value) && |FormatEntry(key, value)| <= LineMax
       else KeyName(key) && value != [] && Clean(value) && |FormatEntry(key, value)| <= LineMax
  }

  /** Each line CfWrite prints for a writable entry reads back as that entry. */
  lemma {:induction false} LineRoundTrip(key: string, value: string)
    requires Writable(key, value)
    ensures ParseLine(FormatEntry(key, value), true) == Assign(key, value)
  {
    if key == [] {
      assert Trim([]) == [];
    } else if key == "#" || key == ";" {
      CommentRoundTrip(key[0], value);
    } else {
      assert |FormatEntry(key, value)| == |key| + 3 + |value|;
      AssignmentRoundTrip(key, value);
    }
  }

  /** A printed comment line reads back as the same comment. */
  lemma {:induction false} CommentRoundTrip(marker: char, text: string)
    requires marker == '#' || marker == ';'
    requires Writable([marker], text)
    ensures ParseLine([marker] + " " + text, true) == Assign([marker], text)
  {
    var line := [marker] + " " + text;
    assert line == [] + [marker] + " " + text + [];
    CommentLine(line, true, [], marker, " ", text, []);
  }

  /** A printed `key = value` line reads back as the same entry. */
  lemma {:induction false} AssignmentRoundTrip(key: string, value: string)
    requires KeyName(key) && value != [] && Clean(value)
    requires |key| + 3 + |value| <= LineMax
    ensures ParseLine(key + " = " + value, true) == Assign(key, value)
  {
    var line := key + " = " + value;
    PrintedIsClean(key, value);
    assert !CommentOrBlank(line) by {
      assert line[0] == key[0] && IsKeyChar(key[0]);
    }
    PrintedIsAssignment(key, value);
    AssignmentGrammar(line, true, key, value);
  }

  /** A printed `key = value` line is left alone by trimming. */
  lemma PrintedIsClean(key: string, value: string)
    requires KeyName(key) && value != [] && Clean(value)
    ensures Trim(key + " = " + value) == key + " = " + value
  {
    var line := key + " = " + value;
    assert line[0] == key[0] && IsKeyChar(key[0]);
    assert line[|line| - 1] == value[|value| - 1];
    assert [] + line + [] == line;
    TrimOfPadded([], line, []);
  }

  /** A printed `key = value` line has the shape of an assignment. */
  lemma PrintedIsAssignment(key: string, value: string)
    requires KeyName(key) && value != [] && Clean(value)
    ensures IsAssignment(key + " = " + value, key, value)
  {
    var line := key + " = " + value;
    var e := |key| + 1;
    assert line[..|key|] == key;
    assert line[|line| - |value|..] == value;
    assert line[e] == '=';
    assert AllBetween(line, |key|, e, IsBlank) && AllBetween(line, e + 1, |line| - |value|, IsBlank);
  }

  /** Reading one printed line into a packed store appends its entry. */
  lemma {:induction false} StepAppends(done: seq<Entry>, key: string, value: string, max: nat)
    requires |done| < max && Writable(key, value)
    requires Regular(key) ==> forall i :: 0 <= i < |done| ==> done[i].0 != key
    ensures Step(Packed(done, max), FormatEntry(key, value), true)
      == Continue(Packed(done + [(key, value)], max))
  {
    LineRoundTrip(key, value);
    AppendToPacked(done, key, value, max);
  }

  /** Setting an entry whose key is new (or not regular) in a packed store
      appends it. */
  lemma {:induction false} AppendToPacked(done: seq<Entry>, key: string, value: string, max: nat)
    requires |done| < max
    requires Regular(key) ==> forall i :: 0 <= i < |done| ==> done[i].0 != key
    ensures SetKey(Packed(done, max), key, value, NoFailure) == Updated(Packed(done + [(key, value)], max), 0)
  {
    var cf := Packed(done, max);
    var n := |done|;
    assert LowestFree(cf.keys, n);
    if Regular(key) {
      assert forall i :: 0 <= i < max ==> cf.keys[i] != Some(key) by {
        forall i | 0 <= i < max ensures cf.keys[i] != Some(key) {
          if i < n { assert cf.keys[i] == Some(done[i].0); }
        }
      }
    }
    var u := SetKey(cf, key, value, NoFailure);
    assert u.cf == Cf(cf.keys[n := Some(key)], cf.values[n := Some(value)]);
    var next := Packed(done + [(key, value)], max);
    assert next.keys == cf.keys[n := Some(key)];
    assert next.values == cf.values[n := Some(value)];
  }

  /** Reading the lines printed for `rest` into a store packed with `done`
      appends `rest` after `done`. */
  lemma {:induction false} ReadPacked(done: seq<Entry>, rest: seq<Entry>, lines: seq<string>, max: nat)
    requires |done| + |rest| <= max
    requires |lines| == |rest|
    requires forall j :: 0 <= j < |rest| ==> Writable(rest[j].0, rest[j].1)
    requires forall j :: 0 <= j < |rest| ==> lines[j] == FormatEntry(rest[j].0, rest[j].1)
    requires UniqueRegular(done + rest)
    ensures ReadLines(Packed(done, max), lines, true) == Loaded(Packed(done + rest, max), 0)
    decreases |rest|
  {
    if rest == [] {
      assert done + rest == done;
    } else {
      var key := rest[0].0;
      var value := rest[0].1;
      assert rest[0] == (key, value);
      var done' := done + [rest[0]];
      FreshKey(done, rest);
      StepAppends(done, key, value, max);
      ReadLinesCons(Packed(done, max), lines, Packed(done', max));
      ShiftFirst(done, rest);
      ReadPacked(done', rest[1..], lines[1..], max);
    }
  }

  lemma ShiftFirst<T>(a: seq<T>, b: seq<T>)
    requires b != []
    ensures (a + [b[0]]) + b[1..] == a + b
  {
    assert b == [b[0]] + b[1..];
  }

  /** The first of the remaining entries does not repeat a regular key read
      before it. */
  lemma FreshKey(done: seq<Entry>, rest: seq<Entry>)
    requires rest != [] && UniqueRegular(done + rest)
    ensures Regular(rest[0].0) ==> forall i :: 0 <= i < |done| ==> done[i].0 != rest[0].0
  {
    var all := done + rest;
    if Regular(rest[0].0) {
      forall i | 0 <= i < |done| ensures done[i].0 != rest[0].0 {
        assert all[i] == done[i] && all[|done|] == rest[0];
      }
    }
  }

  /** A line that lets the read go on leaves the rest to the following lines. */
  lemma ReadLinesCons(cf: Cf, lines: seq<string>, next: Cf)
    requires WellFormed(cf) && lines != [] && Step(cf, lines[0], true) == Continue(next)
    ensures ReadLines(cf, lines, true) == ReadLines(next, lines[1..], true)
  {
  }

  /** The round trip: reading back what CfWrite printed, comments kept, into
      a fresh store with room for every entry succeeds and yields the same
      entries in the same order, packed into the lowest slots. A compact
      store - every store the public operations build - read back at its
      own capacity comes back identical. */
  lemma {:induction false} WriteThenRead(cf: Cf, max: nat)
    requires WellFormed(cf) && UniqueRegularKeys(cf) && |Entries(cf)| <= max
    requires forall i :: 0 <= i < Max(cf) && cf.keys[i].Some? ==> Writable(cf.keys[i].value, cf.values[i].value)
    ensures Read(Create(max), Some(Write(cf)), true) == Loaded(Packed(Entries(cf), max), 0)
    ensures Entries(Read(Create(max), Some(Write(cf)), true).cf) == Entries(cf)
    ensures Compact(cf) && max == Max(cf) ==> Read(Create(max), Some(Write(cf)), true) == Loaded(cf, 0)
  {
    var es := Entries(cf);
    forall j | 0 <= j < |es| ensures Writable(es[j].0, es[j].1) {
      EntryOrigin(cf, 0, j);
    }
    EntriesUnique(cf, 0);
    assert Create(max) == Packed([], max);
    assert [] + es == es;
    ReadPacked([], es, Write(cf), max);
    EntriesOfPacked(es, max);
    if Compact(cf) && max == Max(cf) {
      CompactIsPacked(cf);
    }
  }

}
