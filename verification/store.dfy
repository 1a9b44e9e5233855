/** The configuration buffer of cf.h (`struct xcf_entry`) and its raw
    key/value operations CfSetKey and CfGetKey. */
module Store {

  import opened Options
  import opened Arrays

  /** Two parallel slot arrays of the same length; the capacity `max` of
      CfCreate is their length. */
  datatype Cf = Cf(keys: Slots, values: Slots)

  function Max(cf: Cf): nat {
    |cf.keys|
  }

  /** The store invariant: both arrays have the capacity as length, and a
      slot holds a key exactly when it holds a value. */
  predicate WellFormed(cf: Cf) {
    && |cf.keys| == |cf.values|
    && forall i :: 0 <= i < |cf.keys| ==> (cf.keys[i].Some? <==> cf.values[i].Some?)
  }

  /** A key CfSetKey looks up: non-empty and not starting with a comment
      marker. Empty keys (blank lines) and `#`/`;` keys (comments) are never
      matched, so each one takes a slot of its own. */
  predicate Regular(key: string) {
    key != [] && key[0] != '#' && key[0] != ';'
  }

  /** No two occupied slots hold the same regular key. */
  predicate UniqueRegularKeys(cf: Cf) {
    forall i, j :: 0 <= i < j < |cf.keys| && cf.keys[i].Some? && Regular(cf.keys[i].value) ==>
      cf.keys[j] != cf.keys[i]
  }

  /** Occupied slots come before free ones. Slots are only ever filled
      lowest-free-first and never released, so every store built from
      CfCreate by the public operations has this shape. */
  predicate Compact(cf: Cf) {
    forall i, j :: 0 <= i < j < |cf.keys| && cf.keys[i].None? ==> cf.keys[j].None?
  }

  /** CfCreate: `max` empty slots. */
  function Create(max: nat): (cf: Cf)
    ensures WellFormed(cf) && Max(cf) == max
    ensures forall i :: 0 <= i < max ==> cf.keys[i].None? && cf.values[i].None?
    ensures UniqueRegularKeys(cf) && Compact(cf)
  {
    Cf(seq(max, _ => None), seq(max, _ => None))
  }

  /** Which allocations succeed during one CfSetKey: the copy of the key
      made by xCfAdd and the copy of the value made by xCfSet. */
  datatype Alloc = Alloc(keyCopy: bool, valueCopy: bool)

  const NoFailure := Alloc(true, true)

  /** A store after a mutating call, with the call's result: 0 or -1. */
  datatype Updated = Updated(cf: Cf, code: int)

  /** CfSetKey. A regular key already present has its value replaced in
      place; any other key is added in the lowest free slot together with
      its value, the key being rolled back with xCfDel if the value copy
      fails. Every failure returns -1 and leaves the store as it was. */
  function SetKey(cf: Cf, key: string, value: string, mem: Alloc): (u: Updated)
    requires WellFormed(cf)
    ensures WellFormed(u.cf) && Max(u.cf) == Max(cf)
    ensures u.code == 0 || u.code == -1
    ensures u.code == -1 ==> u.cf == cf
    ensures forall i :: Regular(key) && FirstHolder(cf.keys, key, i) ==>
      && (u.code == 0 <==> mem.valueCopy)
      && (u.code == 0 ==> u.cf == Cf(cf.keys, cf.values[i := Some(value)]))
    ensures forall i :: (!Regular(key) || !Present(cf.keys, key)) && LowestFree(cf.keys, i) ==>
      && (u.code == 0 <==> mem.keyCopy && mem.valueCopy)
      && (u.code == 0 ==> u.cf == Cf(cf.keys[i := Some(key)], cf.values[i := Some(value)]))
    ensures (!Regular(key) || !Present(cf.keys, key)) && Full(cf.keys) ==> u.code == -1
    ensures forall i :: 0 <= i < Max(cf) && cf.keys[i].Some? ==> u.cf.keys[i] == cf.keys[i]
    ensures UniqueRegularKeys(cf) ==> UniqueRegularKeys(u.cf)
    ensures Compact(cf) ==> Compact(u.cf)
  {
    var entry := if Regular(key) then Find(cf.keys, key) else -1;
    if entry != -1 then
      var s := Set(cf.values, value, entry, mem.valueCopy);
      if s.ok then Updated(Cf(cf.keys, s.arr), 0) else Updated(cf, -1)
    else
      var p := Add(cf.keys, key, mem.keyCopy);
      if p.entry == -1 then Updated(Cf(p.arr, cf.values), -1)
      else
        var s := Set(cf.values, value, p.entry, mem.valueCopy);
        if s.ok then Updated(Cf(p.arr, s.arr), 0)
        else
          assert Del(p.arr, p.entry) == cf.keys;
          Updated(Cf(Del(p.arr, p.entry), cf.values), -1)
  }

  /** CfGetKey: the raw value of the lowest slot holding `key`, or None.
      Unlike CfSetKey it matches comment and blank-line keys too. */
  function GetKey(cf: Cf, key: string): (r: Option<string>)
    requires WellFormed(cf)
    ensures r.None? <==> !Present(cf.keys, key)
    ensures forall i :: FirstHolder(cf.keys, key, i) ==> r == cf.values[i]
  {
    var entry := Find(cf.keys, key);
    if entry != -1 then cf.values[entry] else None
  }

  /** After a successful set of a regular key, getting it yields the value
      just set. */
  lemma GetAfterSet(cf: Cf, key: string, value: string, mem: Alloc)
    requires WellFormed(cf) && Regular(key)
    requires SetKey(cf, key, value, mem).code == 0
    ensures GetKey(SetKey(cf, key, value, mem).cf, key) == Some(value)
  {
    var u := SetKey(cf, key, value, mem);
    if Present(cf.keys, key) {
      var i := Find(cf.keys, key);
      assert FirstHolder(u.cf.keys, key, i);
    } else {
      var i := FirstFree(cf.keys);
      assert FirstHolder(u.cf.keys, key, i);
    }
  }

  /** A set never changes what any other key reads as. */
  lemma SetKeyFrame(cf: Cf, key: string, value: string, mem: Alloc, other: string)
    requires WellFormed(cf) && other != key
    ensures GetKey(SetKey(cf, key, value, mem).cf, other) == GetKey(cf, other)
  {
    var u := SetKey(cf, key, value, mem);
    if u.code == 0 {
      var e := Find(cf.keys, other);
      if Regular(key) && Present(cf.keys, key) {
        assert u.cf.keys == cf.keys;
        if e != -1 {
          assert FirstHolder(u.cf.keys, other, e);
        }
      } else {
        var f := FirstFree(cf.keys);
        if e != -1 {
          assert FirstHolder(u.cf.keys, other, e);
        } else {
          assert !Present(u.cf.keys, other);
        }
      }
    }
  }

  /** Overwriting the value of the slot where `key` is first found changes
      what `key` reads as, and nothing else. */
  lemma {:induction false} ReplaceValue(cf: Cf, key: string, i: int, v: string, other: string)
    requires WellFormed(cf) && FirstHolder(cf.keys, key, i)
    ensures WellFormed(Cf(cf.keys, cf.values[i := Some(v)]))
    ensures GetKey(Cf(cf.keys, cf.values[i := Some(v)]), other) ==
      if other == key then Some(v) else GetKey(cf, other)
  {
    var cf' := Cf(cf.keys, cf.values[i := Some(v)]);
    var e := Find(cf.keys, other);
    if e != -1 {
      assert FirstHolder(cf'.keys, other, e);
    }
  }

  /** The occupied slots, in slot order, as (key, value) pairs. */
  function Entries(cf: Cf): (es: seq<(string, string)>)
    requires WellFormed(cf)
    ensures |es| <= Max(cf)
    ensures |es| == Max(cf) ==> Full(cf.keys)
  {
    EntriesFrom(cf, 0)
  }

  function EntriesFrom(cf: Cf, i: nat): (es: seq<(string, string)>)
    requires WellFormed(cf) && i <= Max(cf)
    ensures |es| <= Max(cf) - i
    ensures |es| == Max(cf) - i ==> forall j :: i <= j < Max(cf) ==> cf.keys[j].Some?
    decreases Max(cf) - i
  {
    if i == Max(cf) then []
    else if cf.keys[i].Some? then [(cf.keys[i].value, cf.values[i].value)] + EntriesFrom(cf, i + 1)
    else EntriesFrom(cf, i + 1)
  }

  /** Once as many entries as slots are stored, a key that would need a new
      slot is refused with -1 (the capacity is fixed at creation). */
  lemma CapacityExhausted(cf: Cf, key: string, value: string, mem: Alloc)
    requires WellFormed(cf) && |Entries(cf)| == Max(cf)
    requires !Regular(key) || !Present(cf.keys, key)
    ensures SetKey(cf, key, value, mem).code == -1
  {
  }

}
