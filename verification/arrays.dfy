/** The private array primitives of cf.h: xCfFind, xCfAdd, xCfSet and
    xCfDel. Each works on ONE slot array (`char **arr`), a sequence of
    optional strings whose length is the store's capacity. A failed
    `malloc` is an explicit boolean `alloc` (false = the copy could not be
    allocated). */
module Arrays {

  import opened Options

  type Slots = seq<Option<string>>

  /** Some slot holds exactly `key`. */
  predicate Present(arr: Slots, key: string) {
    exists i :: 0 <= i < |arr| && arr[i] == Some(key)
  }

  /** Slot `i` holds `key` and no slot before it does. */
  predicate FirstHolder(arr: Slots, key: string, i: int) {
    && 0 <= i < |arr|
    && arr[i] == Some(key)
    && forall j :: 0 <= j < i ==> arr[j] != Some(key)
  }

  /** Slot `i` is free and every slot before it is taken. */
  predicate LowestFree(arr: Slots, i: int) {
    && 0 <= i < |arr|
    && arr[i].None?
    && forall j :: 0 <= j < i ==> arr[j].Some?
  }

  /** No slot is free. */
  predicate Full(arr: Slots) {
    forall i :: 0 <= i < |arr| ==> arr[i].Some?
  }

  /** xCfFind: index of the first slot holding `key`, or -1. */
  function Find(arr: Slots, key: string): (r: int)
    ensures r == -1 <==> !Present(arr, key)
    ensures r != -1 ==> FirstHolder(arr, key, r)
  {
    FindFrom(arr, key, 0)
  }

  /** The scan of xCfFind, resumed at slot `i`. */
  function FindFrom(arr: Slots, key: string, i: nat): (r: int)
    requires i <= |arr|
    ensures r == -1 ==> forall j :: i <= j < |arr| ==> arr[j] != Some(key)
    ensures r != -1 ==> i <= r < |arr| && arr[r] == Some(key)
    ensures r != -1 ==> forall j :: i <= j < r ==> arr[j] != Some(key)
    decreases |arr| - i
  {
    if i == |arr| then -1
    else if arr[i] == Some(key) then i
    else FindFrom(arr, key, i + 1)
  }

  /** The free-slot scan at the head of xCfAdd: the lowest free index, or -1. */
  function FirstFree(arr: Slots): (r: int)
    ensures r == -1 <==> Full(arr)
    ensures r != -1 ==> LowestFree(arr, r)
  {
    FreeFrom(arr, 0)
  }

  function FreeFrom(arr: Slots, i: nat): (r: int)
    requires i <= |arr|
    ensures r == -1 ==> forall j :: i <= j < |arr| ==> arr[j].Some?
    ensures r != -1 ==> i <= r < |arr| && arr[r].None?
    ensures r != -1 ==> forall j :: i <= j < r ==> arr[j].Some?
    decreases |arr| - i
  {
    if i == |arr| then -1
    else if arr[i].None? then i
    else FreeFrom(arr, i + 1)
  }

  /** Result of xCfSet: the array afterwards and whether it returned non-NULL. */
  datatype Stored = Stored(arr: Slots, ok: bool)

  /** xCfSet: copy `data` into slot `entry`. The old string is released only
      once the copy exists, so a failed allocation leaves the slot as it was. */
  function Set(arr: Slots, data: string, entry: int, alloc: bool): (s: Stored)
    requires 0 <= entry < |arr|
    ensures s.ok == alloc
    ensures |s.arr| == |arr|
    ensures s.arr[entry] == (if alloc then Some(data) else arr[entry])
    ensures forall j :: 0 <= j < |arr| && j != entry ==> s.arr[j] == arr[j]
  {
    if alloc then Stored(arr[entry := Some(data)], true) else Stored(arr, false)
  }

  /** Result of xCfAdd: the array afterwards and the slot used, or -1. */
  datatype Placed = Placed(arr: Slots, entry: int)

  /** xCfAdd: put a copy of `data` in the lowest free slot. Fails (-1, array
      unchanged) when every slot is taken or the copy cannot be allocated. */
  function Add(arr: Slots, data: string, alloc: bool): (p: Placed)
    ensures p.entry == -1 <==> Full(arr) || !alloc
    ensures p.entry == -1 ==> p.arr == arr
    ensures p.entry != -1 ==> LowestFree(arr, p.entry) && p.arr == arr[p.entry := Some(data)]
  {
    var i := FirstFree(arr);
    if i == -1 then Placed(arr, -1)
    else
      var s := Set(arr, data, i, alloc);
      if s.ok then Placed(s.arr, i) else Placed(s.arr, -1)
  }

  /** xCfDel: release slot `entry`; every other slot keeps its string. */
  function Del(arr: Slots, entry: int): (r: Slots)
    requires 0 <= entry < |arr|
    ensures |r| == |arr| && r[entry].None?
    ensures forall j :: 0 <= j < |arr| && j != entry ==> r[j] == arr[j]
  {
    arr[entry := None]
  }

}
