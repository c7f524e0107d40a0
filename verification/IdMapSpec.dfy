/**
 What the id map of utils/map.c means, as a function of the adds made so far.

 The table holds MAX_MAP_SIZE slots.  A key lives at `(key % MAX_HASH_SIZE) * REDUNDANCY_MAP`; adding
 takes the first free slot from there on, without looking for an equal key and without wrapping
 around; a lookup stops at the first free slot or the first equal key.
 */
module IdMapSpec {
  import opened Basics
  import opened Parking

  const MAX_MAP_SIZE: nat := 4096
  const MAX_HASH_SIZE: nat := 1024
  const REDUNDANCY_MAP: nat := 4
  const MAX_ARGS: nat := 10

  datatype Argument = Argument(id: uint64, name: string, bitwidth: uint64)

  /** An element of the map with the arguments stored in it. */
  datatype Entry = Entry(key: uint64, value: string, args: seq<Argument>)

  type Slots = s: seq<Option<Entry>> | |s| == MAX_MAP_SIZE witness FreeSlots(MAX_MAP_SIZE)

  function FreeSlots(n: nat): (r: seq<Option<Entry>>)
    ensures |r| == n
    ensures forall i :: 0 <= i < n ==> r[i] == None
  {
    seq(n, _ => None)
  }

  /** The map after `init_map`. */
  function Empty(): Slots {
    FreeSlots(MAX_MAP_SIZE)
  }

  function Home(key: uint64): (h: nat)
    ensures h + REDUNDANCY_MAP <= MAX_MAP_SIZE
  {
    (key % MAX_HASH_SIZE) * REDUNDANCY_MAP
  }

  function Occupied(slots: Slots): set<nat> {
    set i: nat | i < MAX_MAP_SIZE && slots[i].Some?
  }

  /** The slot an add of `key` takes; MAX_MAP_SIZE when the add fails. */
  function FreeSlot(slots: Slots, key: uint64): (f: nat)
    ensures Home(key) <= f <= MAX_MAP_SIZE
    ensures forall i :: Home(key) <= i < f ==> slots[i].Some?
    ensures f < MAX_MAP_SIZE ==> slots[f].None?
  {
    var f := FirstFree(Occupied(slots), Home(key), MAX_MAP_SIZE);
    assert forall i: nat :: i < MAX_MAP_SIZE ==> (slots[i].Some? <==> i in Occupied(slots));
    f
  }

  function Bind(slots: Slots, e: Entry): Slots {
    var f := FreeSlot(slots, e.key);
    if f < MAX_MAP_SIZE then slots[f := Some(e)] else slots
  }

  function BindAll(es: seq<Entry>): Slots {
    if es == [] then Empty() else Bind(BindAll(es[..|es| - 1]), es[|es| - 1])
  }

  /** The slot where a lookup that has reached slot `i` finds `key`, if it does. */
  function FindFrom(slots: Slots, i: nat, key: uint64): (r: Option<nat>)
    requires i <= MAX_MAP_SIZE
    ensures r.Some? ==> i <= r.value < MAX_MAP_SIZE && slots[r.value].Some? && slots[r.value].value.key == key
    ensures r.Some? ==> forall j :: i <= j < r.value ==> slots[j].Some? && slots[j].value.key != key
    decreases MAX_MAP_SIZE - i
  {
    if i == MAX_MAP_SIZE || slots[i].None? then None
    else if slots[i].value.key == key then Some(i)
    else FindFrom(slots, i + 1, key)
  }

  /** What `get_element` returns, as a value. */
  function Resolve(slots: Slots, key: uint64): (r: Option<Entry>)
    ensures r.Some? ==> r.value.key == key
  {
    match FindFrom(slots, Home(key), key)
    case None => None
    case Some(i) => slots[i]
  }

  /** The number of slots a lookup that has reached slot `i` still examines. */
  function ProbesFrom(slots: Slots, i: nat, key: uint64): nat
    requires i <= MAX_MAP_SIZE
    decreases MAX_MAP_SIZE - i
  {
    if i == MAX_MAP_SIZE then 0
    else if slots[i].None? || slots[i].value.key == key then 1
    else 1 + ProbesFrom(slots, i + 1, key)
  }

  function Probes(slots: Slots, key: uint64): nat {
    ProbesFrom(slots, Home(key), key)
  }

  /** The argument `get_argument` finds: the first one with the id. */
  function FindArg(args: seq<Argument>, id: uint64): (r: Option<Argument>)
    ensures r.Some? ==> exists i :: 0 <= i < |args| && args[i] == r.value && args[i].id == id
                                    && forall j :: 0 <= j < i ==> args[j].id != id
    ensures r.None? ==> forall a :: a in args ==> a.id != id
  {
    if args == [] then None
    else if args[0].id == id then Some(args[0])
    else FindArg(args[1..], id)
  }

  // ---- Histories of adds

  function HomesOf(es: seq<Entry>): (hs: seq<nat>)
    ensures |hs| == |es|
    ensures forall i :: 0 <= i < |es| ==> hs[i] == Home(es[i].key)
  {
    if es == [] then [] else HomesOf(es[..|es| - 1]) + [Home(es[|es| - 1].key)]
  }

  /** The number of adds of `es` that failed. */
  function Failures(es: seq<Entry>): nat {
    if es == [] then 0 else
    var before := es[..|es| - 1];
    Failures(before) + if FreeSlot(BindAll(before), es[|es| - 1].key) == MAX_MAP_SIZE then 1 else 0
  }

  /** The earliest add of `key` in `es` that succeeded. */
  function EarliestSuccess(es: seq<Entry>, key: uint64): (r: Option<Entry>)
    ensures r.Some? ==> r.value in es && r.value.key == key
  {
    if es == [] then None else
    var before, e := es[..|es| - 1], es[|es| - 1];
    var r := EarliestSuccess(before, key);
    if r.Some? then r
    else if e.key == key && FreeSlot(BindAll(before), key) < MAX_MAP_SIZE then Some(e)
    else None
  }

  /** The first add of `key` in `es`, successful or not. */
  function FirstWith(es: seq<Entry>, key: uint64): (r: Option<Entry>)
    ensures r.Some? ==> r.value in es && r.value.key == key
    ensures r.None? ==> forall e :: e in es ==> e.key != key
  {
    if es == [] then None else
    var r := FirstWith(es[..|es| - 1], key);
    if r.Some? then r
    else if es[|es| - 1].key == key then Some(es[|es| - 1]) else None
  }

  /** The first add of `key` in `es` found a slot. */
  predicate FirstFound(es: seq<Entry>, key: uint64) {
    if es == [] then false else
    var before, e := es[..|es| - 1], es[|es| - 1];
    if FirstWith(before, key).Some? then FirstFound(before, key)
    else e.key == key && FreeSlot(BindAll(before), key) < MAX_MAP_SIZE
  }

  /** The id of `b` was added with `b` first, and that add found a slot. */
  predicate Established(es: seq<Entry>, b: Entry) {
    FirstWith(es, b.key) == Some(b) && FirstFound(es, b.key)
  }
}
