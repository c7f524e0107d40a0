/** Theorems about every history of adds to the id map. */
module IdMapTheorems {
  import opened Basics
  import opened Parking
  import opened IdMapSpec

  // ---- Capacity and occupancy

  lemma {:induction false} BindParks(slots: Slots, e: Entry)
    ensures Occupied(Bind(slots, e)) == Park(Occupied(slots), Home(e.key), MAX_MAP_SIZE)
  {
    var f := FreeSlot(slots, e.key);
    if f < MAX_MAP_SIZE {
      assert forall i: nat :: i in Occupied(Bind(slots, e)) <==> i in Occupied(slots) + {f};
    }
  }

  /** The id map is a parking table: its full slots and its failed adds are those of the homes. */
  lemma {:induction false} MapIsParking(es: seq<Entry>)
    ensures Occupied(BindAll(es)) == ParkAll(HomesOf(es), MAX_MAP_SIZE)
    ensures Failures(es) == Lost(HomesOf(es), MAX_MAP_SIZE)
  {
    if es == [] {
      assert Occupied(Empty()) == {};
    } else {
      var before, e := es[..|es| - 1], es[|es| - 1];
      MapIsParking(before);
      BindParks(BindAll(before), e);
      assert HomesOf(es)[..|es| - 1] == HomesOf(before);
    }
  }

  /** Every add of `es` into an empty map succeeds if and only if, for every slot, the keys living at
      or after it are no more than the slots from there to the end. */
  lemma {:induction false} MapCapacity(es: seq<Entry>)
    ensures Failures(es) == 0 <==> Fits(HomesOf(es), MAX_MAP_SIZE)
  {
    MapIsParking(es);
    Capacity(HomesOf(es), MAX_MAP_SIZE);
  }

  /** A slot is full if and only if some interval of slots ending there has at least as many of the
      added keys living in it as it has slots. */
  lemma {:induction false} MapOccupancy(es: seq<Entry>, s: nat)
    requires s < MAX_MAP_SIZE
    ensures BindAll(es)[s].Some? <==> exists a: nat :: Demanded(HomesOf(es), a, s)
  {
    MapIsParking(es);
    Occupancy(HomesOf(es), MAX_MAP_SIZE, s);
    assert s in Occupied(BindAll(es)) <==> BindAll(es)[s].Some?;
  }

  function RemoveAt<T>(s: seq<T>, i: nat): seq<T>
    requires i < |s|
  {
    s[..i] + s[i + 1..]
  }

  lemma {:induction false} RemoveFromMultiset<T>(s: seq<T>, i: nat)
    requires i < |s|
    ensures multiset(s) == multiset(RemoveAt(s, i)) + multiset{s[i]}
    ensures multiset(RemoveAt(s, i)) == multiset(s) - multiset{s[i]}
  {
    assert s == s[..i] + [s[i]] + s[i + 1..];
  }

  lemma {:induction false} FreeIffUndemanded(es: seq<Entry>, s: nat)
    requires s < MAX_MAP_SIZE
    ensures BindAll(es)[s].None? <==> Undemanded(HomesOf(es), s)
  {
    MapOccupancy(es, s);
    if BindAll(es)[s].Some? {
      var a: nat :| Demanded(HomesOf(es), a, s);
    }
  }

  ghost predicate Undemanded(hs: seq<nat>, s: nat) {
    forall a: nat :: !Demanded(hs, a, s)
  }

  ghost predicate RoomAt(hs: seq<nat>, home: nat, s: nat) {
    home <= s < MAX_MAP_SIZE && Undemanded(hs, s)
  }

  /** The homes of the adds leave room for one more add of the key. */
  ghost predicate RoomFor(es: seq<Entry>, key: uint64) {
    exists s: nat :: RoomAt(HomesOf(es), Home(key), s)
  }

  /** An add succeeds exactly when some slot from its home on is the end of no interval that was asked for
      as often as it has slots. */
  lemma {:induction false} AddSucceedsIff(es: seq<Entry>, key: uint64)
    ensures FreeSlot(BindAll(es), key) < MAX_MAP_SIZE <==> RoomFor(es, key)
  {
    var f := FreeSlot(BindAll(es), key);
    if f < MAX_MAP_SIZE {
      FreeIffUndemanded(es, f);
      assert RoomAt(HomesOf(es), Home(key), f);
    }
    forall s: nat | RoomAt(HomesOf(es), Home(key), s) ensures f < MAX_MAP_SIZE {
      FreeIffUndemanded(es, s);
    }
  }

  lemma {:induction false} HomesOfRemoveAt(es: seq<Entry>, i: nat)
    requires i < |es|
    ensures HomesOf(RemoveAt(es, i)) == RemoveAt(HomesOf(es), i)
  {
    var ls, rs := HomesOf(RemoveAt(es, i)), RemoveAt(HomesOf(es), i);
    assert |ls| == |rs|;
    forall k | 0 <= k < |ls| ensures ls[k] == rs[k] {
      assert RemoveAt(es, i)[k] == if k < i then es[k] else es[k + 1];
    }
  }

  lemma {:induction false} SameHomes(es: seq<Entry>, fs: seq<Entry>)
    requires multiset(es) == multiset(fs)
    ensures multiset(HomesOf(es)) == multiset(HomesOf(fs))
  {
    if es == [] {
      assert |fs| == |multiset(fs)| == 0;
    } else {
      var last := |es| - 1;
      assert es[last] in multiset(fs);
      var i :| 0 <= i < |fs| && fs[i] == es[last];
      RemoveFromMultiset(es, last);
      RemoveFromMultiset(fs, i);
      SameHomes(RemoveAt(es, last), RemoveAt(fs, i));
      HomesOfRemoveAt(es, last);
      HomesOfRemoveAt(fs, i);
      RemoveFromMultiset(HomesOf(es), last);
      RemoveFromMultiset(HomesOf(fs), i);
    }
  }

  /** Reordering the adds changes neither the full slots nor the number of failed adds. */
  lemma {:induction false} MapOrderIndependence(es: seq<Entry>, fs: seq<Entry>)
    requires multiset(es) == multiset(fs)
    ensures Occupied(BindAll(es)) == Occupied(BindAll(fs))
    ensures Failures(es) == Failures(fs)
  {
    SameHomes(es, fs);
    MapIsParking(es);
    MapIsParking(fs);
    OrderIndependence(HomesOf(es), HomesOf(fs), MAX_MAP_SIZE);
  }

  // ---- Lookup refines a first-write-wins association list

  /** Every entry sits at or after its home with no free slot in between. */
  ghost predicate Reachable(slots: Slots) {
    forall i, j :: 0 <= i < MAX_MAP_SIZE && slots[i].Some? && Home(slots[i].value.key) <= j < i ==> slots[j].Some?
  }

  lemma {:induction false} AddsKeepReachable(es: seq<Entry>)
    ensures Reachable(BindAll(es))
  {
    if es != [] { AddsKeepReachable(es[..|es| - 1]); }
  }

  /** Where a lookup stops without success there is no entry of the key later on either. */
  lemma {:induction false} FindFromMisses(slots: Slots, i: nat, key: uint64)
    requires Reachable(slots) && Home(key) <= i <= MAX_MAP_SIZE
    requires FindFrom(slots, i, key).None?
    ensures forall j :: i <= j < MAX_MAP_SIZE && slots[j].Some? ==> slots[j].value.key != key
    decreases MAX_MAP_SIZE - i
  {
    if i < MAX_MAP_SIZE && slots[i].Some? { FindFromMisses(slots, i + 1, key); }
  }

  /** A lookup finds exactly the first entry of the key when nothing before it is free. */
  lemma {:induction false} FindFromHits(slots: Slots, i: nat, j: nat, key: uint64)
    requires i <= j < MAX_MAP_SIZE
    requires slots[j].Some? && slots[j].value.key == key
    requires forall k :: i <= k < j ==> slots[k].Some? && slots[k].value.key != key
    ensures FindFrom(slots, i, key) == Some(j)
    decreases j - i
  {
    if i < j { FindFromHits(slots, i + 1, j, key); }
  }

  lemma {:induction false} FindFromAbsent(slots: Slots, i: nat, key: uint64)
    requires i <= MAX_MAP_SIZE
    requires forall j :: i <= j < MAX_MAP_SIZE && slots[j].Some? ==> slots[j].value.key != key
    ensures FindFrom(slots, i, key) == None
    decreases MAX_MAP_SIZE - i
  {
    if i < MAX_MAP_SIZE { FindFromAbsent(slots, i + 1, key); }
  }

  /** Stability: a later add, of any key, never changes what an id resolves to. */
  lemma {:induction false} ResolveIsStable(slots: Slots, e: Entry, key: uint64)
    requires Resolve(slots, key).Some?
    ensures Resolve(Bind(slots, e), key) == Resolve(slots, key)
  {
    var j := FindFrom(slots, Home(key), key).value;
    FindFromHits(Bind(slots, e), Home(key), j, key);
  }

  /** An id that resolved to nothing resolves to the new element if that was added under it, and
      otherwise still to nothing. */
  lemma {:induction false} ResolveAfterMiss(slots: Slots, e: Entry, key: uint64)
    requires Reachable(slots) && Resolve(slots, key).None?
    ensures Resolve(Bind(slots, e), key)
            == if e.key == key && FreeSlot(slots, key) < MAX_MAP_SIZE then Some(e) else None
  {
    FindFromMisses(slots, Home(key), key);
    var f := FreeSlot(slots, e.key);
    if e.key == key && f < MAX_MAP_SIZE {
      FindFromHits(Bind(slots, e), Home(key), f, key);
    } else {
      FindFromAbsent(Bind(slots, e), Home(key), key);
    }
  }

  /** First write wins: over every history, an id resolves to the element of its earliest successful
      add, and to nothing if and only if there was none. */
  lemma {:induction false} FirstWriteWins(es: seq<Entry>, key: uint64)
    ensures Resolve(BindAll(es), key) == EarliestSuccess(es, key)
  {
    if es == [] {
      FindFromAbsent(Empty(), Home(key), key);
    } else {
      var before, e := es[..|es| - 1], es[|es| - 1];
      FirstWriteWins(before, key);
      if Resolve(BindAll(before), key).Some? {
        ResolveIsStable(BindAll(before), e, key);
      } else {
        AddsKeepReachable(before);
        ResolveAfterMiss(BindAll(before), e, key);
      }
    }
  }

  /** Once an add of a key has failed, all later adds of it fail. */
  lemma {:induction false} FailureIsFinal(es: seq<Entry>, key: uint64)
    requires EarliestSuccess(es, key).None? && FirstWith(es, key).Some?
    ensures FreeSlot(BindAll(es), key) == MAX_MAP_SIZE
  {
    if es != [] {
      var before, e := es[..|es| - 1], es[|es| - 1];
      if FirstWith(before, key).Some? { FailureIsFinal(before, key); }
    }
  }

  /** Only the first add of an id matters: either it succeeded and the id resolves to it for ever, or
      it failed and the id never resolves. */
  lemma {:induction false} FirstAddDecides(es: seq<Entry>, key: uint64)
    ensures Resolve(BindAll(es), key).Some? ==> Resolve(BindAll(es), key) == FirstWith(es, key)
  {
    FirstWriteWins(es, key);
    EarliestIsFirst(es, key);
  }

  lemma {:induction false} EarliestIsFirst(es: seq<Entry>, key: uint64)
    ensures EarliestSuccess(es, key).Some? ==> EarliestSuccess(es, key) == FirstWith(es, key)
  {
    if es != [] {
      var before := es[..|es| - 1];
      EarliestIsFirst(before, key);
      if EarliestSuccess(before, key).None? && FirstWith(before, key).Some? { FailureIsFinal(before, key); }
    }
  }

  lemma {:induction false} EarliestIffFound(es: seq<Entry>, key: uint64)
    ensures EarliestSuccess(es, key).Some? <==> FirstFound(es, key)
  {
    if es != [] {
      var before := es[..|es| - 1];
      EarliestIffFound(before, key);
      EarliestIsFirst(before, key);
      if EarliestSuccess(before, key).None? && FirstWith(before, key).Some? { FailureIsFinal(before, key); }
    }
  }

  /** An id resolves to an element if and only if it was added with that element first and this first add
      found a slot, whatever failed before, between and after. */
  lemma {:induction false} EstablishedIff(es: seq<Entry>, b: Entry)
    ensures Resolve(BindAll(es), b.key) == Some(b) <==> Established(es, b)
  {
    FirstWriteWins(es, b.key);
    EarliestIsFirst(es, b.key);
    EarliestIffFound(es, b.key);
  }

  /** Add `k` is the first of the key, and the adds before it leave room for it. */
  ghost predicate FoundAt(es: seq<Entry>, key: uint64, k: nat) {
    && k < |es| && es[k].key == key
    && (forall j :: 0 <= j < k ==> es[j].key != key)
    && RoomFor(es[..k], key)
  }

  /** Whether the first add of a key found a slot, read off the ids added. */
  lemma {:induction false} FirstFoundIff(es: seq<Entry>, key: uint64)
    ensures FirstFound(es, key) <==> exists k: nat :: FoundAt(es, key, k)
  {
    if FirstFound(es, key) { var k := WhereFound(es, key); }
    forall k: nat | FoundAt(es, key, k) ensures FirstFound(es, key) { FoundThere(es, key, k); }
  }

  lemma {:induction false} NotYetAdded(es: seq<Entry>, key: uint64)
    requires forall j :: 0 <= j < |es| ==> es[j].key != key
    ensures FirstWith(es, key) == None
  {
    if es != [] { NotYetAdded(es[..|es| - 1], key); }
  }

  lemma {:induction false} WhereFound(es: seq<Entry>, key: uint64) returns (k: nat)
    requires FirstFound(es, key)
    ensures FoundAt(es, key, k)
  {
    var n := |es| - 1;
    if FirstWith(es[..n], key).Some? {
      k := WhereFound(es[..n], key);
      assert es[..n][..k] == es[..k];
    } else {
      k := n;
      AddSucceedsIff(es[..n], key);
      assert forall j :: 0 <= j < n ==> es[j] in es[..n];
    }
  }

  lemma {:induction false} FoundLast(es: seq<Entry>, key: uint64)
    requires es != [] && FoundAt(es, key, |es| - 1)
    ensures FirstFound(es, key)
  {
    var before := es[..|es| - 1];
    AddSucceedsIff(before, key);
    NotYetAdded(before, key);
  }

  lemma {:induction false} FoundThere(es: seq<Entry>, key: uint64, k: nat)
    requires FoundAt(es, key, k)
    ensures FirstFound(es, key)
  {
    var n := |es| - 1;
    if k < n {
      assert es[..n][..k] == es[..k];
      FoundThere(es[..n], key, k);
      assert es[k] in es[..n];
    } else {
      FoundLast(es, key);
    }
  }

  /** When no add failed, every id resolves to the first element added under it. */
  lemma {:induction false} WithoutFailures(es: seq<Entry>, key: uint64)
    requires Failures(es) == 0
    ensures Resolve(BindAll(es), key) == FirstWith(es, key)
  {
    FirstWriteWins(es, key);
    AllSuccessful(es, key);
  }

  lemma {:induction false} AllSuccessful(es: seq<Entry>, key: uint64)
    requires Failures(es) == 0
    ensures EarliestSuccess(es, key) == FirstWith(es, key)
  {
    if es != [] { AllSuccessful(es[..|es| - 1], key); }
  }
}
