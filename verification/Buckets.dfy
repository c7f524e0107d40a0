/** The four-slot buckets of the id map: what REDUNDANCY_MAP buys, and what it does not. */
module Buckets {
  import opened Basics
  import opened IdMapSpec
  import opened IdMapTheorems

  /** The number of adds whose key has residue `r`, counting repeats. */
  function Residents(es: seq<Entry>, r: nat): nat {
    if es == [] then 0 else
    Residents(es[..|es| - 1], r) + if es[|es| - 1].key % MAX_HASH_SIZE == r then 1 else 0
  }

  ghost predicate BucketsHold(es: seq<Entry>) {
    forall r: nat :: Residents(es, r) <= REDUNDANCY_MAP
  }

  /** Every bucket is filled from its start by exactly the keys of its own residue. */
  ghost predicate Bucketed(slots: Slots, es: seq<Entry>) {
    forall r: nat, d: nat | r < MAX_HASH_SIZE && d < REDUNDANCY_MAP ::
      && (slots[Slot(r, d)].Some? <==> d < Residents(es, r))
      && (slots[Slot(r, d)].Some? ==> slots[Slot(r, d)].value.key % MAX_HASH_SIZE == r)
  }

  function Slot(r: nat, d: nat): (s: nat)
    requires r < MAX_HASH_SIZE && d < REDUNDANCY_MAP
    ensures s < MAX_MAP_SIZE && s / REDUNDANCY_MAP == r && s % REDUNDANCY_MAP == d
  {
    r * REDUNDANCY_MAP + d
  }

  lemma {:induction false} BucketFreeSlot(slots: Slots, es: seq<Entry>, key: uint64)
    requires Bucketed(slots, es)
    requires Residents(es, key % MAX_HASH_SIZE) < REDUNDANCY_MAP
    ensures FreeSlot(slots, key) == Slot(key % MAX_HASH_SIZE, Residents(es, key % MAX_HASH_SIZE))
  {
    var r := key % MAX_HASH_SIZE;
    var c := Residents(es, r);
    var f := FreeSlot(slots, key);
    assert slots[Slot(r, c)].None?;
    assert Home(key) <= f <= Slot(r, c);
    forall s | Home(key) <= s < Slot(r, c) ensures slots[s].Some? {
      assert slots[Slot(r, s - Home(key))].Some?;
    }
  }

  /** With at most four adds per residue every add succeeds and every entry stays in its own bucket. */
  lemma {:induction false} BucketBound(es: seq<Entry>)
    requires BucketsHold(es)
    ensures Failures(es) == 0
    ensures Bucketed(BindAll(es), es)
  {
    if es != [] {
      var before, e := es[..|es| - 1], es[|es| - 1];
      var r0 := e.key % MAX_HASH_SIZE;
      forall r: nat ensures Residents(before, r) <= REDUNDANCY_MAP {
        assert Residents(before, r) <= Residents(es, r);
      }
      BucketBound(before);
      assert Residents(es, r0) == Residents(before, r0) + 1;
      BucketFreeSlot(BindAll(before), before, e.key);
    }
  }

  /** A successful lookup probes up to the slot it finds. */
  lemma {:induction false} ProbesOfHit(slots: Slots, i: nat, key: uint64)
    requires i <= MAX_MAP_SIZE && FindFrom(slots, i, key).Some?
    ensures ProbesFrom(slots, i, key) == FindFrom(slots, i, key).value - i + 1
    decreases MAX_MAP_SIZE - i
  {
    if slots[i].value.key != key { ProbesOfHit(slots, i + 1, key); }
  }

  /** A lookup examines every slot up to the first free one if the key is nowhere before it. */
  lemma {:induction false} ProbesPast(slots: Slots, i: nat, j: nat, key: uint64)
    requires i <= j <= MAX_MAP_SIZE
    requires forall k :: i <= k < j ==> slots[k].Some? && slots[k].value.key != key
    ensures ProbesFrom(slots, i, key) == j - i + ProbesFrom(slots, j, key)
    decreases j - i
  {
    if i < j { ProbesPast(slots, i + 1, j, key); }
  }

  lemma {:induction false} HitStaysInBucket(slots: Slots, es: seq<Entry>, key: uint64)
    requires Bucketed(slots, es) && Resolve(slots, key).Some?
    ensures FindFrom(slots, Home(key), key).value < Home(key) + REDUNDANCY_MAP
  {
    var j := FindFrom(slots, Home(key), key).value;
    assert slots[Slot(j / REDUNDANCY_MAP, j % REDUNDANCY_MAP)].value.key % MAX_HASH_SIZE == j / REDUNDANCY_MAP;
  }

  /** An absent key: the lookup passes the first `c` slots from its home when they are full. */
  lemma {:induction false} MissProbes(slots: Slots, key: uint64, c: nat)
    requires Reachable(slots) && Resolve(slots, key).None? && c <= REDUNDANCY_MAP
    requires forall i :: Home(key) <= i < Home(key) + c ==> slots[i].Some?
    ensures Probes(slots, key) == c + ProbesFrom(slots, Home(key) + c, key)
  {
    FindFromMisses(slots, Home(key), key);
    ProbesPast(slots, Home(key), Home(key) + c, key);
  }

  /** A full slot that follows the bucket of an absent key costs one probe and then at least another. */
  lemma {:induction false} RunsOn(slots: Slots, key: uint64)
    requires Reachable(slots) && Resolve(slots, key).None? && Home(key) + REDUNDANCY_MAP + 1 < MAX_MAP_SIZE
    requires slots[Home(key) + REDUNDANCY_MAP].Some?
    ensures ProbesFrom(slots, Home(key) + REDUNDANCY_MAP, key) >= 2
  {
    FindFromMisses(slots, Home(key), key);
  }

  lemma {:induction false} ResidentAt(slots: Slots, es: seq<Entry>, key: uint64, d: nat)
    requires Bucketed(slots, es) && d < REDUNDANCY_MAP
    ensures slots[Home(key) + d].Some? <==> d < Residents(es, key % MAX_HASH_SIZE)
  {
    assert Home(key) + d == Slot(key % MAX_HASH_SIZE, d);
  }

  lemma {:induction false} NextBucket(slots: Slots, es: seq<Entry>, key: uint64)
    requires Bucketed(slots, es) && key % MAX_HASH_SIZE < MAX_HASH_SIZE - 1
    ensures Home(key) + REDUNDANCY_MAP + 1 < MAX_MAP_SIZE
    ensures slots[Home(key) + REDUNDANCY_MAP].Some? <==> Residents(es, key % MAX_HASH_SIZE + 1) > 0
  {
    assert Home(key) + REDUNDANCY_MAP == Slot(key % MAX_HASH_SIZE + 1, 0);
  }

  /** What the slots around the home of a key look like under the bucket hypothesis. */
  lemma {:induction false} Neighbourhood(es: seq<Entry>, key: uint64)
    requires BucketsHold(es)
    ensures var slots, h, r := BindAll(es), Home(key), key % MAX_HASH_SIZE;
            && (forall i :: h <= i < h + REDUNDANCY_MAP ==> (slots[i].Some? <==> i - h < Residents(es, r)))
            && (r < MAX_HASH_SIZE - 1 ==>
                  h + REDUNDANCY_MAP + 1 < MAX_MAP_SIZE
                  && (slots[h + REDUNDANCY_MAP].Some? <==> Residents(es, r + 1) > 0))
            && (Resolve(slots, key).Some? ==> Probes(slots, key) <= REDUNDANCY_MAP)
  {
    BucketBound(es);
    var slots, h := BindAll(es), Home(key);
    forall i | h <= i < h + REDUNDANCY_MAP ensures slots[i].Some? <==> i - h < Residents(es, key % MAX_HASH_SIZE) {
      ResidentAt(slots, es, key, i - h);
    }
    if key % MAX_HASH_SIZE < MAX_HASH_SIZE - 1 { NextBucket(slots, es, key); }
    if Resolve(slots, key).Some? {
      ProbesOfHit(slots, h, key);
      HitStaysInBucket(slots, es, key);
    }
  }

  /** How far a lookup probes under the bucket hypothesis.  An id that was added is found within its
      bucket.  An id that was not costs more than five probes exactly when its bucket is full, is
      not the last one, and the next bucket is not empty: the lookup then runs on into it. */
  lemma {:induction false} ProbeBound(es: seq<Entry>, key: uint64)
    requires BucketsHold(es)
    ensures FirstWith(es, key).Some? ==> Probes(BindAll(es), key) <= REDUNDANCY_MAP
    ensures var r := key % MAX_HASH_SIZE;
            Probes(BindAll(es), key) <= REDUNDANCY_MAP + 1 <==>
            || FirstWith(es, key).Some?
            || Residents(es, r) < REDUNDANCY_MAP
            || r == MAX_HASH_SIZE - 1
            || Residents(es, r + 1) == 0
  {
    var slots, r := BindAll(es), key % MAX_HASH_SIZE;
    Neighbourhood(es, key);
    BucketBound(es);
    WithoutFailures(es, key);
    if Resolve(slots, key).None? {
      AddsKeepReachable(es);
      assert Residents(es, r) <= REDUNDANCY_MAP;
      MissProbes(slots, key, Residents(es, r));
      if Residents(es, r) == REDUNDANCY_MAP && r < MAX_HASH_SIZE - 1 && Residents(es, r + 1) > 0 { RunsOn(slots, key); }
    }
  }

  lemma {:induction false} ResidentsSnoc(es: seq<Entry>, e: Entry, r: nat)
    ensures Residents(es + [e], r) == Residents(es, r) + if e.key % MAX_HASH_SIZE == r then 1 else 0
  {
    assert (es + [e])[..|es|] == es;
  }

  lemma {:induction false} ResidentsOfFour(a: Entry, r: nat)
    ensures Residents([a, a, a, a], r) == if a.key % MAX_HASH_SIZE == r then 4 else 0
  {
    ResidentsSnoc([], a, r);
    assert [] + [a] == [a];
    ResidentsSnoc([a], a, r);
    assert [a] + [a] == [a, a];
    ResidentsSnoc([a, a], a, r);
    assert [a, a] + [a] == [a, a, a];
    ResidentsSnoc([a, a, a], a, r);
    assert [a, a, a] + [a] == [a, a, a, a];
  }

  /** Four adds of key 0 and one of key 1 keep the bucket hypothesis; a lookup of key 1024, which was never
      added, then runs on into the bucket of key 1. */
  lemma {:induction false} LookupRunsOn(a: Entry, b: Entry)
    requires a.key == 0 && b.key == 1
    ensures var es := [a, a, a, a, b]; BucketsHold(es) && Probes(BindAll(es), 1024) > REDUNDANCY_MAP + 1
  {
    var es := [a, a, a, a, b];
    forall r: nat ensures Residents(es, r) == if r == 0 then 4 else if r == 1 then 1 else 0 {
      ResidentsOfFour(a, r);
      ResidentsSnoc([a, a, a, a], b, r);
      assert [a, a, a, a] + [b] == es;
    }
    var added := FirstWith(es, 1024);
    ProbeBound(es, 1024);
  }
}
