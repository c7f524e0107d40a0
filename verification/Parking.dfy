/**
 Linear probing without wrap-around, seen as parking.

 A table of `n` slots receives a sequence of homes.  Each arrival takes the first free slot at or
 after its home and is lost when there is none.  Which slots end up taken, and how many arrivals are
 lost, depends only on how many homes fall in each interval.
 */
module Parking {

  /** The first slot at or after `from` outside `occ`, or `n`. */
  function FirstFree(occ: set<nat>, from: nat, n: nat): (f: nat)
    requires from <= n
    ensures from <= f <= n
    ensures f < n ==> f !in occ
    ensures forall s :: from <= s < f ==> s in occ
    decreases n - from
  {
    if from == n || from !in occ then from else FirstFree(occ, from + 1, n)
  }

  function Park(occ: set<nat>, home: nat, n: nat): set<nat>
    requires home <= n
  {
    var f := FirstFree(occ, home, n);
    if f < n then occ + {f} else occ
  }

  predicate Homes(hs: seq<nat>, n: nat) {
    forall i :: 0 <= i < |hs| ==> hs[i] < n
  }

  /** The slots taken after all arrivals `hs`, in order. */
  function ParkAll(hs: seq<nat>, n: nat): set<nat>
    requires Homes(hs, n)
  {
    if hs == [] then {} else Park(ParkAll(hs[..|hs| - 1], n), hs[|hs| - 1], n)
  }

  /** The number of arrivals that found no slot. */
  function Lost(hs: seq<nat>, n: nat): nat
    requires Homes(hs, n)
  {
    if hs == [] then 0 else
    var before := hs[..|hs| - 1];
    Lost(before, n) + if FirstFree(ParkAll(before, n), hs[|hs| - 1], n) == n then 1 else 0
  }

  /** The number of homes in the half-open interval from `a` to `b`. */
  function Count(hs: seq<nat>, a: nat, b: nat): nat {
    if hs == [] then 0 else
    Count(hs[..|hs| - 1], a, b) + if a <= hs[|hs| - 1] < b then 1 else 0
  }

  /** The number of taken slots in the half-open interval from `a` to `b`. */
  function Taken(occ: set<nat>, a: nat, b: nat): nat {
    if b <= a then 0 else Taken(occ, a, b - 1) + if b - 1 in occ then 1 else 0
  }

  // ---- Taken

  lemma TakenInsert(occ: set<nat>, x: nat, a: nat, b: nat)
    requires x !in occ
    ensures Taken(occ + {x}, a, b) == Taken(occ, a, b) + if a <= x < b then 1 else 0
  {
  }

  lemma TakenFull(occ: set<nat>, a: nat, b: nat)
    requires a <= b
    ensures Taken(occ, a, b) <= b - a
    ensures Taken(occ, a, b) == b - a <==> forall s :: a <= s < b ==> s in occ
  {
  }

  lemma TakenEmpty(a: nat, b: nat)
    ensures Taken({}, a, b) == 0
  {
  }

  // ---- Conservation and monotonicity

  /** Slots below `n` only, and nothing is ever released. */
  lemma {:induction false} ParkAllBounds(hs: seq<nat>, n: nat)
    requires Homes(hs, n)
    ensures forall s :: s in ParkAll(hs, n) ==> s < n
    ensures |hs| > 0 ==> ParkAll(hs[..|hs| - 1], n) <= ParkAll(hs, n)
  {
    if hs != [] { ParkAllBounds(hs[..|hs| - 1], n); }
  }

  /** Conservation: every arrival either takes one slot or is lost. */
  lemma {:induction false} Conservation(hs: seq<nat>, n: nat)
    requires Homes(hs, n)
    ensures Taken(ParkAll(hs, n), 0, n) + Lost(hs, n) == |hs|
  {
    if hs == [] {
      TakenEmpty(0, n);
    } else {
      var before := hs[..|hs| - 1];
      Conservation(before, n);
      var f := FirstFree(ParkAll(before, n), hs[|hs| - 1], n);
      if f < n { TakenInsert(ParkAll(before, n), f, 0, n); }
    }
  }

  // ---- The two counting invariants

  /** No arrival passes a slot that is still free, so the homes between `a` and a free slot `s` all
      found a slot strictly before `s`. */
  lemma {:induction false} NoneCrossesFreeSlot(hs: seq<nat>, n: nat, a: nat, s: nat)
    requires Homes(hs, n) && a <= s < n
    requires s !in ParkAll(hs, n)
    ensures Count(hs, a, s + 1) <= Taken(ParkAll(hs, n), a, s)
  {
    if hs != [] {
      var before, home := hs[..|hs| - 1], hs[|hs| - 1];
      NoneCrossesFreeSlot(before, n, a, s);
      var f := FirstFree(ParkAll(before, n), home, n);
      if f < n { TakenInsert(ParkAll(before, n), f, a, s); }
    }
  }

  /** Whoever sits at or after `a` also lives at or after `a` when the slot before `a` is free; the
      arrivals lost so far that live there can be counted too once every slot up to `n` is full. */
  lemma {:induction false} OnlyLocalsSitHere(hs: seq<nat>, n: nat, a: nat, b: nat)
    requires Homes(hs, n) && a <= b <= n
    requires a == 0 || a - 1 !in ParkAll(hs, n)
    ensures Taken(ParkAll(hs, n), a, b) <= Count(hs, a, b)
    ensures b == n ==> Count(hs, a, n) == Taken(ParkAll(hs, n), a, n) + Lost(hs, n) - LostBelow(hs, n, a)
  {
    if hs == [] {
      TakenEmpty(a, b);
    } else {
      var before, home := hs[..|hs| - 1], hs[|hs| - 1];
      OnlyLocalsSitHere(before, n, a, b);
      var f := FirstFree(ParkAll(before, n), home, n);
      if f < n { TakenInsert(ParkAll(before, n), f, a, b); }
    }
  }

  /** Lost arrivals with home below `a`. */
  function LostBelow(hs: seq<nat>, n: nat, a: nat): (r: nat)
    requires Homes(hs, n)
    ensures r <= Lost(hs, n)
  {
    if hs == [] then 0 else
    var before := hs[..|hs| - 1];
    LostBelow(before, n, a)
    + if hs[|hs| - 1] < a && FirstFree(ParkAll(before, n), hs[|hs| - 1], n) == n then 1 else 0
  }

  /** A lost arrival saw every later slot taken, so none lived at or before a slot that is free now. */
  lemma {:induction false} LostLiveAfterFreeSlot(hs: seq<nat>, n: nat, a: nat)
    requires Homes(hs, n) && a <= n
    requires a == 0 || a - 1 !in ParkAll(hs, n)
    ensures LostBelow(hs, n, a) == 0
  {
    if hs != [] { LostLiveAfterFreeSlot(hs[..|hs| - 1], n, a); }
  }

  /** The start of the run of taken slots that ends just before `b`. */
  function RunStart(occ: set<nat>, b: nat): (a: nat)
    ensures a <= b
    ensures a == 0 || a - 1 !in occ
    ensures forall s :: a <= s < b ==> s in occ
  {
    if b == 0 || b - 1 !in occ then b else RunStart(occ, b - 1)
  }

  // ---- Main results

  /** At least as many homes fall in the slots `a` to `s` as there are slots. */
  predicate Demanded(hs: seq<nat>, a: nat, s: nat) {
    a <= s && Count(hs, a, s + 1) >= s - a + 1
  }

  /** Closed form of occupancy: a slot is taken exactly when some interval ending at it received at
      least as many homes as it has slots. */
  lemma {:induction false} Occupancy(hs: seq<nat>, n: nat, s: nat)
    requires Homes(hs, n) && s < n
    ensures s in ParkAll(hs, n) <==> exists a: nat :: Demanded(hs, a, s)
  {
    var occ := ParkAll(hs, n);
    if s in occ {
      var a := RunStart(occ, s + 1);
      OnlyLocalsSitHere(hs, n, a, s + 1);
      TakenFull(occ, a, s + 1);
      assert Demanded(hs, a, s);
    } else {
      forall a: nat ensures !Demanded(hs, a, s) {
        if a <= s {
          NoneCrossesFreeSlot(hs, n, a, s);
          TakenFull(occ, a, s);
        }
      }
    }
  }

  /** Homes at or after `a` either sit at or after `a` or are lost. */
  lemma {:induction false} SuffixDemand(hs: seq<nat>, n: nat, a: nat)
    requires Homes(hs, n) && a <= n
    ensures Count(hs, a, n) <= Taken(ParkAll(hs, n), a, n) + Lost(hs, n)
  {
    if hs != [] {
      var before, home := hs[..|hs| - 1], hs[|hs| - 1];
      SuffixDemand(before, n, a);
      var f := FirstFree(ParkAll(before, n), home, n);
      if f < n { TakenInsert(ParkAll(before, n), f, a, n); }
    }
  }

  /** Closed form of the number of lost arrivals: the largest excess of the homes at or after some
      slot over the slots that are left there. */
  lemma {:induction false} LostIsLargestExcess(hs: seq<nat>, n: nat)
    requires Homes(hs, n)
    ensures forall a: nat :: a <= n ==> Count(hs, a, n) - (n - a) <= Lost(hs, n)
    ensures exists a: nat :: a <= n && Count(hs, a, n) - (n - a) == Lost(hs, n)
  {
    var occ := ParkAll(hs, n);
    forall a: nat | a <= n ensures Count(hs, a, n) - (n - a) <= Lost(hs, n) {
      SuffixDemand(hs, n, a);
      TakenFull(occ, a, n);
    }
    var a := RunStart(occ, n);
    OnlyLocalsSitHere(hs, n, a, n);
    LostLiveAfterFreeSlot(hs, n, a);
    TakenFull(occ, a, n);
    assert a <= n && Count(hs, a, n) - (n - a) == Lost(hs, n);
  }

  /** No suffix of the table is asked for more slots than it has. */
  ghost predicate Fits(hs: seq<nat>, n: nat) {
    forall a: nat :: a <= n ==> Count(hs, a, n) <= n - a
  }

  /** Exact capacity: nobody is lost if and only if no suffix of the table is asked for more slots
      than it has. */
  lemma {:induction false} Capacity(hs: seq<nat>, n: nat)
    requires Homes(hs, n)
    ensures Lost(hs, n) == 0 <==> Fits(hs, n)
  {
    LostIsLargestExcess(hs, n);
  }

  // ---- Order does not matter

  /** The same count read off the multiset of homes. */
  function CountIn(m: multiset<nat>, a: nat, b: nat): nat {
    if b <= a then 0 else CountIn(m, a, b - 1) + m[b - 1]
  }

  lemma CountInInsert(m: multiset<nat>, x: nat, a: nat, b: nat)
    ensures CountIn(m + multiset{x}, a, b) == CountIn(m, a, b) + if a <= x < b then 1 else 0
  {
  }

  lemma CountInEmpty(a: nat, b: nat)
    ensures CountIn(multiset{}, a, b) == 0
  {
  }

  lemma {:induction false} CountIsCountIn(hs: seq<nat>, a: nat, b: nat)
    ensures Count(hs, a, b) == CountIn(multiset(hs), a, b)
  {
    if hs == [] {
      CountInEmpty(a, b);
    } else {
      var before, home := hs[..|hs| - 1], hs[|hs| - 1];
      CountIsCountIn(before, a, b);
      assert hs == before + [home];
      CountInInsert(multiset(before), home, a, b);
    }
  }

  lemma {:induction false} SameCounts(hs: seq<nat>, gs: seq<nat>, a: nat, b: nat)
    requires multiset(hs) == multiset(gs)
    ensures Count(hs, a, b) == Count(gs, a, b)
  {
    CountIsCountIn(hs, a, b);
    CountIsCountIn(gs, a, b);
  }

  lemma {:induction false} OrderIndependentSlot(hs: seq<nat>, gs: seq<nat>, n: nat, s: nat)
    requires Homes(hs, n) && Homes(gs, n) && s < n
    requires multiset(hs) == multiset(gs)
    requires s in ParkAll(hs, n)
    ensures s in ParkAll(gs, n)
  {
    Occupancy(hs, n, s);
    Occupancy(gs, n, s);
    var a: nat :| Demanded(hs, a, s);
    SameCounts(hs, gs, a, s + 1);
    assert Demanded(gs, a, s);
  }

  lemma {:induction false} OrderIndependentLoss(hs: seq<nat>, gs: seq<nat>, n: nat)
    requires Homes(hs, n) && Homes(gs, n)
    requires multiset(hs) == multiset(gs)
    ensures Lost(hs, n) <= Lost(gs, n)
  {
    LostIsLargestExcess(hs, n);
    LostIsLargestExcess(gs, n);
    var a: nat :| a <= n && Count(hs, a, n) - (n - a) == Lost(hs, n);
    SameCounts(hs, gs, a, n);
  }

  /** Reordering the arrivals changes neither the taken slots nor the number lost. */
  lemma {:induction false} OrderIndependence(hs: seq<nat>, gs: seq<nat>, n: nat)
    requires Homes(hs, n) && Homes(gs, n)
    requires multiset(hs) == multiset(gs)
    ensures ParkAll(hs, n) == ParkAll(gs, n)
    ensures Lost(hs, n) == Lost(gs, n)
  {
    ParkAllBounds(hs, n);
    ParkAllBounds(gs, n);
    forall s: nat ensures s in ParkAll(hs, n) <==> s in ParkAll(gs, n) {
      if s in ParkAll(hs, n) { OrderIndependentSlot(hs, gs, n, s); }
      if s in ParkAll(gs, n) { OrderIndependentSlot(gs, hs, n, s); }
    }
    OrderIndependentLoss(hs, gs, n);
    OrderIndependentLoss(gs, hs, n);
  }

  // ---- Repeating the same arrivals

  function Repeat<T>(xs: seq<T>, times: nat): seq<T> {
    if times == 0 then [] else Repeat(xs, times - 1) + xs
  }

  lemma {:induction false} CountConcat(xs: seq<nat>, ys: seq<nat>, a: nat, b: nat)
    ensures Count(xs + ys, a, b) == Count(xs, a, b) + Count(ys, a, b)
  {
    if ys == [] {
      assert xs + ys == xs;
    } else {
      assert (xs + ys)[..|xs + ys| - 1] == xs + ys[..|ys| - 1];
      CountConcat(xs, ys[..|ys| - 1], a, b);
    }
  }

  lemma {:induction false} CountRepeat(xs: seq<nat>, times: nat, a: nat, b: nat)
    ensures Count(Repeat(xs, times), a, b) == times * Count(xs, a, b)
  {
    if times > 0 {
      CountRepeat(xs, times - 1, a, b);
      CountConcat(Repeat(xs, times - 1), xs, a, b);
      var c := Count(xs, a, b);
      assert (times - 1) * c + c == times * c;
    }
  }

  /** `times` rounds of the same homes leave no suffix short of slots. */
  ghost predicate FitsTimes(hs: seq<nat>, n: nat, times: nat) {
    forall a: nat :: a <= n ==> ShareFits(hs, n, times, a)
  }

  predicate ShareFits(hs: seq<nat>, n: nat, times: nat, a: nat) {
    times * Count(hs, a, n) <= n - a
  }

  lemma {:induction false} FitsRepeat(hs: seq<nat>, n: nat, times: nat)
    ensures Fits(Repeat(hs, times), n) <==> FitsTimes(hs, n, times)
  {
    forall a: nat ensures ShareFits(hs, n, times, a) <==> Count(Repeat(hs, times), a, n) <= n - a {
      CountRepeat(hs, times, a, n);
    }
  }

  lemma {:induction false} CountAll(hs: seq<nat>, n: nat)
    requires Homes(hs, n)
    ensures Count(hs, 0, n) == |hs|
  {
    if hs != [] { CountAll(hs[..|hs| - 1], n); }
  }

  lemma {:induction false} NotForEver(hs: seq<nat>, n: nat, times: nat)
    requires Homes(hs, n) && hs != [] && times > n
    ensures !FitsTimes(hs, n, times)
  {
    CountAll(hs, n);
    assert times * |hs| >= times * 1;
    assert !ShareFits(hs, n, times, 0);
  }
}
