/**
 The digest map of the device manager: an ordered map from digest names to an id and an activation
 flag, iterated in the order of the names.
 */
module DigestMap {
  import opened Basics
  import opened Messages

  datatype Digest = Digest(name: string, id: uint64, active: bool)

  /** Lexicographic order on names. */
  predicate Less(a: string, b: string) {
    b != [] && (a == [] || a[0] < b[0] || (a[0] == b[0] && Less(a[1..], b[1..])))
  }

  lemma LessIrreflexive(a: string)
    ensures !Less(a, a)
  {
  }

  lemma {:induction false} LessTransitive(a: string, b: string, c: string)
    requires Less(a, b) && Less(b, c)
    ensures Less(a, c)
  {
    if a != [] && a[0] == b[0] == c[0] { LessTransitive(a[1..], b[1..], c[1..]); }
  }

  lemma {:induction false} LessTotal(a: string, b: string)
    ensures a == b || Less(a, b) || Less(b, a)
  {
    if a != [] && b != [] && a[0] == b[0] {
      LessTotal(a[1..], b[1..]);
      assert a == [a[0]] + a[1..] && b == [b[0]] + b[1..];
    }
  }

  /** The names agree before position `k`, where the first one ends or has the smaller character. */
  predicate SmallerAt(a: string, b: string, k: nat) {
    k <= |a| && k < |b| && a[..k] == b[..k] && (k == |a| || a[k] < b[k])
  }

  lemma {:induction false} LessIff(a: string, b: string)
    ensures Less(a, b) <==> exists k: nat :: SmallerAt(a, b, k)
  {
    if a == [] && b != [] {
      assert SmallerAt(a, b, 0);
    } else if a != [] && b != [] && a[0] < b[0] {
      assert SmallerAt(a, b, 0);
    } else if a != [] && b != [] && a[0] == b[0] {
      LessIff(a[1..], b[1..]);
      if k: nat :| SmallerAt(a[1..], b[1..], k) {
        assert a[..k + 1] == [a[0]] + a[1..][..k] && b[..k + 1] == [b[0]] + b[1..][..k];
        assert SmallerAt(a, b, k + 1);
      }
      if k: nat :| SmallerAt(a, b, k) {
        assert k > 0;
        assert a[1..][..k - 1] == a[..k][1..] && b[1..][..k - 1] == b[..k][1..];
        assert SmallerAt(a[1..], b[1..], k - 1);
      }
    } else {
      forall k: nat ensures !SmallerAt(a, b, k) {
        if k > 0 && k <= |a| && k < |b| { assert a[..k][0] == a[0] && b[..k][0] == b[0]; }
      }
    }
  }

  ghost predicate Sorted(m: seq<Digest>) {
    forall i, j :: 0 <= i < j < |m| ==> Less(m[i].name, m[j].name)
  }

  /** Inserts or overwrites the entry of `d.name`. */
  function Put(m: seq<Digest>, d: Digest): (r: seq<Digest>)
    ensures forall x :: x in r ==> x == d || x in m
  {
    if m == [] then [d]
    else if m[0].name == d.name then [d] + m[1..]
    else if Less(d.name, m[0].name) then [d] + m
    else [m[0]] + Put(m[1..], d)
  }

  function Find(m: seq<Digest>, name: string): (r: Option<Digest>)
    ensures r.Some? ==> r.value in m && r.value.name == name
    ensures r.None? ==> forall d :: d in m ==> d.name != name
  {
    if m == [] then None
    else if m[0].name == name then Some(m[0])
    else Find(m[1..], name)
  }

  /** Activates the first entry, in name order, that carries the id. */
  function Activate(m: seq<Digest>, id: uint64): (r: seq<Digest>)
    ensures |r| == |m|
  {
    if m == [] then []
    else if m[0].id == id then [m[0].(active := true)] + m[1..]
    else [m[0]] + Activate(m[1..], id)
  }

  lemma {:induction false} PutKeepsSorted(m: seq<Digest>, d: Digest)
    requires Sorted(m)
    ensures Sorted(Put(m, d))
  {
    if m != [] {
      LessTotal(m[0].name, d.name);
      assert forall x :: x in m[1..] ==> Less(m[0].name, x.name);
      if Less(d.name, m[0].name) {
        forall x | x in m[1..] ensures Less(d.name, x.name) { LessTransitive(d.name, m[0].name, x.name); }
      } else {
        PutKeepsSorted(m[1..], d);
      }
    }
  }

  lemma {:induction false} FindAfterPut(m: seq<Digest>, d: Digest, name: string)
    ensures Find(Put(m, d), name) == if name == d.name then Some(d) else Find(m, name)
  {
    if m != [] && m[0].name != d.name {
      FindAfterPut(m[1..], d, name);
      assert ([d] + m)[1..] == m;
      assert ([m[0]] + Put(m[1..], d))[1..] == Put(m[1..], d);
    }
  }

  lemma {:induction false} FindAt(m: seq<Digest>, i: nat)
    requires Sorted(m) && i < |m|
    ensures Find(m, m[i].name) == Some(m[i])
  {
    if i > 0 {
      LessIrreflexive(m[0].name);
      FindAt(m[1..], i - 1);
    }
  }

  // ---- The map right after a configuration was pushed

  function FromDigests(ds: seq<DigestInfo>): seq<Digest> {
    if ds == [] then [] else
    var d := ds[|ds| - 1];
    Put(FromDigests(ds[..|ds| - 1]), Digest(d.name, d.id, false))
  }

  /** The id of the last declaration of a digest name. */
  function DeclaredId(ds: seq<DigestInfo>, name: string): Option<uint64> {
    if ds == [] then None
    else if ds[|ds| - 1].name == name then Some(ds[|ds| - 1].id)
    else DeclaredId(ds[..|ds| - 1], name)
  }

  lemma {:induction false} FromDigestsIsDeclared(ds: seq<DigestInfo>, name: string)
    ensures Sorted(FromDigests(ds))
    ensures Find(FromDigests(ds), name)
            == match DeclaredId(ds, name) case None => None case Some(id) => Some(Digest(name, id, false))
  {
    if ds != [] {
      var d := ds[|ds| - 1];
      FromDigestsIsDeclared(ds[..|ds| - 1], name);
      PutKeepsSorted(FromDigests(ds[..|ds| - 1]), Digest(d.name, d.id, false));
      FindAfterPut(FromDigests(ds[..|ds| - 1]), Digest(d.name, d.id, false), name);
    }
  }

  lemma {:induction false} FreshlyInactive(ds: seq<DigestInfo>)
    ensures forall d :: d in FromDigests(ds) ==> !d.active
  {
    if ds != [] { FreshlyInactive(ds[..|ds| - 1]); }
  }

  // ---- Activation

  lemma {:induction false} ActivateFirst(m: seq<Digest>, id: uint64, i: nat)
    requires i < |m| && m[i].id == id && forall j :: 0 <= j < i ==> m[j].id != id
    ensures Activate(m, id) == m[i := m[i].(active := true)]
  {
    if i > 0 {
      ActivateFirst(m[1..], id, i - 1);
    }
  }

  lemma {:induction false} ActivateMissing(m: seq<Digest>, id: uint64)
    requires forall j :: 0 <= j < |m| ==> m[j].id != id
    ensures Activate(m, id) == m
  {
    if m != [] { ActivateMissing(m[1..], id); }
  }

  /** No entry before position `i` has the id of entry `i`. */
  ghost predicate FirstOfItsId(m: seq<Digest>, i: nat)
    requires i < |m|
  {
    forall j :: 0 <= j < i ==> m[j].id != m[i].id
  }

  lemma {:induction false} ActivateAt(m: seq<Digest>, id: uint64, i: nat)
    requires i < |m|
    ensures Activate(m, id)[i] == m[i].(active := m[i].active || (m[i].id == id && FirstOfItsId(m, i)))
  {
    if i > 0 {
      if m[0].id != id {
        ActivateAt(m[1..], id, i - 1);
        assert FirstOfItsId(m[1..], i - 1) <==> forall j :: 1 <= j < i ==> m[j].id != m[i].id by {
          forall j | 1 <= j < i ensures m[j].id == m[1..][j - 1].id {}
          if FirstOfItsId(m[1..], i - 1) {
            forall j | 1 <= j < i ensures m[j].id != m[i].id { assert m[1..][j - 1].id != m[1..][i - 1].id; }
          }
        }
      }
    }
  }

  /** Exactly the digest named `name` is the first, in name order, among those declared with its id. */
  ghost predicate Leading(ds: seq<DigestInfo>, name: string) {
    && DeclaredId(ds, name).Some?
    && forall other :: DeclaredId(ds, other) == DeclaredId(ds, name) ==> other == name || Less(name, other)
  }

  /** Position and name order agree on which entry leads its id. */
  lemma {:induction false} LeadingIsFirst(ds: seq<DigestInfo>, i: nat)
    requires i < |FromDigests(ds)|
    ensures DeclaredId(ds, FromDigests(ds)[i].name) == Some(FromDigests(ds)[i].id)
    ensures FirstOfItsId(FromDigests(ds), i) <==> Leading(ds, FromDigests(ds)[i].name)
  {
    var m := FromDigests(ds);
    var d := m[i];
    FromDigestsIsDeclared(ds, d.name);
    FindAt(m, i);
    if FirstOfItsId(m, i) {
      forall other | DeclaredId(ds, other) == DeclaredId(ds, d.name) ensures other == d.name || Less(d.name, other) {
        FromDigestsIsDeclared(ds, other);
        var o := Find(m, other).value;
        var k :| 0 <= k < |m| && m[k] == o;
        assert m[k].id == d.id;
      }
    } else {
      var j :| 0 <= j < i && m[j].id == d.id;
      FromDigestsIsDeclared(ds, m[j].name);
      FindAt(m, j);
      LessIrreflexive(d.name);
      if Less(d.name, m[j].name) { LessTransitive(d.name, m[j].name, d.name); }
      assert DeclaredId(ds, m[j].name) == DeclaredId(ds, d.name);
    }
  }
}
