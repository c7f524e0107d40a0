/** The id map of utils/map.c, updated in place. */
module IdMap {
  import opened Basics
  import opened IdMapSpec

  class Element {
    var key: uint64
    var value: string
    var args: seq<Argument>  // the inline array of MAX_ARGS cells
    var nArgs: nat

    constructor (key: uint64, value: string)
      ensures Valid() && View() == Entry(key, value, [])
    {
      this.key, this.value, nArgs := key, value, 0;
      args := seq(MAX_ARGS, _ => Argument(0, "", 0));
    }

    ghost predicate Valid()
      reads this
    {
      |args| == MAX_ARGS && nArgs <= MAX_ARGS
    }

    ghost function View(): Entry
      reads this
      requires Valid()
    {
      Entry(key, value, args[..nArgs])
    }

    /** Fills the next argument cell. */
    method PushArg(a: Argument)
      requires Valid() && nArgs < MAX_ARGS
      modifies this
      ensures Valid() && View() == old(View()).(args := old(View()).args + [a])
    {
      args := args[nArgs := a];
      nArgs := nArgs + 1;
    }

    method GetArgument(id: uint64) returns (r: Option<Argument>)
      requires Valid()
      ensures r == FindArg(View().args, id)
    {
      var i := 0;
      while i < nArgs
        invariant i <= nArgs
        invariant FindArg(View().args, id) == FindArg(View().args[i..], id)
      {
        if args[i].id == id { return Some(args[i]); }
        assert View().args[i..][1..] == View().args[i + 1..];
        i := i + 1;
      }
      return None;
    }
  }

  class IdMap {
    const data: array<Element?>
    ghost var slots: Slots  // the contents of the map
    ghost var Repr: set<object>

    ghost predicate Valid()
      reads this, Repr
      ensures Valid() ==> this in Repr
    {
      && {this, data} <= Repr
      && data.Length == MAX_MAP_SIZE
      && (forall i :: 0 <= i < MAX_MAP_SIZE ==> (data[i] == null <==> slots[i].None?))
      && (forall i :: 0 <= i < MAX_MAP_SIZE && data[i] != null ==>
            data[i] in Repr && data[i].Valid() && slots[i] == Some(data[i].View()))
      && (forall i, j :: 0 <= i < j < MAX_MAP_SIZE && data[i] != null ==> data[i] != data[j])
    }

    constructor ()
      ensures Valid() && fresh(Repr)
      ensures slots == Empty()
    {
      data := new Element?[MAX_MAP_SIZE];
      new;
      InitMap();
    }

    method InitMap()
      requires data.Length == MAX_MAP_SIZE
      modifies this, data
      ensures Valid() && Repr == {this, data}
      ensures slots == Empty()
    {
      for i := 0 to MAX_MAP_SIZE
        invariant forall j :: 0 <= j < i ==> data[j] == null
      {
        data[i] := null;
      }
      slots := Empty();
      Repr := {this, data};
    }

    method GetElement(key: uint64) returns (e: Element?)
      requires Valid()
      ensures e == null <==> Resolve(slots, key).None?
      ensures e != null ==> e in Repr && e.Valid() && Resolve(slots, key) == Some(e.View())
    {
      var index := (key % MAX_HASH_SIZE) * REDUNDANCY_MAP;
      var i := index;
      while i < MAX_MAP_SIZE
        invariant index <= i <= MAX_MAP_SIZE
        invariant FindFrom(slots, i, key) == FindFrom(slots, index, key)
      {
        if data[i] == null { break; }
        if data[i].key == key { return data[i]; }
        i := i + 1;
      }
      return null;
    }

    method AddElement(key: uint64, value: string) returns (e: Element?, ghost f: nat)
      requires Valid()
      modifies this, data
      ensures Valid() && fresh(Repr - old(Repr))
      ensures slots == Bind(old(slots), Entry(key, value, []))
      ensures f == FreeSlot(old(slots), key)
      ensures e == null <==> f == MAX_MAP_SIZE
      ensures e != null ==> data[f] == e
    {
      var index := (key % MAX_HASH_SIZE) * REDUNDANCY_MAP;
      f := FreeSlot(slots, key);
      var i := index;
      while i < MAX_MAP_SIZE
        invariant index <= i <= f
        invariant Valid() && unchanged(this, data)
      {
        if data[i] == null {
          e := new Element(key, value);
          data[i] := e;
          slots := slots[i := Some(e.View())];
          Repr := Repr + {e};
          return;
        }
        i := i + 1;
      }
      return null, f;
    }

    /** Appends an argument to the element in slot `f`. */
    method PushArg(e: Element, a: Argument, ghost f: nat)
      requires Valid() && f < MAX_MAP_SIZE && data[f] == e
      requires |slots[f].value.args| < MAX_ARGS
      modifies this`slots, e
      ensures Valid()
      ensures slots == old(slots)[f := Some(old(slots)[f].value.(args := old(slots)[f].value.args + [a]))]
    {
      e.PushArg(a);
      slots := slots[f := Some(e.View())];
    }
  }
}
