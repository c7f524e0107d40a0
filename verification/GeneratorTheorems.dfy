/** The generated `_add` functions compute what the table description asks for. */
module GeneratorTheorems {
  import opened Basics
  import opened Generator

  // ---- The direct specification of a key

  /** The environment holds enough bytes for a field. */
  predicate Supplied(k: KeyElement, env: Env) {
    k.Field? ==> VarName(k) in env && ByteWidth(k) <= |env[VarName(k)].value|
  }

  predicate AllSupplied(ks: seq<KeyElement>, env: Env) {
    forall i :: 0 <= i < |ks| ==> Supplied(ks[i], env)
  }

  /** The bytes a key element contributes. */
  function KeyPart(k: KeyElement, env: Env): (r: bytes)
    requires Supplied(k, env)
    ensures |r| == ByteWidth(k)
  {
    if k.Special? then [] else env[VarName(k)].value[..ByteWidth(k)]
  }

  function Concat(ks: seq<KeyElement>, env: Env): (r: bytes)
    requires AllSupplied(ks, env)
    ensures |r| == TotalWidth(ks)
  {
    if ks == [] then [] else Concat(ks[..|ks| - 1], env) + KeyPart(ks[|ks| - 1], env)
  }

  /** The key of a table: its exact fields, then its LPM fields, then its ternary fields. */
  function TableKey(es: seq<KeyElement>, env: Env): bytes
    requires AllSupplied(es, env)
  {
    SelectSupplied(es, ExactMatch, env);
    SelectSupplied(es, LpmMatch, env);
    SelectSupplied(es, TernaryMatch, env);
    Concat(Select(es, ExactMatch), env) + Concat(Select(es, LpmMatch), env) + Concat(Select(es, TernaryMatch), env)
  }

  lemma {:induction false} SelectSupplied(es: seq<KeyElement>, t: MatchType, env: Env)
    requires AllSupplied(es, env)
    ensures AllSupplied(Select(es, t), env)
  {
    if es != [] { SelectSupplied(es[..|es| - 1], t, env); }
  }

  /** Exact fields count their bytes and LPM fields their prefix lengths. */
  function PrefixPart(k: KeyElement, env: Env): nat
    requires Supplied(k, env)
  {
    if k.Special? then 0
    else if k.matchType == ExactMatch then ByteWidth(k)
    else if k.matchType == LpmMatch then env[VarName(k)].prefixLength
    else 0
  }

  function PrefixSum(es: seq<KeyElement>, env: Env): nat
    requires AllSupplied(es, env)
  {
    if es == [] then 0 else PrefixSum(es[..|es| - 1], env) + PrefixPart(es[|es| - 1], env)
  }

  // ---- Running parts of the program

  lemma {:induction false} ExecConcat(p: seq<Instr>, q: seq<Instr>, env: Env, table: string, action: ActionValue,
                                      m: Machine)
    ensures ExecAll(p + q, env, table, action, m) ==
            match ExecAll(p, env, table, action, m)
            case None => None
            case Some(m') => ExecAll(q, env, table, action, m')
    decreases |q|
  {
    if q == [] {
      assert p + q == p;
    } else {
      assert (p + q)[..|p + q| - 1] == p + q[..|q| - 1];
      ExecConcat(p, q[..|q| - 1], env, table, action, m);
    }
  }

  lemma {:induction false} ExecOne(i: Instr, env: Env, table: string, action: ActionValue, m: Machine)
    ensures ExecAll([i], env, table, action, m) == Exec(i, env, table, action, m)
  {
    assert [i][..0] == [];
  }

  lemma {:induction false} ExecSnoc(p: seq<Instr>, i: Instr, env: Env, table: string, action: ActionValue, m: Machine)
    ensures ExecAll(p + [i], env, table, action, m) ==
            match ExecAll(p, env, table, action, m)
            case None => None
            case Some(m') => Exec(i, env, table, action, m')
  {
    assert (p + [i])[..|p|] == p;
  }

  lemma OverwriteTwice(dst: bytes, a: bytes, b: bytes)
    requires |a| + |b| <= |dst|
    ensures Overwrite(Overwrite(dst, 0, a), |a|, b) == Overwrite(dst, 0, a + b)
  {
  }

  lemma OverwriteFront(dst: bytes, src: bytes)
    requires |src| <= |dst|
    ensures Overwrite(dst, 0, src) == src + dst[|src|..]
  {
  }

  lemma OverwriteNothing(dst: bytes, at: nat)
    requires at <= |dst|
    ensures Overwrite(dst, at, []) == dst
  {
  }

  /** The copies write contiguous ranges from the start of the key, and stay inside it exactly when the
      widths fit. */
  lemma {:induction false} CopiesRun(ks: seq<KeyElement>, env: Env, table: string, action: ActionValue, m: Machine)
    requires AllSupplied(ks, env)
    ensures ExecAll(Copies(ks), env, table, action, m) ==
            if TotalWidth(ks) <= |m.key| then Some(m.(key := Overwrite(m.key, 0, Concat(ks, env)))) else None
  {
    if ks == [] {
      OverwriteNothing(m.key, 0);
    } else {
      var before, k := ks[..|ks| - 1], ks[|ks| - 1];
      CopiesRun(before, env, table, action, m);
      if k.Special? {
        assert Concat(before, env) + [] == Concat(before, env);
      } else {
        ExecSnoc(Copies(before), Memcpy(TotalWidth(before), VarName(k), ByteWidth(k)), env, table, action, m);
        if TotalWidth(ks) <= |m.key| { OverwriteTwice(m.key, Concat(before, env), KeyPart(k, env)); }
      }
    }
  }

  /** The wrapped sum is the remainder. */
  lemma {:induction false} AddByteIsRemainder(a: uint8, n: nat)
    ensures AddByte(a, n) == (a + n) % TWO_TO_THE_8
  {
    if n >= TWO_TO_THE_8 { AddByteIsRemainder(a, n - TWO_TO_THE_8); }
  }

  lemma {:induction false} AddByteTwice(a: uint8, x: nat, y: nat)
    ensures AddByte(AddByte(a, x), y) == AddByte(a, x + y)
  {
    AddByteIsRemainder(a, x);
    AddByteIsRemainder(AddByte(a, x), y);
    AddByteIsRemainder(a, x + y);
  }

  lemma {:induction false} PrefixUpdateRun(k: KeyElement, env: Env, table: string, action: ActionValue, m: Machine)
    requires Supplied(k, env)
    ensures ExecAll(PrefixUpdate(k), env, table, action, m)
            == Some(m.(prefix := AddByte(m.prefix, PrefixPart(k, env))))
  {
    if k.Field? && k.matchType == ExactMatch {
      ExecOne(AddPrefixBytes(ByteWidth(k)), env, table, action, m);
    } else if k.Field? && k.matchType == LpmMatch {
      ExecOne(AddPrefixOf(VarName(k)), env, table, action, m);
    }
  }

  lemma {:induction false} ExecThen(p: seq<Instr>, q: seq<Instr>, env: Env, table: string, action: ActionValue,
                                    m: Machine, m1: Machine, m2: Machine)
    requires ExecAll(p, env, table, action, m) == Some(m1)
    requires ExecAll(q, env, table, action, m1) == Some(m2)
    ensures ExecAll(p + q, env, table, action, m) == Some(m2)
  {
    ExecConcat(p, q, env, table, action, m);
  }

  lemma {:induction false} PrefixRun(es: seq<KeyElement>, env: Env, table: string, action: ActionValue, m: Machine)
    requires AllSupplied(es, env)
    ensures ExecAll(PrefixUpdates(es), env, table, action, m)
            == Some(m.(prefix := AddByte(m.prefix, PrefixSum(es, env))))
  {
    if es != [] {
      var before, k := es[..|es| - 1], es[|es| - 1];
      var sum, part := PrefixSum(before, env), PrefixPart(k, env);
      AddByteTwice(m.prefix, sum, part);
      var m1 := m.(prefix := AddByte(m.prefix, sum));
      var m2 := m1.(prefix := AddByte(m1.prefix, part));
      assert m2 == m.(prefix := AddByte(m.prefix, PrefixSum(es, env)));
      assert PrefixUpdates(es) == PrefixUpdates(before) + PrefixUpdate(k);
      PrefixUpdateRun(k, env, table, action, m1);
      PrefixRun(before, env, table, action, m);
      ExecThen(PrefixUpdates(before), PrefixUpdate(k), env, table, action, m, m1, m2);
    }
  }

  lemma {:induction false} ReversalRun(n: nat, env: Env, table: string, action: ActionValue, m: Machine)
    requires n <= |m.key| && n <= |m.buffer|
    ensures var r := ExecAll([CopyReversed(n), CopyBack(n), PromoteLpm], env, table, action, m);
            r.Some? && r.value.promoted
            == m.promoted + [LpmAdd(table, Reverse(m.key[..n]) + m.key[n..], m.prefix, action)]
  {
    var b := Overwrite(m.buffer, 0, Reverse(m.key[..n]));
    var m1 := m.(buffer := b);
    var k := Overwrite(m.key, 0, b[..n]);
    var m2 := m1.(key := k);
    ExecOne(CopyReversed(n), env, table, action, m);
    ExecSnoc([CopyReversed(n)], CopyBack(n), env, table, action, m);
    ExecSnoc([CopyReversed(n), CopyBack(n)], PromoteLpm, env, table, action, m);
    assert [CopyReversed(n)] + [CopyBack(n)] == [CopyReversed(n), CopyBack(n)];
    assert [CopyReversed(n), CopyBack(n)] + [PromoteLpm] == [CopyReversed(n), CopyBack(n), PromoteLpm];
    assert b[..n] == Reverse(m.key[..n]);
    assert k == Reverse(m.key[..n]) + m.key[n..];
  }

  lemma ReverseTwice<T>(s: seq<T>)
    ensures Reverse(Reverse(s)) == s
  {
  }

  // ---- Main results

  lemma {:induction false} InsertWidth(es: seq<KeyElement>, k: KeyElement)
    requires Typed(es) && TypeOf(k).Some? && Known(TypeOf(k).value)
    ensures TotalWidth(InsertByOrder(es, k)) == TotalWidth(es) + ByteWidth(k)
  {
    if es != [] && Order(es[|es| - 1]) > Order(k) { InsertWidth(es[..|es| - 1], k); }
  }

  /** Sorting keeps the total width: the specials it drops take no bytes. */
  lemma {:induction false} SortedWidth(es: seq<KeyElement>)
    requires Sortable(es)
    ensures TotalWidth(SortedElements(es)) == TotalWidth(es)
  {
    if es != [] {
      var before, k := es[..|es| - 1], es[|es| - 1];
      SortedWidth(before);
      if TypeOf(k).Some? { InsertWidth(SortedElements(before), k); }
    }
  }

  lemma {:induction false} ConcatSnoc(ks: seq<KeyElement>, k: KeyElement, env: Env)
    requires AllSupplied(ks, env) && Supplied(k, env)
    ensures AllSupplied(ks + [k], env) && Concat(ks + [k], env) == Concat(ks, env) + KeyPart(k, env)
  {
    assert (ks + [k])[..|ks|] == ks;
  }

  lemma {:induction false} ConcatAppend(a: seq<KeyElement>, b: seq<KeyElement>, env: Env)
    requires AllSupplied(a, env) && AllSupplied(b, env)
    ensures AllSupplied(a + b, env) && Concat(a + b, env) == Concat(a, env) + Concat(b, env)
    decreases |b|
  {
    if b == [] {
      assert a + b == a;
    } else {
      var n := |b| - 1;
      ConcatAppend(a, b[..n], env);
      ConcatSnoc(a + b[..n], b[n], env);
      ConcatAssociative(a, b[..n], [b[n]]);
      assert b == b[..n] + [b[n]];
      ConcatAssociative(Concat(a, env), Concat(b[..n], env), KeyPart(b[n], env));
    }
  }

  lemma {:induction false} SortedConcat(es: seq<KeyElement>, env: Env)
    requires Sortable(es) && AllSupplied(es, env)
    ensures AllSupplied(SortedElements(es), env)
    ensures Concat(SortedElements(es), env) == TableKey(es, env)
    ensures |TableKey(es, env)| == TotalWidth(es)
  {
    var x, l, t := Select(es, ExactMatch), Select(es, LpmMatch), Select(es, TernaryMatch);
    SortIsPartition(es);
    SelectSupplied(es, ExactMatch, env);
    SelectSupplied(es, LpmMatch, env);
    SelectSupplied(es, TernaryMatch, env);
    ConcatAppend(x, l, env);
    ConcatAppend(x + l, t, env);
    SortedWidth(es);
  }

  /** What the generated function does when its widths fit: nothing for a table of another kind, and
      otherwise one call on the table with the fields of the key in sorted order, reversed for LPM;
      `rest` is whatever the key array held beyond the fields. */
  function ExpectedPromotes(t: Table, env: Env, action: ActionValue, rest: bytes): seq<Promote>
    requires AllSupplied(t.elements, env)
  {
    match t.kind
    case ExactTable => [ExactAdd(t.name, TableKey(t.elements, env) + rest, action)]
    case LpmTable =>
      [LpmAdd(t.name, Reverse(TableKey(t.elements, env)) + rest, PrefixSum(t.elements, env) % TWO_TO_THE_8, action)]
    case OtherTable => []
  }

  /** Running a program is running its tail on a key that starts with the sorted fields. */
  lemma {:induction false} CopiesThenTail(t: Table, env: Env, action: ActionValue, m: Machine)
    requires Sortable(t.elements) && AllSupplied(t.elements, env)
    ensures var n := TotalWidth(t.elements);
            ExecAll(Program(t).value, env, t.name, action, m) ==
            if n <= |m.key|
            then ExecAll(Tail(t, n), env, t.name, action, m.(key := TableKey(t.elements, env) + m.key[n..]))
            else None
    ensures |TableKey(t.elements, env)| == TotalWidth(t.elements)
  {
    var ks := SortedElements(t.elements);
    SortedConcat(t.elements, env);
    SortedWidth(t.elements);
    CopiesRun(ks, env, t.name, action, m);
    ExecConcat(Copies(ks), Tail(t, TotalWidth(ks)), env, t.name, action, m);
    if TotalWidth(ks) <= |m.key| { OverwriteFront(m.key, TableKey(t.elements, env)); }
  }

  /** Generator correctness: from any initial key and buffer contents, the emitted program runs inside
      its memory if and only if the widths add up to at most the key length, and then makes exactly the
      calls asked for. */
  lemma {:induction false} GeneratedAdd(t: Table, env: Env, action: ActionValue, m: Machine)
    requires Sortable(t.elements) && AllSupplied(t.elements, env)
    requires |m.key| == t.keyBytes <= |m.buffer| && m.promoted == []
    ensures var r := ExecAll(Program(t).value, env, t.name, action, m);
            && (r.Some? <==> TotalWidth(t.elements) <= t.keyBytes)
            && (r.Some? ==> r.value.promoted == ExpectedPromotes(t, env, action, m.key[TotalWidth(t.elements)..]))
  {
    var n, key := TotalWidth(t.elements), TableKey(t.elements, env);
    CopiesThenTail(t, env, action, m);
    if n <= t.keyBytes {
      var m1 := m.(key := key + m.key[n..]);
      assert m1.key[..n] == key && m1.key[n..] == m.key[n..];
      match t.kind
      case ExactTable => ExecOne(PromoteExact, env, t.name, action, m1);
      case LpmTable => LpmTail(t, n, env, action, m1);
      case OtherTable =>
    }
  }

  /** When the widths fill the key exactly, nothing of what it held before shows. */
  lemma {:induction false} GeneratedAddExact(t: Table, env: Env, action: ActionValue, m: Machine)
    requires Sortable(t.elements) && AllSupplied(t.elements, env)
    requires TotalWidth(t.elements) == |m.key| == t.keyBytes <= |m.buffer| && m.promoted == []
    ensures var r := ExecAll(Program(t).value, env, t.name, action, m);
            r.Some? && r.value.promoted == ExpectedPromotes(t, env, action, [])
  {
    GeneratedAdd(t, env, action, m);
    assert m.key[TotalWidth(t.elements)..] == [];
  }

  lemma {:induction false} LpmTail(t: Table, n: nat, env: Env, action: ActionValue, m: Machine)
    requires t.kind.LpmTable? && AllSupplied(t.elements, env)
    requires n <= |m.key| && n <= |m.buffer| && m.promoted == []
    ensures var r := ExecAll(Tail(t, n), env, t.name, action, m);
            r.Some? && r.value.promoted
            == [LpmAdd(t.name, Reverse(m.key[..n]) + m.key[n..], PrefixSum(t.elements, env) % TWO_TO_THE_8, action)]
  {
    var reversal := [CopyReversed(n), CopyBack(n), PromoteLpm];
    PrefixCounted(t.elements, env, t.name, action, m);
    ExecConcat([ClearPrefix] + PrefixUpdates(t.elements), reversal, env, t.name, action, m);
    ReversalRun(n, env, t.name, action, m.(prefix := PrefixSum(t.elements, env) % TWO_TO_THE_8));
  }

  lemma {:induction false} PrefixCounted(es: seq<KeyElement>, env: Env, table: string, action: ActionValue, m: Machine)
    requires AllSupplied(es, env)
    ensures ExecAll([ClearPrefix] + PrefixUpdates(es), env, table, action, m)
            == Some(m.(prefix := PrefixSum(es, env) % TWO_TO_THE_8))
  {
    AddByteIsRemainder(0, PrefixSum(es, env));
    ExecOne(ClearPrefix, env, table, action, m);
    PrefixRun(es, env, table, action, m.(prefix := 0));
    ExecConcat([ClearPrefix], PrefixUpdates(es), env, table, action, m);
  }

  // ---- Different fields give different keys

  lemma {:induction false} SplitEqual<T>(a: seq<T>, b: seq<T>, c: seq<T>, d: seq<T>)
    requires |a| == |c| && a + b == c + d
    ensures a == c && b == d
  {
    assert a == (a + b)[..|a|] && c == (c + d)[..|c|];
    assert b == (a + b)[|a|..] && d == (c + d)[|c|..];
  }

  lemma {:induction false} ConcatInjective(ks: seq<KeyElement>, e1: Env, e2: Env)
    requires AllSupplied(ks, e1) && AllSupplied(ks, e2)
    requires Concat(ks, e1) == Concat(ks, e2)
    ensures forall i :: 0 <= i < |ks| ==> KeyPart(ks[i], e1) == KeyPart(ks[i], e2)
  {
    if ks != [] {
      var before, k := ks[..|ks| - 1], ks[|ks| - 1];
      SplitEqual(Concat(before, e1), KeyPart(k, e1), Concat(before, e2), KeyPart(k, e2));
      ConcatInjective(before, e1, e2);
    }
  }

  lemma {:induction false} InsertKeeps(es: seq<KeyElement>, k: KeyElement)
    requires Typed(es) && TypeOf(k).Some? && Known(TypeOf(k).value)
    ensures forall x :: x in InsertByOrder(es, k) <==> x == k || x in es
  {
    if es != [] && Order(es[|es| - 1]) > Order(k) {
      var before := es[..|es| - 1];
      InsertKeeps(before, k);
      assert es == before + [es[|es| - 1]];
    }
  }

  lemma {:induction false} SortKeeps(es: seq<KeyElement>)
    requires Sortable(es)
    ensures forall x :: x in es && TypeOf(x).Some? ==> x in SortedElements(es)
  {
    if es != [] {
      var before, k := es[..|es| - 1], es[|es| - 1];
      SortKeeps(before);
      assert es == before + [k];
      if TypeOf(k).Some? { InsertKeeps(SortedElements(before), k); }
    }
  }

  /** Two environments that give the same key give the same bytes for every field. */
  lemma {:induction false} KeyIsInjective(es: seq<KeyElement>, e1: Env, e2: Env, k: KeyElement)
    requires Sortable(es) && AllSupplied(es, e1) && AllSupplied(es, e2)
    requires TableKey(es, e1) == TableKey(es, e2)
    requires k in es && k.Field?
    ensures KeyPart(k, e1) == KeyPart(k, e2)
  {
    SortedConcat(es, e1);
    SortedConcat(es, e2);
    ConcatInjective(SortedElements(es), e1, e2);
    SortKeeps(es);
    var i :| 0 <= i < |SortedElements(es)| && SortedElements(es)[i] == k;
  }

  /** The same for the reversed key of an LPM table. */
  lemma {:induction false} ReversedKeyIsInjective(es: seq<KeyElement>, e1: Env, e2: Env, k: KeyElement)
    requires Sortable(es) && AllSupplied(es, e1) && AllSupplied(es, e2)
    requires Reverse(TableKey(es, e1)) == Reverse(TableKey(es, e2))
    requires k in es && k.Field?
    ensures KeyPart(k, e1) == KeyPart(k, e2)
  {
    ReverseTwice(TableKey(es, e1));
    ReverseTwice(TableKey(es, e2));
    KeyIsInjective(es, e1, e2, k);
  }

  // ---- When the generated code is defined

  lemma {:induction false} CopiesKeepLength(ks: seq<KeyElement>, env: Env, table: string, action: ActionValue,
                                            m: Machine)
    requires ExecAll(Copies(ks), env, table, action, m).Some?
    ensures |ExecAll(Copies(ks), env, table, action, m).value.key| == |m.key|
  {
    if ks != [] {
      var before, k := ks[..|ks| - 1], ks[|ks| - 1];
      if k.Field? {
        ExecSnoc(Copies(before), Memcpy(TotalWidth(before), VarName(k), ByteWidth(k)), env, table, action, m);
      }
      CopiesKeepLength(before, env, table, action, m);
    }
  }

  lemma {:induction false} SuppliedSnoc(ks: seq<KeyElement>, env: Env)
    requires ks != []
    ensures AllSupplied(ks, env) <==> AllSupplied(ks[..|ks| - 1], env) && Supplied(ks[|ks| - 1], env)
  {
  }

  /** The copies stay inside their sources and the key exactly when every field is supplied and the widths fit. */
  lemma {:induction false} CopiesDefinedIff(ks: seq<KeyElement>, env: Env, table: string, action: ActionValue,
                                            m: Machine)
    ensures ExecAll(Copies(ks), env, table, action, m).Some? <==> AllSupplied(ks, env) && TotalWidth(ks) <= |m.key|
  {
    if ks != [] {
      var before, k := ks[..|ks| - 1], ks[|ks| - 1];
      CopiesDefinedIff(before, env, table, action, m);
      SuppliedSnoc(ks, env);
      if k.Field? {
        var r := ExecAll(Copies(before), env, table, action, m);
        ExecSnoc(Copies(before), Memcpy(TotalWidth(before), VarName(k), ByteWidth(k)), env, table, action, m);
        if r.Some? { CopiesKeepLength(before, env, table, action, m); }
      }
    }
  }

  /** A field that is not supplied is missed among the sorted elements too. */
  lemma {:induction false} SortKeepsUnsupplied(es: seq<KeyElement>, env: Env)
    requires Sortable(es) && !AllSupplied(es, env)
    ensures !AllSupplied(SortedElements(es), env)
  {
    var i :| 0 <= i < |es| && !Supplied(es[i], env);
    SortKeeps(es);
    assert es[i] in SortedElements(es);
    var j :| 0 <= j < |SortedElements(es)| && SortedElements(es)[j] == es[i];
  }

  /** The emitted program runs inside its memory if and only if every field is supplied with enough bytes and
      the widths fit the key. */
  lemma {:induction false} GeneratedDefinedIff(t: Table, env: Env, action: ActionValue, m: Machine)
    requires Sortable(t.elements) && |m.key| == t.keyBytes <= |m.buffer| && m.promoted == []
    ensures ExecAll(Program(t).value, env, t.name, action, m).Some? <==>
            AllSupplied(t.elements, env) && TotalWidth(t.elements) <= t.keyBytes
  {
    if AllSupplied(t.elements, env) {
      GeneratedAdd(t, env, action, m);
    } else {
      var ks := SortedElements(t.elements);
      SortKeepsUnsupplied(t.elements, env);
      CopiesDefinedIff(ks, env, t.name, action, m);
      ExecConcat(Copies(ks), Tail(t, TotalWidth(ks)), env, t.name, action, m);
    }
  }

  // ---- Arithmetic of the prefix counter

  /** Counting bytes instead of bits goes unnoticed modulo 256 only for a multiple of 256 bytes. */
  lemma {:induction false} BytesForBits(exactBytes: nat, prefix: int)
    ensures (exactBytes + prefix) % TWO_TO_THE_8 == (8 * exactBytes + prefix) % TWO_TO_THE_8
            <==> exactBytes % TWO_TO_THE_8 == 0
  {
    var x, y := exactBytes + prefix, 8 * exactBytes + prefix;
    if x % TWO_TO_THE_8 == y % TWO_TO_THE_8 {
      var k := y / TWO_TO_THE_8 - x / TWO_TO_THE_8;
      assert 7 * exactBytes == TWO_TO_THE_8 * k;
      assert exactBytes == TWO_TO_THE_8 * (183 * k - 5 * exactBytes);
    }
    if exactBytes % TWO_TO_THE_8 == 0 {
      var q := exactBytes / TWO_TO_THE_8;
      assert y == x + TWO_TO_THE_8 * (7 * q);
    }
  }
}
