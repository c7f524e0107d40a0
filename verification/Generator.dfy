/**
 The control-plane code generator of controlplane.c.py: from the description of a table to the
 straight-line body of its `_add` function, and what that body does when it runs.
 */
module Generator {
  import opened Basics

  // ---- Table descriptions

  datatype MatchType = ExactMatch | LpmMatch | TernaryMatch | OtherMatch(name: string)

  /** A key element: a header field, or a special such as isValid, which has no header. */
  datatype KeyElement =
    | Field(header: string, field: string, width: nat, varWidth: bool, matchType: MatchType)
    | Special(specialType: Option<MatchType>)

  datatype ParamDecl = ParamDecl(name: string, bits: nat)
  datatype ActionDecl = ActionDecl(name: string, annotation: string, params: seq<ParamDecl>)
  datatype TableKind = ExactTable | LpmTable | OtherTable
  datatype Table = Table(
    name: string,
    kind: TableKind,
    keyBytes: nat,
    elements: seq<KeyElement>,
    actions: seq<ActionDecl>)

  function TypeOf(k: KeyElement): Option<MatchType> {
    match k
    case Field(_, _, _, _, t) => Some(t)
    case Special(t) => t
  }

  predicate Known(t: MatchType) {
    !t.OtherMatch?
  }

  /** The sort key of a match type; an unknown one makes the generator fail. */
  function MatchTypeOrder(t: MatchType): nat
    requires Known(t)
  {
    match t
    case ExactMatch => 0
    case LpmMatch => 1
    case TernaryMatch => 2
  }

  /** Bytes of a field in the key; specials and variable-width fields take none. */
  function ByteWidth(k: KeyElement): nat {
    if k.Special? || k.varWidth then 0 else (k.width + 7) / 8
  }

  /** The bytes of a header field of fixed width are the fewest that hold its bits; nothing else takes any. */
  lemma WidthIsLeast(k: KeyElement)
    ensures k.Field? && !k.varWidth ==>
              8 * ByteWidth(k) >= k.width && (ByteWidth(k) > 0 ==> 8 * (ByteWidth(k) - 1) < k.width)
    ensures k.Special? || k.varWidth ==> ByteWidth(k) == 0
  {
  }

  /** The C name of the parameter that carries a field. */
  function VarName(k: KeyElement): string
    requires k.Field?
  {
    "field_instance_" + k.header + "_" + k.field
  }

  lemma {:induction false} PrefixCancels<T>(a: seq<T>, b: seq<T>, c: seq<T>)
    ensures a + b == a + c <==> b == c
  {
    assert b == (a + b)[|a|..] && c == (a + c)[|a|..];
  }

  lemma {:induction false} SuffixCancels<T>(a: seq<T>, b: seq<T>, c: seq<T>)
    ensures a + c == b + c <==> a == b
  {
    if a + c == b + c {
      assert |a| == |b|;
      assert a == (a + c)[..|a|] && b == (b + c)[..|b|];
    }
  }

  /** Fields of one name are told apart by their headers, and fields of one header by their names. */
  lemma {:induction false} NamesSeparate(a: KeyElement, b: KeyElement)
    requires a.Field? && b.Field?
    ensures a.field == b.field ==> (VarName(a) == VarName(b) <==> a.header == b.header)
    ensures a.header == b.header ==> (VarName(a) == VarName(b) <==> a.field == b.field)
  {
    if a.field == b.field {
      SuffixCancels("field_instance_" + a.header + "_", "field_instance_" + b.header + "_", a.field);
      SuffixCancels("field_instance_" + a.header, "field_instance_" + b.header, "_");
      PrefixCancels("field_instance_", a.header, b.header);
    }
    if a.header == b.header { PrefixCancels("field_instance_" + a.header + "_", a.field, b.field); }
  }

  lemma {:induction false} FirstUnderscore(h: string, f: string)
    requires '_' !in h
    ensures var s := h + "_" + f; s[|h|] == '_' && s[..|h|] == h && forall i :: 0 <= i < |h| ==> s[i] != '_'
  {
    assert forall i :: 0 <= i < |h| ==> (h + "_" + f)[i] == h[i];
  }

  /** When header names have no underscore, different fields have different parameter names. */
  lemma {:induction false} NamesAreInjective(a: KeyElement, b: KeyElement)
    requires a.Field? && b.Field? && '_' !in a.header && '_' !in b.header
    ensures VarName(a) == VarName(b) <==> a.header == b.header && a.field == b.field
  {
    var x, y := a.header + "_" + a.field, b.header + "_" + b.field;
    assert VarName(a) == "field_instance_" + x && VarName(b) == "field_instance_" + y;
    PrefixCancels("field_instance_", x, y);
    FirstUnderscore(a.header, a.field);
    FirstUnderscore(b.header, b.field);
    NamesSeparate(a, b);
  }

  /** With underscores they can clash. */
  lemma NamesCanClash(a: KeyElement, b: KeyElement)
    requires a.Field? && b.Field?
    requires a.header == "a_b" && a.field == "c" && b.header == "a" && b.field == "b_c"
    ensures VarName(a) == VarName(b)
  {
  }

  // ---- The stable sort by match type

  /** Every element that takes part in the sort has a known match type. */
  predicate Sortable(es: seq<KeyElement>) {
    forall i :: 0 <= i < |es| && TypeOf(es[i]).Some? ==> Known(TypeOf(es[i]).value)
  }

  predicate Typed(es: seq<KeyElement>) {
    forall i :: 0 <= i < |es| ==> TypeOf(es[i]).Some? && Known(TypeOf(es[i]).value)
  }

  function Order(k: KeyElement): nat
    requires TypeOf(k).Some? && Known(TypeOf(k).value)
  {
    MatchTypeOrder(TypeOf(k).value)
  }

  /** Inserts `k` after every element that does not come later than it. */
  function InsertByOrder(es: seq<KeyElement>, k: KeyElement): (r: seq<KeyElement>)
    requires Typed(es) && TypeOf(k).Some? && Known(TypeOf(k).value)
    ensures Typed(r)
  {
    if es == [] || Order(es[|es| - 1]) <= Order(k) then es + [k]
    else InsertByOrder(es[..|es| - 1], k) + [es[|es| - 1]]
  }

  /** The elements that have a match type, stably sorted by it. */
  function SortedElements(es: seq<KeyElement>): (r: seq<KeyElement>)
    requires Sortable(es)
    ensures Typed(r)
  {
    if es == [] then [] else
    var before, k := SortedElements(es[..|es| - 1]), es[|es| - 1];
    if TypeOf(k).Some? then InsertByOrder(before, k) else before
  }

  /** The elements of one match type, in their original order. */
  function Select(es: seq<KeyElement>, t: MatchType): (r: seq<KeyElement>)
    ensures forall i :: 0 <= i < |r| ==> TypeOf(r[i]) == Some(t)
  {
    if es == [] then [] else
    var before, k := Select(es[..|es| - 1], t), es[|es| - 1];
    if TypeOf(k) == Some(t) then before + [k] else before
  }

  lemma {:induction false} InsertBetween(a: seq<KeyElement>, b: seq<KeyElement>, k: KeyElement)
    requires Typed(a) && Typed(b) && TypeOf(k).Some? && Known(TypeOf(k).value)
    requires forall i :: 0 <= i < |a| ==> Order(a[i]) <= Order(k)
    requires forall i :: 0 <= i < |b| ==> Order(b[i]) > Order(k)
    ensures Typed(a + b) && InsertByOrder(a + b, k) == a + [k] + b
    decreases |b|
  {
    if b == [] {
      assert a + b == a;
      assert a + [k] + b == a + [k];
    } else {
      var n := |b| - 1;
      assert (a + b)[..|a + b| - 1] == a + b[..n];
      InsertBetween(a, b[..n], k);
      assert a + [k] + b == a + [k] + b[..n] + [b[n]];
    }
  }

  /** The order of the key: the exact fields, the LPM fields and the ternary fields, each group in the
      order of the table. */
  lemma {:induction false} SortIsPartition(es: seq<KeyElement>)
    requires Sortable(es)
    ensures SortedElements(es) == Select(es, ExactMatch) + Select(es, LpmMatch) + Select(es, TernaryMatch)
  {
    if es != [] {
      var before, k := es[..|es| - 1], es[|es| - 1];
      SortIsPartition(before);
      var x, l, t := Select(before, ExactMatch), Select(before, LpmMatch), Select(before, TernaryMatch);
      match TypeOf(k)
      case None =>
      case Some(ExactMatch) =>
        ConcatAssociative(x, l, t);
        InsertBetween(x, l + t, k);
        ConcatAssociative(x + [k], l, t);
      case Some(LpmMatch) =>
        InsertBetween(x + l, t, k);
        ConcatAssociative(x, l, [k]);
      case Some(TernaryMatch) =>
        InsertLast(x + l + t, k);
        ConcatAssociative(x + l, t, [k]);
    }
  }

  lemma InsertLast(a: seq<KeyElement>, k: KeyElement)
    requires Typed(a) && TypeOf(k).Some? && Known(TypeOf(k).value)
    requires forall i :: 0 <= i < |a| ==> Order(a[i]) <= Order(k)
    ensures InsertByOrder(a, k) == a + [k]
  {
  }

  // ---- The emitted program

  datatype Instr =
    | Memcpy(dst: nat, source: string, len: nat)
    | ClearPrefix
    | AddPrefixBytes(n: nat)
    | AddPrefixOf(source: string)
    | CopyReversed(n: nat)   // key into the shared buffer, backwards
    | CopyBack(n: nat)       // the shared buffer back into key
    | PromoteLpm
    | PromoteExact

  function TotalWidth(ks: seq<KeyElement>): nat {
    if ks == [] then 0 else TotalWidth(ks[..|ks| - 1]) + ByteWidth(ks[|ks| - 1])
  }

  function Copies(ks: seq<KeyElement>): seq<Instr> {
    if ks == [] then [] else
    var before, k := ks[..|ks| - 1], ks[|ks| - 1];
    if k.Special? then Copies(before)
    else Copies(before) + [Memcpy(TotalWidth(before), VarName(k), ByteWidth(k))]
  }

  /** The statement a key element adds to the computation of the prefix length, if any. */
  function PrefixUpdate(k: KeyElement): seq<Instr> {
    if k.Special? then [] else
    match k.matchType
    case ExactMatch => [AddPrefixBytes(ByteWidth(k))]
    case LpmMatch => [AddPrefixOf(VarName(k))]
    case TernaryMatch => []
    case OtherMatch(_) => []
  }

  function PrefixUpdates(es: seq<KeyElement>): seq<Instr> {
    if es == [] then [] else PrefixUpdates(es[..|es| - 1]) + PrefixUpdate(es[|es| - 1])
  }

  function Tail(t: Table, n: nat): seq<Instr> {
    match t.kind
    case LpmTable => [ClearPrefix] + PrefixUpdates(t.elements) + [CopyReversed(n), CopyBack(n), PromoteLpm]
    case ExactTable => [PromoteExact]
    case OtherTable => []
  }

  /** The body of the table's `_add` function; None when the generator fails on a match type. */
  function Program(t: Table): Option<seq<Instr>> {
    if !Sortable(t.elements) then None
    else
      var ks := SortedElements(t.elements);
      Some(Copies(ks) + Tail(t, TotalWidth(ks)))
  }

  /** The element takes part in the sort with a match type the generator does not know. */
  predicate OfUnknownType(k: KeyElement) {
    match k
    case Field(_, _, _, _, t) => t.OtherMatch?
    case Special(t) => t.Some? && t.value.OtherMatch?
  }

  /** The generator fails exactly when some element has an unknown match type, be it a special. */
  lemma GeneratorFailsIff(t: Table)
    ensures Program(t).None? <==> exists i :: 0 <= i < |t.elements| && OfUnknownType(t.elements[i])
  {
  }

  /** The loop that emits the copies, with its running byte index. */
  method EmitCopies(ks: seq<KeyElement>) returns (code: seq<Instr>, byteIdx: nat)
    ensures code == Copies(ks) && byteIdx == TotalWidth(ks)
  {
    code, byteIdx := [], 0;
    for i := 0 to |ks|
      invariant byteIdx == TotalWidth(ks[..i])
      invariant code == Copies(ks[..i])
    {
      assert ks[..i + 1][..i] == ks[..i];
      if ks[i].Field? {
        var byteWidth := ByteWidth(ks[i]);
        code := code + [Memcpy(byteIdx, VarName(ks[i]), byteWidth)];
        byteIdx := byteIdx + byteWidth;
      }
    }
    assert ks[..|ks|] == ks;
  }

  /** The loop that emits the computation of the prefix length. */
  method EmitPrefix(es: seq<KeyElement>) returns (code: seq<Instr>)
    ensures code == PrefixUpdates(es)
  {
    code := [];
    for i := 0 to |es|
      invariant code == PrefixUpdates(es[..i])
    {
      assert es[..i + 1][..i] == es[..i];
      if es[i].Field? && es[i].matchType == ExactMatch {
        code := code + [AddPrefixBytes(ByteWidth(es[i]))];
      } else if es[i].Field? && es[i].matchType == LpmMatch {
        code := code + [AddPrefixOf(VarName(es[i]))];
      }
    }
    assert es[..|es|] == es;
  }

  /** Emits the body of the table's `_add` function. */
  method EmitAdd(t: Table) returns (program: Option<seq<Instr>>)
    ensures program == Program(t)
  {
    if !Sortable(t.elements) { return None; }
    var code, byteIdx := EmitCopies(SortedElements(t.elements));
    if t.kind == LpmTable {
      var updates := EmitPrefix(t.elements);
      code := code + ([ClearPrefix] + updates + [CopyReversed(byteIdx), CopyBack(byteIdx), PromoteLpm]);
    } else if t.kind == ExactTable {
      code := code + [PromoteExact];
    } else {
      assert code + [] == code;
    }
    return Some(code);
  }

  // ---- Running a program

  /** What the caller passes for a field: the bytes its pointer leads to and the prefix length. */
  datatype FieldArg = FieldArg(value: bytes, prefixLength: uint8)
  type Env = map<string, FieldArg>

  datatype ActionValue = ActionValue(name: string, params: seq<bytes>)

  /** Calls into the switch. */
  datatype Promote =
    | ExactAdd(table: string, key: bytes, action: ActionValue)
    | LpmAdd(table: string, key: bytes, depth: uint8, action: ActionValue)
    | SetDefault(table: string, action: ActionValue)

  datatype Machine = Machine(key: bytes, buffer: bytes, prefix: uint8, promoted: seq<Promote>)

  /** `dst` overwritten at `at` by `src`. */
  function Overwrite(dst: bytes, at: nat, src: bytes): (r: bytes)
    requires at + |src| <= |dst|
    ensures |r| == |dst|
    ensures forall i :: 0 <= i < |dst| ==> r[i] == if at <= i < at + |src| then src[i - at] else dst[i]
  {
    dst[..at] + src + dst[at + |src|..]
  }

  /** Addition to a byte, which wraps around as often as needed. */
  function AddByte(a: uint8, n: nat): uint8 {
    if a + n < TWO_TO_THE_8 then a + n else if n < TWO_TO_THE_8 then a + n - TWO_TO_THE_8
    else AddByte(a, n - TWO_TO_THE_8)
  }

  /** One instruction; None when it reads or writes outside the memory it was given. */
  function Exec(instr: Instr, env: Env, table: string, action: ActionValue, m: Machine): Option<Machine> {
    match instr
    case Memcpy(dst, source, len) =>
      if source in env && len <= |env[source].value| && dst + len <= |m.key|
      then Some(m.(key := Overwrite(m.key, dst, env[source].value[..len]))) else None
    case ClearPrefix => Some(m.(prefix := 0))
    case AddPrefixBytes(n) => Some(m.(prefix := AddByte(m.prefix, n)))
    case AddPrefixOf(source) =>
      if source in env then Some(m.(prefix := AddByte(m.prefix, env[source].prefixLength))) else None
    case CopyReversed(n) =>
      if n <= |m.key| && n <= |m.buffer| then Some(m.(buffer := Overwrite(m.buffer, 0, Reverse(m.key[..n])))) else None
    case CopyBack(n) =>
      if n <= |m.key| && n <= |m.buffer| then Some(m.(key := Overwrite(m.key, 0, m.buffer[..n]))) else None
    case PromoteLpm => Some(m.(promoted := m.promoted + [LpmAdd(table, m.key, m.prefix, action)]))
    case PromoteExact => Some(m.(promoted := m.promoted + [ExactAdd(table, m.key, action)]))
  }

  function ExecAll(program: seq<Instr>, env: Env, table: string, action: ActionValue, m: Machine): Option<Machine> {
    if program == [] then Some(m) else
    match ExecAll(program[..|program| - 1], env, table, action, m)
    case None => None
    case Some(m') => Exec(program[|program| - 1], env, table, action, m')
  }

  // ---- The same program on arrays

  method CopyInto(key: array<uint8>, dst: nat, src: bytes)
    requires dst + |src| <= key.Length
    modifies key
    ensures key[..] == Overwrite(old(key[..]), dst, src)
  {
    for i := 0 to |src|
      invariant forall j :: 0 <= j < key.Length ==>
                  key[j] == if dst <= j < dst + i then src[j - dst] else old(key[j])
    {
      key[dst + i] := src[i];
    }
  }

  /** The first reversal loop. */
  method ReverseIntoBuffer(key: array<uint8>, buffer: array<uint8>, n: nat)
    requires key != buffer && n <= key.Length && n <= buffer.Length
    modifies buffer
    ensures buffer[..] == Overwrite(old(buffer[..]), 0, Reverse(key[..n]))
  {
    var c, d := n - 1, 0;
    while c >= 0
      invariant 0 <= d <= n && c + d == n - 1
      invariant forall j :: 0 <= j < buffer.Length ==>
                  buffer[j] == if j < d then key[n - 1 - j] else old(buffer[j])
    {
      buffer[d] := key[c];
      c, d := c - 1, d + 1;
    }
  }

  /** The second reversal loop. */
  method CopyFromBuffer(key: array<uint8>, buffer: array<uint8>, n: nat)
    requires key != buffer && n <= key.Length && n <= buffer.Length
    modifies key
    ensures key[..] == Overwrite(old(key[..]), 0, buffer[..n])
  {
    var c := 0;
    while c < n
      invariant c <= n
      invariant forall j :: 0 <= j < key.Length ==> key[j] == if j < c then buffer[j] else old(key[j])
    {
      key[c] := buffer[c];
      c := c + 1;
    }
  }

  /** Both loops together reverse the first `n` bytes of the key in place.  The result does not depend on
      what the shared buffer held before. */
  method ReverseKey(key: array<uint8>, buffer: array<uint8>, n: nat)
    requires key != buffer && n <= key.Length && n <= buffer.Length
    modifies key, buffer
    ensures key[..n] == Reverse(old(key[..n])) && key[n..] == old(key[n..])
  {
    ReverseIntoBuffer(key, buffer, n);
    CopyFromBuffer(key, buffer, n);
  }

  method ExecuteOne(instr: Instr, env: Env, table: string, action: ActionValue,
                    key: array<uint8>, buffer: array<uint8>, prefix: uint8, promoted: seq<Promote>)
    returns (prefix': uint8, promoted': seq<Promote>)
    requires key != buffer
    requires Exec(instr, env, table, action, Machine(key[..], buffer[..], prefix, promoted)).Some?
    modifies key, buffer
    ensures Exec(instr, env, table, action, Machine(old(key[..]), old(buffer[..]), prefix, promoted))
            == Some(Machine(key[..], buffer[..], prefix', promoted'))
  {
    prefix', promoted' := prefix, promoted;
    match instr {
      case Memcpy(dst, source, len) => CopyInto(key, dst, env[source].value[..len]);
      case ClearPrefix => prefix' := 0;
      case AddPrefixBytes(n) => prefix' := AddByte(prefix, n);
      case AddPrefixOf(source) => prefix' := AddByte(prefix, env[source].prefixLength);
      case CopyReversed(n) => ReverseIntoBuffer(key, buffer, n);
      case CopyBack(n) => CopyFromBuffer(key, buffer, n);
      case PromoteLpm => promoted' := promoted + [LpmAdd(table, key[..], prefix, action)];
      case PromoteExact => promoted' := promoted + [ExactAdd(table, key[..], action)];
    }
  }

  method Execute(program: seq<Instr>, env: Env, table: string, action: ActionValue, key: array<uint8>,
                 buffer: array<uint8>)
    returns (promoted: seq<Promote>)
    requires key != buffer
    requires ExecAll(program, env, table, action, Machine(key[..], buffer[..], 0, [])).Some?
    modifies key, buffer
    ensures var m := ExecAll(program, env, table, action, Machine(old(key[..]), old(buffer[..]), 0, [])).value;
            key[..] == m.key && buffer[..] == m.buffer && promoted == m.promoted
  {
    ghost var start := Machine(key[..], buffer[..], 0, []);
    var prefix: uint8 := 0;
    promoted := [];
    for i := 0 to |program|
      invariant ExecAll(program[..i], env, table, action, start) == Some(Machine(key[..], buffer[..], prefix, promoted))
    {
      assert program[..i + 1][..i] == program[..i];
      ExecPrefixDefined(program, i + 1, env, table, action, start);
      prefix, promoted := ExecuteOne(program[i], env, table, action, key, buffer, prefix, promoted);
    }
    assert program[..|program|] == program;
  }

  lemma {:induction false} ExecPrefixDefined(program: seq<Instr>, i: nat, env: Env, table: string,
                                             action: ActionValue, m: Machine)
    requires i <= |program| && ExecAll(program, env, table, action, m).Some?
    ensures ExecAll(program[..i], env, table, action, m).Some?
    decreases |program|
  {
    if i < |program| {
      var before := program[..|program| - 1];
      assert before[..i] == program[..i];
      ExecPrefixDefined(before, i, env, table, action, m);
    } else {
      assert program[..i] == program;
    }
  }
}
