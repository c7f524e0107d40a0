/** What single requests guarantee: writes, reads and stream messages. */
module RequestTheorems {
  import opened Basics
  import opened IdMapSpec
  import opened Messages
  import opened DigestMap
  import opened DeviceSpec

  // ---- Pushes

  /** Of the six actions, four have one and the same effect, VERIFY among them, and the other two have
      none beyond renaming the device. */
  lemma {:induction false} PushActions(d: Device, deviceId: uint64, config: PipelineConfig, tmpfileOk: bool)
    ensures forall a :: a in [Verify, VerifyAndSave, ReconcileAndCommit] ==>
              SetConfig(d, deviceId, a, config, tmpfileOk) == SetConfig(d, deviceId, VerifyAndCommit, config, tmpfileOk)
    ensures forall a :: a in [Commit, SetUnspecified] ==>
              SetConfig(d, deviceId, a, config, tmpfileOk) == Some(d.(deviceId := deviceId))
    ensures var r := SetConfig(d, deviceId, VerifyAndCommit, config, tmpfileOk);
            r.Some? ==>
              && r.value.hasP4Info && r.value.deviceId == deviceId && r.value.stream == d.stream
              && forall i :: 0 <= i < |r.value.digests| ==> !r.value.digests[i].active
  {
    FreshlyInactive(config.p4info.digests);
  }

  // ---- Table writes

  /** The match kind a rule stands for. */
  function KindOf(rule: MatchRule): MatchKind {
    match rule
    case ExactRule(_, _, bitmap) => Exact(bitmap)
    case LpmRule(_, prefixLength, bitmap) => Lpm(bitmap, prefixLength)
    case TernaryRule(_, _, bitmap, mask) => Ternary(bitmap, mask)
  }

  /** The matches of the kinds the agent implements; the loop over the matches skips the others. */
  function Implemented(ms: seq<FieldMatch>): (r: seq<FieldMatch>)
    ensures forall m :: m in r <==> m in ms && !m.kind.OtherKind?
    ensures (forall m :: m in ms ==> !m.kind.OtherKind?) ==> r == ms
  {
    if ms == [] then [] else
    var before, m := ms[..|ms| - 1], ms[|ms| - 1];
    assert ms == before + [m];
    if m.kind.OtherKind? then Implemented(before) else Implemented(before) + [m]
  }

  /** Nothing of an implemented match is lost on the way into its rule: kind, value, mask and prefix length
      can be read back, and the rule carries the name and, but for LPM, the bit width the field was declared
      with. */
  lemma {:induction false} RuleRoundTrip(table: Entry, ms: seq<FieldMatch>, i: nat)
    requires MatchesDefined(table, ms) && i < |Implemented(ms)|
    ensures |GenRules(table, ms)| == |Implemented(ms)|
    ensures KindOf(GenRules(table, ms)[i]) == Implemented(ms)[i].kind
    ensures FindArg(table.args, Implemented(ms)[i].fieldId).Some?
    ensures var a, rule := FindArg(table.args, Implemented(ms)[i].fieldId).value, GenRules(table, ms)[i];
            rule.name == a.name && (!rule.LpmRule? ==> rule.length == a.bitwidth)
  {
    RulesFollowMatches(table, ms);
    assert Implemented(ms)[i] in Implemented(ms);
  }

  predicate Resets(kind: MatchKind) {
    kind.Exact? || kind.Lpm?
  }

  /** A later match resets the status that match `i` may have set. */
  ghost predicate Masked(ms: seq<FieldMatch>, i: nat) {
    exists j :: i < j < |ms| && Resets(ms[j].kind)
  }

  /** Every match of an unimplemented kind is followed by an exact or LPM match. */
  ghost predicate AllMasked(ms: seq<FieldMatch>) {
    forall i: nat :: i < |ms| && ms[i].kind.OtherKind? ==> Masked(ms, i)
  }

  lemma {:induction false} MaskedSnoc(ms: seq<FieldMatch>, m: FieldMatch, i: nat)
    requires i < |ms|
    ensures Masked(ms + [m], i) <==> Masked(ms, i) || Resets(m.kind)
  {
    var all := ms + [m];
    if Masked(ms, i) {
      var j :| i < j < |ms| && Resets(ms[j].kind);
      assert Resets(all[j].kind);
    }
    if Resets(m.kind) { assert Resets(all[|ms|].kind); }
  }

  lemma {:induction false} AllMaskedSnoc(ms: seq<FieldMatch>, m: FieldMatch)
    ensures AllMasked(ms + [m]) <==> !m.kind.OtherKind? && (AllMasked(ms) || Resets(m.kind))
  {
    var all := ms + [m];
    forall i: nat | i < |ms| ensures Masked(all, i) <==> Masked(ms, i) || Resets(m.kind) { MaskedSnoc(ms, m, i); }
    assert !Masked(all, |ms|);
    assert all[|ms|] == m;
    assert forall i :: 0 <= i < |ms| ==> all[i] == ms[i];
  }

  /** The status of the matches is OK exactly when every match of an unimplemented kind is masked. */
  lemma {:induction false} MatchStatusIff(ms: seq<FieldMatch>)
    ensures MatchStatus(ms).Ok? <==> AllMasked(ms)
  {
    if ms != [] {
      var before, m := ms[..|ms| - 1], ms[|ms| - 1];
      MatchStatusIff(before);
      AllMaskedSnoc(before, m);
      assert ms == before + [m];
    }
  }

  /** The callback fires for a table write exactly when its status is OK, and then exactly once. */
  lemma CallbackIffOk(slots: Slots, kind: UpdateType, te: TableEntry)
    requires WriteDefined(slots, Update(kind, TableEntity(te)))
    ensures var effects := UpdateEffects(slots, Update(kind, TableEntity(te)));
            if TableWriteStatus(slots, kind, te).Ok?
            then kind.Insert? && effects == [Callback(InsertMessage(slots, te))]
            else effects == []
  {
  }

  /** A table write succeeds exactly for an insert of a known direct action whose unimplemented matches
      are all masked by a later exact or LPM match. */
  lemma {:induction false} TableWriteOkIff(slots: Slots, kind: UpdateType, te: TableEntry)
    ensures TableWriteStatus(slots, kind, te).Ok? <==>
            && kind.Insert?
            && te.action.DirectAction? && Resolve(slots, te.action.actionId).Some?
            && AllMasked(te.matches)
  {
    MatchStatusIff(te.matches);
  }

  /** What a table write that is not OK answers: INVALID_ARGUMENT exactly for an unspecified update or an
      unknown action, UNKNOWN exactly for an update type outside the protocol, else UNIMPLEMENTED. */
  lemma {:induction false} TableWriteErrors(slots: Slots, kind: UpdateType, te: TableEntry)
    requires !TableWriteStatus(slots, kind, te).Ok?
    ensures TableWriteStatus(slots, kind, te).InvalidArgument? <==>
            || kind.UpdateUnspecified?
            || (kind.Insert? && te.action.DirectAction? && Resolve(slots, te.action.actionId).None?)
    ensures TableWriteStatus(slots, kind, te).Unknown? <==> kind.OtherUpdate?
    ensures TableWriteStatus(slots, kind, te).Unimplemented? <==>
            || kind.Modify? || kind.Delete?
            || (kind.Insert? && (te.action.OtherAction?
                                 || (Resolve(slots, te.action.actionId).Some? && !AllMasked(te.matches))))
  {
    MatchStatusIff(te.matches);
  }

  /** The number two bytes stand for, least significant byte first. */
  function LittleEndian(b: bytes): nat
    requires |b| == 2
  {
    (b[0] as int) + 256 * (b[1] as int)
  }

  /** A 16-bit parameter called "type", which the controller sends most significant byte first, is stored
      the way a little-endian switch reads it; every other parameter is stored as sent. */
  lemma {:induction false} TypeParamInHostOrder(n: nat, name: string, value: bytes)
    requires n < 0x1_0000
    ensures |ParamBitmap("type", [n / 256, n % 256])| == 2
    ensures LittleEndian(ParamBitmap("type", [n / 256, n % 256])) == n
    ensures name != "type" || |value| != 2 ==> ParamBitmap(name, value) == value
  {
  }

  /** A match of an unimplemented kind does not make the insert fail: here one is dropped silently, and
      the message carries a single rule for two matches. */
  lemma {:induction false} UnimplementedMatchMasked(slots: Slots)
    requires Resolve(slots, 1) == Some(Entry(1, "t", [Argument(1, "f", 8)]))
    requires Resolve(slots, 2) == Some(Entry(2, "a", []))
    ensures var te := TableEntry(1, [FieldMatch(7, OtherKind), FieldMatch(1, Exact([9]))], DirectAction(2, []), false);
            && InsertDefined(slots, te) && InsertStatus(slots, te) == Ok
            && InsertMessage(slots, te) == CtrlMsg(AddTableEntry, "t", [ExactRule("f", 8, [9])], "a", [])
  {
    var table := Resolve(slots, 1).value;
    var ms := [FieldMatch(7, OtherKind), FieldMatch(1, Exact([9]))];
    assert ms[..1] == [FieldMatch(7, OtherKind)];
    assert ms[..1][..0] == [];
    assert FindArg(table.args, 1) == Some(Argument(1, "f", 8));
    assert MatchesDefined(table, ms);
    assert GenRules(table, ms[..1]) == [];
  }

  /** Rule `i` of the message comes from implemented match `i`. */
  lemma {:induction false} RulesFollowMatches(table: Entry, ms: seq<FieldMatch>)
    requires MatchesDefined(table, ms)
    ensures |GenRules(table, ms)| == |Implemented(ms)|
    ensures forall i :: 0 <= i < |Implemented(ms)| ==>
              && !Implemented(ms)[i].kind.OtherKind? && FindArg(table.args, Implemented(ms)[i].fieldId).Some?
              && GenRules(table, ms)[i]
                 == GenRule(FindArg(table.args, Implemented(ms)[i].fieldId).value, Implemented(ms)[i].kind)
  {
    if ms != [] { RulesFollowMatches(table, ms[..|ms| - 1]); }
  }

  /** Parameter `i` of the message carries the declared name and bit width of parameter `i` of the request, and
      its value, in host order if it is the one called type. */
  lemma {:induction false} ParamsFollow(action: Entry, ps: seq<Param>)
    requires ParamsDefined(action, ps)
    ensures |GenParams(action, ps)| == |ps|
    ensures forall i :: 0 <= i < |ps| ==>
              var a := FindArg(action.args, ps[i].paramId).value;
              GenParams(action, ps)[i] == ActionParam(a.name, a.bitwidth, ParamBitmap(a.name, ps[i].value))
  {
    if ps != [] { ParamsFollow(action, ps[..|ps| - 1]); }
  }

  /** The list holds an argument with the id. */
  predicate Declares(args: seq<Argument>, id: uint64) {
    exists i :: 0 <= i < |args| && args[i].id == id
  }

  lemma {:induction false} DeclaresIff(args: seq<Argument>, id: uint64)
    ensures FindArg(args, id).Some? <==> Declares(args, id)
  {
  }

  /** An insert is free of undefined behaviour exactly when its table id resolves, the table declares the field of
      every implemented match, and the action, if it is a direct one that resolves, declares every parameter. */
  lemma {:induction false} InsertDefinedIff(slots: Slots, te: TableEntry)
    ensures InsertDefined(slots, te) <==>
            && Resolve(slots, te.tableId).Some?
            && (forall m :: m in Implemented(te.matches) ==>
                  Declares(Resolve(slots, te.tableId).value.args, m.fieldId))
            && (te.action.DirectAction? && Resolve(slots, te.action.actionId).Some? ==>
                  forall p :: p in te.action.params ==>
                    Declares(Resolve(slots, te.action.actionId).value.args, p.paramId))
  {
    if Resolve(slots, te.tableId).Some? {
      var args := Resolve(slots, te.tableId).value.args;
      forall m: FieldMatch ensures FindArg(args, m.fieldId).Some? <==> Declares(args, m.fieldId) {
        DeclaresIff(args, m.fieldId);
      }
      assert MatchesDefined(Resolve(slots, te.tableId).value, te.matches) <==>
             forall m :: m in Implemented(te.matches) ==> FindArg(args, m.fieldId).Some?;
    }
    if te.action.DirectAction? && Resolve(slots, te.action.actionId).Some? {
      var args := Resolve(slots, te.action.actionId).value.args;
      forall p: Param ensures FindArg(args, p.paramId).Some? <==> Declares(args, p.paramId) {
        DeclaresIff(args, p.paramId);
      }
    }
  }

  /** Only inserts of table entries can be undefined or call back; every other update is defined and quiet, and
      only a digest entry, whatever the update type, touches the digests. */
  lemma OtherUpdatesQuiet(slots: Slots, digests: seq<Digest>, u: Update)
    ensures WriteDefined(slots, u) <==>
            !(u.kind.Insert? && u.entity.TableEntity?) || InsertDefined(slots, u.entity.table)
    ensures !(u.kind.Insert? && u.entity.TableEntity?) ==> UpdateEffects(slots, u) == []
    ensures !u.entity.DigestEntity? ==> UpdateDigests(digests, u) == digests
  {
  }

  // ---- Batches

  lemma {:induction false} EffectsSnoc(slots: Slots, us: seq<Update>, u: Update)
    requires AllWritesDefined(slots, us) && WriteDefined(slots, u)
    ensures AllWritesDefined(slots, us + [u])
    ensures AllEffects(slots, us + [u]) == AllEffects(slots, us) + UpdateEffects(slots, u)
  {
    assert (us + [u])[..|us|] == us;
  }

  lemma {:induction false} EffectsCompose(slots: Slots, a: seq<Update>, b: seq<Update>)
    requires AllWritesDefined(slots, a) && AllWritesDefined(slots, b)
    ensures AllWritesDefined(slots, a + b)
    ensures AllEffects(slots, a + b) == AllEffects(slots, a) + AllEffects(slots, b)
    decreases |b|
  {
    if b == [] {
      assert a + b == a;
    } else {
      var n := |b| - 1;
      EffectsCompose(slots, a, b[..n]);
      assert WriteDefined(slots, b[n]);
      EffectsSnoc(slots, a + b[..n], b[n]);
      assert b == b[..n] + [b[n]];
      ConcatAssociative(a, b[..n], [b[n]]);
      ConcatAssociative(AllEffects(slots, a), AllEffects(slots, b[..n]), UpdateEffects(slots, b[n]));
    }
  }

  lemma {:induction false} DigestsCompose(digests: seq<Digest>, a: seq<Update>, b: seq<Update>)
    ensures AllDigests(digests, a + b) == AllDigests(AllDigests(digests, a), b)
    decreases |b|
  {
    if b == [] {
      assert a + b == a;
    } else {
      assert (a + b)[..|a + b| - 1] == a + b[..|b| - 1];
      DigestsCompose(digests, a, b[..|b| - 1]);
    }
  }

  lemma {:induction false} ConcatWritesDefined(slots: Slots, a: seq<Update>, b: seq<Update>)
    ensures AllWritesDefined(slots, a + b) <==> AllWritesDefined(slots, a) && AllWritesDefined(slots, b)
  {
    assert forall i :: 0 <= i < |a| ==> a[i] == (a + b)[i];
    assert forall i :: 0 <= i < |b| ==> b[i] == (a + b)[|a| + i];
  }

  /** Batches compose: writing `a + b` is writing `a` and then `b`, in state, effects and status, and
      the one is undefined exactly when the other is. */
  lemma {:induction false} BatchesCompose(d: Device, atomicity: Atomicity, a: seq<Update>, b: seq<Update>)
    ensures Write(d, atomicity, a + b) ==
            match Write(d, atomicity, a)
            case None => None
            case Some((d1, effects)) =>
              match Write(d1, atomicity, b)
              case None => None
              case Some((d2, more)) => Some((d2, effects + more))
    ensures Write(d, atomicity, a).Some? ==>
              WriteStatus(Write(d, atomicity, a).value.0, atomicity) == WriteStatus(d, atomicity)
  {
    ConcatWritesDefined(d.slots, a, b);
    var none: seq<Effect> := [];
    assert none + none == none;
    if WriteRuns(d, atomicity) && AllWritesDefined(d.slots, a + b) {
      EffectsCompose(d.slots, a, b);
      DigestsCompose(d.digests, a, b);
    }
  }

  function OkTableWrites(slots: Slots, us: seq<Update>): nat {
    if us == [] then 0 else
    var u := us[|us| - 1];
    OkTableWrites(slots, us[..|us| - 1])
    + if u.entity.TableEntity? && TableWriteStatus(slots, u.kind, u.entity.table).Ok? then 1 else 0
  }

  lemma {:induction false} UpdateCallsBack(slots: Slots, u: Update)
    requires WriteDefined(slots, u)
    ensures |UpdateEffects(slots, u)|
            == if u.entity.TableEntity? && TableWriteStatus(slots, u.kind, u.entity.table).Ok? then 1 else 0
    ensures forall e :: e in UpdateEffects(slots, u) ==> e.Callback?
  {
    if u.entity.TableEntity? { CallbackIffOk(slots, u.kind, u.entity.table); }
  }

  /** A batch calls back once per table write whose own status is OK, and does nothing else outside;
      failures of single updates never show in the status of the batch. */
  lemma {:induction false} BatchCallbacks(slots: Slots, us: seq<Update>)
    requires AllWritesDefined(slots, us)
    ensures |AllEffects(slots, us)| == OkTableWrites(slots, us) <= |us|
    ensures forall i :: 0 <= i < |AllEffects(slots, us)| ==> AllEffects(slots, us)[i].Callback?
  {
    if us != [] {
      var u := us[|us| - 1];
      BatchCallbacks(slots, us[..|us| - 1]);
      assert WriteDefined(slots, u);
      UpdateCallsBack(slots, u);
    }
  }

  // ---- Reads

  /** Reading an entity delivers entries: it is a counter, and its read is OK. */
  predicate Succeeds(slots: Slots, source: CounterSource, e: Entity) {
    e.CounterEntity? && CounterRead(slots, source, e.counter).Some? && CounterRead(slots, source, e.counter).value.0.Ok?
  }

  /** The entries a sequence of successful counter reads delivers. */
  function Delivered(slots: Slots, source: CounterSource, es: seq<Entity>): seq<CounterEntry>
    requires forall i :: 0 <= i < |es| ==> Succeeds(slots, source, es[i])
  {
    if es == [] then [] else
    assert Succeeds(slots, source, es[0]);
    CounterRead(slots, source, es[0].counter).value.1 + Delivered(slots, source, es[1..])
  }

  /** Reading an entity is undefined only for a counter whose read is. */
  predicate Breaks(slots: Slots, source: CounterSource, e: Entity) {
    e.CounterEntity? && CounterRead(slots, source, e.counter).None?
  }

  /** A response is the concatenation over the longest prefix of entities that succeed; the entity that fails
      adds nothing, and the ones behind it are not read.  Only that entity can make the read undefined. */
  lemma {:induction false} ReadLongestPrefix(slots: Slots, source: CounterSource, es: seq<Entity>) returns (k: nat)
    ensures k <= |es| && forall i :: 0 <= i < k ==> Succeeds(slots, source, es[i])
    ensures k < |es| ==> !Succeeds(slots, source, es[k])
    ensures ReadAll(slots, source, es) ==
            if k < |es| && Breaks(slots, source, es[k]) then None else Some(Delivered(slots, source, es[..k]))
    decreases |es|
  {
    if es == [] || !Succeeds(slots, source, es[0]) {
      k := 0;
    } else {
      var k' := ReadLongestPrefix(slots, source, es[1..]);
      k := k' + 1;
      assert es[..k][1..] == es[1..][..k'];
      forall i | 0 <= i < k ensures Succeeds(slots, source, es[i]) {
        if i > 0 { assert es[i] == es[1..][i - 1]; }
      }
    }
  }

  /** A counter read is refused exactly for a counter neither of whose lookups delivers a pointer with a size; it
      delivers nothing unless it is OK, and it is undefined for an id that does not resolve. */
  lemma CounterRefusedIff(slots: Slots, source: CounterSource, e: CounterEntry)
    ensures Resolve(slots, e.counterId).None? ==> CounterRead(slots, source, e) == None
    ensures CounterRead(slots, source, e).Some? && !CounterRead(slots, source, e).value.0.Ok? ==>
              CounterRead(slots, source, e).value.1 == []
    ensures CounterRead(slots, source, e) == Some((InvalidArgument, [])) <==>
            && Resolve(slots, e.counterId).Some?
            && forall bytes :: var ref := source(Resolve(slots, e.counterId).value.value, bytes);
                               ref.cells.None? || ref.size == -1
  {
    if Resolve(slots, e.counterId).Some? {
      var name := Resolve(slots, e.counterId).value.value;
      assert (forall bytes :: source(name, bytes).cells.None? || source(name, bytes).size == -1) <==>
             (source(name, true).cells.None? || source(name, true).size == -1)
             && (source(name, false).cells.None? || source(name, false).size == -1);
    }
  }

  /** A counter lookup that found `cells` and reported their number, or that found no counter of the kind,
      which leaves the size at -1. */
  predicate Holds(ref: CounterRef, cells: seq<uint32>) {
    ref == CounterRef(Some(cells), |cells|) || (cells == [] && ref == CounterRef(None, -1))
  }

  /** The value of a cell, and what the entry had before where there are no cells of the kind. */
  function CellOr(cells: seq<uint32>, i: int, before: int): int
    requires cells == [] || 0 <= i < |cells|
  {
    if cells == [] then before else cells[i]
  }

  predicate SameExtent(bytes: seq<uint32>, packets: seq<uint32>) {
    |bytes| == |packets| || bytes == [] || packets == []
  }

  lemma {:induction false} ReadUpToPointwise(byteRef: CounterRef, packetRef: CounterRef, id: uint32, n: nat)
    requires AllCellsDefined(byteRef, packetRef) && n <= Extent(byteRef, packetRef)
    ensures var r := ReadUpTo(byteRef, packetRef, id, n);
            && |r| == n
            && forall i :: 0 <= i < n ==> r[i] == ReadOne(byteRef, packetRef, i, CounterEntry(id, Some(i), 0, 0))
  {
    if n > 0 { ReadUpToPointwise(byteRef, packetRef, id, n - 1); }
  }

  /** A read without index is defined exactly when the byte and packet cells have one size or one of the
      kinds has none; otherwise it runs past the shorter ones. */
  lemma {:induction false} IndexlessReadDefinedIff(slots: Slots, source: CounterSource, e: CounterEntry,
                                                   bytes: seq<uint32>, packets: seq<uint32>)
    requires Resolve(slots, e.counterId).Some? && e.index.None?
    requires Holds(source(Resolve(slots, e.counterId).value.value, true), bytes)
    requires Holds(source(Resolve(slots, e.counterId).value.value, false), packets)
    ensures CounterRead(slots, source, e).Some? <==> SameExtent(bytes, packets)
  {
    var name := Resolve(slots, e.counterId).value.value;
    var byteRef, packetRef := source(name, true), source(name, false);
    if !SameExtent(bytes, packets) {
      var last := Extent(byteRef, packetRef) - 1;
      assert !CellDefined(byteRef, last) || !CellDefined(packetRef, last);
    }
  }

  /** It then lists every index in order with the values of that index, and fails only when there is no
      counter of either kind. */
  lemma {:induction false} IndexlessRead(slots: Slots, source: CounterSource, e: CounterEntry, bytes: seq<uint32>,
                                         packets: seq<uint32>)
    requires Resolve(slots, e.counterId).Some? && e.index.None? && SameExtent(bytes, packets)
    requires Holds(source(Resolve(slots, e.counterId).value.value, true), bytes)
    requires Holds(source(Resolve(slots, e.counterId).value.value, false), packets)
    ensures CounterRead(slots, source, e).Some?
    ensures var (status, entries) := CounterRead(slots, source, e).value;
            var name := Resolve(slots, e.counterId).value.value;
            && status == (if source(name, true).cells.None? && source(name, false).cells.None?
                          then InvalidArgument else Ok)
            && |entries| == (if bytes == [] then |packets| else |bytes|)
            && forall i :: 0 <= i < |entries| ==>
                 entries[i] == CounterEntry(e.counterId, Some(i), CellOr(bytes, i, 0), CellOr(packets, i, 0))
  {
    IndexlessReadDefinedIff(slots, source, e, bytes, packets);
    var name := Resolve(slots, e.counterId).value.value;
    var n := if bytes == [] then |packets| else |bytes|;
    if n > 0 {
      assert Extent(source(name, true), source(name, false)) == n;
      ReadUpToPointwise(source(name, true), source(name, false), e.counterId, n);
    }
  }

  /** A read with an index uses the index modulo 2^32: it is defined exactly when that is a cell of every kind
      there is, below 2^31, and then carries that cell's values whatever the full index was.  A negative index
      is answered UNKNOWN, but only for a counter that exists. */
  lemma {:induction false} IndexedRead(slots: Slots, source: CounterSource, e: CounterEntry, bytes: seq<uint32>,
                                       packets: seq<uint32>)
    requires Resolve(slots, e.counterId).Some? && e.index.Some?
    requires Holds(source(Resolve(slots, e.counterId).value.value, true), bytes)
    requires Holds(source(Resolve(slots, e.counterId).value.value, false), packets)
    ensures var name := Resolve(slots, e.counterId).value.value;
            var cell := e.index.value % TWO_TO_THE_32;
            CounterRead(slots, source, e) ==
            if source(name, true).cells.None? && source(name, false).cells.None? then Some((InvalidArgument, []))
            else if e.index.value < 0 then Some((Unknown, []))
            else if IsCell(bytes, cell) && IsCell(packets, cell)
            then Some((Ok, [e.(byteCount := CellOr(bytes, cell, e.byteCount),
                               packetCount := CellOr(packets, cell, e.packetCount))]))
            else None
  {
  }

  /** There are no cells of the kind, or the number is one a 32-bit int can hold and a cell. */
  predicate IsCell(cells: seq<uint32>, cell: int) {
    cells == [] || (0 <= cell < |cells| && cell < TWO_TO_THE_32 / 2)
  }

  // ---- Stream messages

  predicate Accepted(d: Device, m: StreamMessage) {
    m.Arbitration? ==> m.deviceId == d.deviceId
  }

  /** The replies to messages that are all accepted: one per arbitration, echoing the election id. */
  function Replies(stream: nat, ms: seq<StreamMessage>): seq<Effect> {
    if ms == [] then [] else
    (match ms[0]
     case OtherMessage => []
     case Arbitration(deviceId, high, low) => [StreamWrite(stream, ArbitrationReply(deviceId, high, low))])
    + Replies(stream, ms[1..])
  }

  /** A stream is served up to its first arbitration for another device, which ends it; every arbitration
      before that is answered, whatever its election id. */
  lemma {:induction false} StreamServed(d: Device, stream: nat, ms: seq<StreamMessage>) returns (k: nat)
    ensures k <= |ms| && forall i :: 0 <= i < k ==> Accepted(d, ms[i])
    ensures k < |ms| ==> !Accepted(d, ms[k])
    ensures StreamChannel(d, stream, ms) ==
            (if exists i :: 0 <= i < k && ms[i].Arbitration? then d.(stream := Some(stream)) else d,
             Replies(stream, ms[..k]),
             if k == |ms| then Ok else FailedPrecondition)
    decreases |ms|
  {
    if ms == [] || !Accepted(d, ms[0]) {
      k := 0;
    } else {
      var d1 := OnStream(d, stream, ms[0]).0;
      var k' := StreamServed(d1, stream, ms[1..]);
      k := k' + 1;
      assert ms[..k][1..] == ms[1..][..k'];
      assert forall i :: 0 <= i < k' ==> ms[i + 1] == ms[1..][i];
      if i :| 0 <= i < k' && ms[1..][i].Arbitration? { assert ms[i + 1].Arbitration?; }
      if i :| 1 <= i < k && ms[i].Arbitration? { assert ms[1..][i - 1].Arbitration?; }
    }
  }

  /** There is no single master: two streams that arbitrate for the same device are both answered as
      master, and the later one takes over even with the smaller election id. */
  lemma TwoMasters(d: Device, first: nat, second: nat, high: uint64, low: uint64, high': uint64, low': uint64)
    ensures var (d1, e1, s1) := OnStream(d, first, Arbitration(d.deviceId, high, low));
            var (d2, e2, s2) := OnStream(d1, second, Arbitration(d.deviceId, high', low'));
            && s1 == Ok && s2 == Ok
            && e1 == [StreamWrite(first, ArbitrationReply(d.deviceId, high, low))]
            && e2 == [StreamWrite(second, ArbitrationReply(d.deviceId, high', low'))]
            && d2.stream == Some(second)
  {
  }
}
