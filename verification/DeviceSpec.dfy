/**
 The agent as a state machine: server/device_mgr.c behind the RPC handlers of server/pi_server.cc.

 Each operation is a function from a state to its outcome.  `None` stands for undefined behaviour of
 the original: a null element or argument that is dereferenced, an eleventh argument, a name that
 overflows its cell, a counter cell out of range, a digest sent with no stream.
 */
module DeviceSpec {
  import opened Basics
  import opened IdMapSpec
  import opened Messages
  import opened DigestMap

  /** Names are copied, with a terminating zero, into cells of this size. */
  const NAME_CELL: nat := 50

  datatype Device = Device(
    deviceId: uint64,
    slots: Slots,
    hasP4Info: bool,
    p4info: P4Info,
    cookie: Option<uint64>,
    saved: bytes,
    digests: seq<Digest>,
    stream: Option<nat>)

  function Initial(deviceId: uint64): Device {
    Device(deviceId, Empty(), false, NO_P4INFO, None, [], [], None)
  }

  // ---- Pushing a pipeline configuration

  predicate ArgsFit(args: seq<Argument>) {
    && |args| <= MAX_ARGS
    && forall i :: 0 <= i < |args| ==> |args[i].name| < NAME_CELL
  }

  function TableBinding(t: TableInfo): Entry { Entry(t.id, t.name, t.matchFields) }
  function ActionBinding(a: ActionInfo): Entry { Entry(a.id, a.name, a.params) }
  function CounterBinding(c: CounterInfo): Entry { Entry(c.id, c.name, []) }

  /** The first table that finds no slot ends the loop over the tables. */
  function LoadTables(slots: Slots, ts: seq<TableInfo>): Option<Slots>
    decreases |ts|
  {
    if ts == [] || FreeSlot(slots, ts[0].id) == MAX_MAP_SIZE then Some(slots)
    else if !ArgsFit(ts[0].matchFields) then None
    else LoadTables(Bind(slots, TableBinding(ts[0])), ts[1..])
  }

  /** An action that finds no slot is skipped when it has no parameters and crashes otherwise. */
  function LoadActions(slots: Slots, xs: seq<ActionInfo>): Option<Slots>
    decreases |xs|
  {
    if xs == [] then Some(slots)
    else if FreeSlot(slots, xs[0].id) == MAX_MAP_SIZE && xs[0].params != [] then None
    else if !ArgsFit(xs[0].params) then None
    else LoadActions(Bind(slots, ActionBinding(xs[0])), xs[1..])
  }

  function LoadCounters(slots: Slots, cs: seq<CounterInfo>): Slots
    decreases |cs|
  {
    if cs == [] then slots else LoadCounters(Bind(slots, CounterBinding(cs[0])), cs[1..])
  }

  function LoadP4Info(slots: Slots, info: P4Info): Option<Slots> {
    match LoadTables(slots, info.tables)
    case None => None
    case Some(s1) =>
      match LoadActions(s1, info.actions)
      case None => None
      case Some(s2) => Some(LoadCounters(s2, info.counters))
  }

  /** COMMIT alone is ignored; VERIFY has the full effect. */
  predicate Accepts(action: SetAction) {
    action.Verify? || action.VerifyAndSave? || action.VerifyAndCommit? || action.ReconcileAndCommit?
  }

  /** `tmpfileOk` says whether the temporary file for the device configuration could be created. */
  function SetConfig(d: Device, deviceId: uint64, action: SetAction, config: PipelineConfig, tmpfileOk: bool)
    : Option<Device>
  {
    var d := d.(deviceId := deviceId);
    if !Accepts(action) then Some(d)
    else
      match LoadP4Info(d.slots, config.p4info)
      case None => None
      case Some(slots) =>
        Some(d.(slots := slots,
                hasP4Info := true,
                p4info := config.p4info,
                cookie := Some(config.cookie),
                saved := if tmpfileOk then config.deviceConfig else [],
                digests := FromDigests(config.p4info.digests)))
  }

  function GetConfig(d: Device, response: ResponseType): (Status, ConfigReply) {
    if !d.hasP4Info then (FailedPrecondition, NO_CONFIG) else
    match response
    case All => (Ok, ConfigReply(Some(d.p4info), d.saved, d.cookie))
    case CookieOnly => (Ok, ConfigReply(None, [], d.cookie))
    case P4InfoAndCookie => (Ok, ConfigReply(Some(d.p4info), [], d.cookie))
    case DeviceConfigAndCookie => (Ok, ConfigReply(None, d.saved, d.cookie))
    case OtherResponse => (Ok, NO_CONFIG)
  }

  // ---- Writing

  /** The match kinds the agent implements look up their field; the others do not. */
  predicate MatchesDefined(table: Entry, ms: seq<FieldMatch>) {
    forall i :: 0 <= i < |ms| && !ms[i].kind.OtherKind? ==> FindArg(table.args, ms[i].fieldId).Some?
  }

  function GenRule(arg: Argument, kind: MatchKind): MatchRule
    requires !kind.OtherKind?
  {
    match kind
    case Exact(value) => ExactRule(arg.name, arg.bitwidth, value)
    case Lpm(value, prefixLen) => LpmRule(arg.name, prefixLen, value)
    case Ternary(value, mask) => TernaryRule(arg.name, arg.bitwidth, value, mask)
  }

  function GenRules(table: Entry, ms: seq<FieldMatch>): seq<MatchRule>
    requires MatchesDefined(table, ms)
  {
    if ms == [] then [] else
    var before, m := ms[..|ms| - 1], ms[|ms| - 1];
    if m.kind.OtherKind? then GenRules(table, before)
    else GenRules(table, before) + [GenRule(FindArg(table.args, m.fieldId).value, m.kind)]
  }

  /** The status after the loop over the matches: exact and LPM matches reset it. */
  function MatchStatus(ms: seq<FieldMatch>): (s: Status)
    ensures s.Ok? || s.Unimplemented?
  {
    if ms == [] then Ok else
    match ms[|ms| - 1].kind
    case Exact(_) => Ok
    case Lpm(_, _) => Ok
    case Ternary(_, _) => MatchStatus(ms[..|ms| - 1])
    case OtherKind => Unimplemented
  }

  predicate ParamsDefined(action: Entry, ps: seq<Param>) {
    forall i :: 0 <= i < |ps| ==> FindArg(action.args, ps[i].paramId).Some?
  }

  /** A two-byte parameter called "type" is byte-swapped on the little-endian host. */
  function ParamBitmap(name: string, value: bytes): bytes {
    if name == "type" && |value| == 2 then [value[1], value[0]] else value
  }

  function GenParam(arg: Argument, p: Param): ActionParam {
    ActionParam(arg.name, arg.bitwidth, ParamBitmap(arg.name, p.value))
  }

  function GenParams(action: Entry, ps: seq<Param>): seq<ActionParam>
    requires ParamsDefined(action, ps)
  {
    if ps == [] then [] else
    var before, p := ps[..|ps| - 1], ps[|ps| - 1];
    GenParams(action, before) + [GenParam(FindArg(action.args, p.paramId).value, p)]
  }

  predicate InsertDefined(slots: Slots, te: TableEntry) {
    && Resolve(slots, te.tableId).Some?
    && MatchesDefined(Resolve(slots, te.tableId).value, te.matches)
    && (te.action.DirectAction? && Resolve(slots, te.action.actionId).Some? ==>
          ParamsDefined(Resolve(slots, te.action.actionId).value, te.action.params))
  }

  function InsertStatus(slots: Slots, te: TableEntry): Status {
    if te.action.OtherAction? then Unimplemented
    else if Resolve(slots, te.action.actionId).None? then InvalidArgument
    else MatchStatus(te.matches)
  }

  function InsertMessage(slots: Slots, te: TableEntry): CtrlMsg
    requires InsertDefined(slots, te) && InsertStatus(slots, te).Ok?
  {
    var table := Resolve(slots, te.tableId).value;
    var action := Resolve(slots, te.action.actionId).value;
    CtrlMsg(if te.isDefaultAction then SetDefaultAction else AddTableEntry,
            table.value,
            GenRules(table, te.matches),
            action.value,
            GenParams(action, te.action.params))
  }

  function InsertEffects(slots: Slots, te: TableEntry): seq<Effect>
    requires InsertDefined(slots, te)
  {
    if InsertStatus(slots, te).Ok? then [Callback(InsertMessage(slots, te))] else []
  }

  predicate WriteDefined(slots: Slots, u: Update) {
    u.kind.Insert? && u.entity.TableEntity? ==> InsertDefined(slots, u.entity.table)
  }

  function TableWriteStatus(slots: Slots, kind: UpdateType, te: TableEntry): Status {
    match kind
    case UpdateUnspecified => InvalidArgument
    case Insert => InsertStatus(slots, te)
    case Modify => Unimplemented
    case Delete => Unimplemented
    case OtherUpdate => Unknown
  }

  function UpdateEffects(slots: Slots, u: Update): seq<Effect>
    requires WriteDefined(slots, u)
  {
    if u.entity.TableEntity? && u.kind.Insert? then InsertEffects(slots, u.entity.table) else []
  }

  /** The type of the update plays no role for a digest entry. */
  function UpdateDigests(digests: seq<Digest>, u: Update): seq<Digest> {
    if u.entity.DigestEntity? then Activate(digests, u.entity.digestId) else digests
  }

  predicate AllWritesDefined(slots: Slots, us: seq<Update>) {
    forall i :: 0 <= i < |us| ==> WriteDefined(slots, us[i])
  }

  function AllEffects(slots: Slots, us: seq<Update>): seq<Effect>
    requires AllWritesDefined(slots, us)
  {
    if us == [] then [] else
    AllEffects(slots, us[..|us| - 1]) + UpdateEffects(slots, us[|us| - 1])
  }

  function AllDigests(digests: seq<Digest>, us: seq<Update>): seq<Digest> {
    if us == [] then digests else
    UpdateDigests(AllDigests(digests, us[..|us| - 1]), us[|us| - 1])
  }

  /** Whether the handler gets as far as the loop over the updates. */
  predicate WriteRuns(d: Device, atomicity: Atomicity) {
    d.hasP4Info && atomicity.ContinueOnError?
  }

  function WriteStatus(d: Device, atomicity: Atomicity): Status {
    if !d.hasP4Info then FailedPrecondition
    else if !atomicity.ContinueOnError? then Unimplemented
    else Ok
  }

  function Write(d: Device, atomicity: Atomicity, us: seq<Update>): Option<(Device, seq<Effect>)> {
    if !WriteRuns(d, atomicity) then Some((d, []))
    else if !AllWritesDefined(d.slots, us) then None
    else Some((d.(digests := AllDigests(d.digests, us)), AllEffects(d.slots, us)))
  }

  // ---- Reading counters

  /** The conversion of a size_t index to a 32-bit int parameter. */
  function ToInt32(x: int): int {
    var low := x % TWO_TO_THE_32;
    if low < TWO_TO_THE_32 / 2 then low else low - TWO_TO_THE_32
  }

  /** Cells are consulted when the pointer is not null and the size, taken as unsigned, is not zero. */
  predicate Consulted(ref: CounterRef) {
    ref.cells.Some? && ref.size != 0
  }

  predicate CellDefined(ref: CounterRef, index: int) {
    Consulted(ref) ==> 0 <= index < |ref.cells.value|
  }

  function ReadOne(byteRef: CounterRef, packetRef: CounterRef, index: int, e: CounterEntry): CounterEntry
    requires CellDefined(byteRef, index) && CellDefined(packetRef, index)
  {
    e.(byteCount := if Consulted(byteRef) then byteRef.cells.value[index] else e.byteCount,
       packetCount := if Consulted(packetRef) then packetRef.cells.value[index] else e.packetCount)
  }

  predicate NotFound(ref: CounterRef) {
    ref.cells.None? || ref.size == -1
  }

  function Extent(byteRef: CounterRef, packetRef: CounterRef): int {
    if byteRef.size < packetRef.size then packetRef.size else byteRef.size
  }

  predicate AllCellsDefined(byteRef: CounterRef, packetRef: CounterRef) {
    forall i :: 0 <= i < Extent(byteRef, packetRef) ==> CellDefined(byteRef, i) && CellDefined(packetRef, i)
  }

  /** One entry per index below `n`. */
  function ReadUpTo(byteRef: CounterRef, packetRef: CounterRef, id: uint32, n: int): (r: seq<CounterEntry>)
    requires AllCellsDefined(byteRef, packetRef) && n <= Extent(byteRef, packetRef)
    decreases n
  {
    if n <= 0 then [] else
    ReadUpTo(byteRef, packetRef, id, n - 1)
    + [ReadOne(byteRef, packetRef, n - 1, CounterEntry(id, Some(n - 1), 0, 0))]
  }

  /** The status of one counter read and the entries it adds to the response. */
  function CounterRead(slots: Slots, source: CounterSource, e: CounterEntry)
    : Option<(Status, seq<CounterEntry>)>
  {
    match Resolve(slots, e.counterId)
    case None => None
    case Some(elem) =>
      var byteRef, packetRef := source(elem.value, true), source(elem.value, false);
      if NotFound(byteRef) && NotFound(packetRef) then Some((InvalidArgument, []))
      else
        match e.index
        case Some(index) =>
          if index < 0 then Some((Unknown, []))
          else if !CellDefined(byteRef, ToInt32(index)) || !CellDefined(packetRef, ToInt32(index)) then None
          else Some((Ok, [ReadOne(byteRef, packetRef, ToInt32(index), e)]))
        case None =>
          if !AllCellsDefined(byteRef, packetRef) then None
          else Some((Ok, ReadUpTo(byteRef, packetRef, e.counterId, Extent(byteRef, packetRef))))
  }

  function ReadEntity(slots: Slots, source: CounterSource, e: Entity): Option<(Status, seq<CounterEntry>)> {
    if e.CounterEntity? then CounterRead(slots, source, e.counter) else Some((Unknown, []))
  }

  /** The loop over the entities stops after the first one that fails. */
  function ReadAll(slots: Slots, source: CounterSource, es: seq<Entity>): Option<seq<CounterEntry>> {
    if es == [] then Some([]) else
    match ReadEntity(slots, source, es[0])
    case None => None
    case Some((status, entries)) =>
      if !status.Ok? then Some(entries)
      else
        match ReadAll(slots, source, es[1..])
        case None => None
        case Some(rest) => Some(entries + rest)
  }

  /** The status of a read and its response, if one is written. */
  function Read(d: Device, source: CounterSource, es: seq<Entity>): Option<(Status, Option<seq<CounterEntry>>)> {
    if !d.hasP4Info then Some((FailedPrecondition, None))
    else
      match ReadAll(d.slots, source, es)
      case None => None
      case Some(entries) => Some((Ok, Some(entries)))
  }

  // ---- The stream channel and digests

  /** An arbitration message with the right device id makes its stream the current one and is always
      answered as master; another device id ends the stream. */
  function OnStream(d: Device, stream: nat, m: StreamMessage): (Device, seq<Effect>, Status) {
    match m
    case OtherMessage => (d, [], Ok)
    case Arbitration(deviceId, high, low) =>
      if deviceId != d.deviceId then (d, [], FailedPrecondition)
      else (d.(stream := Some(stream)), [StreamWrite(stream, ArbitrationReply(deviceId, high, low))], Ok)
  }

  /** All messages of one stream, until one of them ends it. */
  function StreamChannel(d: Device, stream: nat, ms: seq<StreamMessage>): (Device, seq<Effect>, Status)
    decreases |ms|
  {
    if ms == [] then (d, [], Ok) else
    var (d1, effects, status) := OnStream(d, stream, ms[0]);
    if !status.Ok? then (d1, effects, status)
    else
      var (d2, more, last) := StreamChannel(d1, stream, ms[1..]);
      (d2, effects + more, last)
  }

  /** A digest goes out only if the map has an active entry under its name. */
  function SendDigest(d: Device, name: string): Option<seq<Effect>> {
    match Find(d.digests, name)
    case None => Some([])
    case Some(digest) =>
      if !digest.active then Some([])
      else if d.stream.None? then None
      else Some([StreamWrite(d.stream.value, DigestList(digest.id))])
  }
}
