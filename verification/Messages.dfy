/** The P4Runtime messages the agent handles and the control messages it sends to the switch. */
module Messages {
  import opened Basics
  import opened IdMapSpec

  // ---- P4Info and pipeline configurations

  datatype TableInfo = TableInfo(id: uint32, name: string, matchFields: seq<Argument>)
  datatype ActionInfo = ActionInfo(id: uint32, name: string, params: seq<Argument>)
  datatype CounterInfo = CounterInfo(id: uint32, name: string)
  datatype DigestInfo = DigestInfo(id: uint32, name: string)
  datatype P4Info = P4Info(
    tables: seq<TableInfo>,
    actions: seq<ActionInfo>,
    counters: seq<CounterInfo>,
    digests: seq<DigestInfo>)

  const NO_P4INFO := P4Info([], [], [], [])

  datatype PipelineConfig = PipelineConfig(p4info: P4Info, deviceConfig: bytes, cookie: uint64)

  datatype SetAction =
    | SetUnspecified
    | Verify
    | VerifyAndSave
    | VerifyAndCommit
    | Commit
    | ReconcileAndCommit

  datatype ResponseType = All | CookieOnly | P4InfoAndCookie | DeviceConfigAndCookie | OtherResponse

  /** The config of a GetForwardingPipelineConfig response; an absent field is None or empty. */
  datatype ConfigReply = ConfigReply(p4info: Option<P4Info>, deviceConfig: bytes, cookie: Option<uint64>)

  const NO_CONFIG := ConfigReply(None, [], None)

  // ---- Writes

  datatype MatchKind =
    | Exact(value: bytes)
    | Lpm(value: bytes, prefixLen: int)
    | Ternary(value: bytes, mask: bytes)
    | OtherKind
  datatype FieldMatch = FieldMatch(fieldId: uint32, kind: MatchKind)
  datatype Param = Param(paramId: uint32, value: bytes)
  datatype TableAction = DirectAction(actionId: uint32, params: seq<Param>) | OtherAction
  datatype TableEntry = TableEntry(
    tableId: uint32,
    matches: seq<FieldMatch>,
    action: TableAction,
    isDefaultAction: bool)

  datatype CounterEntry = CounterEntry(counterId: uint32, index: Option<int>, byteCount: int, packetCount: int)

  datatype Entity =
    | TableEntity(table: TableEntry)
    | CounterEntity(counter: CounterEntry)
    | DirectCounterEntity
    | DigestEntity(digestId: uint32)
    | OtherEntity

  datatype UpdateType = UpdateUnspecified | Insert | Modify | Delete | OtherUpdate
  datatype Update = Update(kind: UpdateType, entity: Entity)
  datatype Atomicity = ContinueOnError | OtherAtomicity

  datatype Status = Ok | Unknown | InvalidArgument | Unimplemented | FailedPrecondition

  // ---- Messages to the switch

  datatype MatchRule =
    | ExactRule(name: string, length: uint64, bitmap: bytes)
    | LpmRule(name: string, prefixLength: int, bitmap: bytes)
    | TernaryRule(name: string, length: uint64, bitmap: bytes, mask: bytes)
  datatype ActionParam = ActionParam(name: string, length: uint64, bitmap: bytes)
  datatype CtrlType = AddTableEntry | SetDefaultAction | CtrlInitialized
  datatype CtrlMsg = CtrlMsg(
    kind: CtrlType,
    tableName: string,
    matches: seq<MatchRule>,
    actionName: string,
    params: seq<ActionParam>)

  // ---- The stream channel

  datatype StreamMessage = Arbitration(deviceId: uint64, high: uint64, low: uint64) | OtherMessage
  datatype StreamReply =
    | ArbitrationReply(deviceId: uint64, high: uint64, low: uint64)
    | DigestList(digestId: uint64)

  /** What the agent does to the outside: calls of the switch's callback and writes to a stream. */
  datatype Effect = Callback(msg: CtrlMsg) | StreamWrite(stream: nat, reply: StreamReply)

  // ---- Counter memory

  /** The answer of the switch's counter lookup: a pointer, null or to a block of cells, and the size
      it left in the caller's variable, which started at -1. */
  datatype CounterRef = CounterRef(cells: Option<seq<uint32>>, size: int)

  /** A counter lookup by name, for bytes (true) or packets (false). */
  type CounterSource = (string, bool) -> CounterRef
}
