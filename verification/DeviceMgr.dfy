/** The agent as an object updated in place: the device manager and the RPC handlers in front of it. */
module DeviceMgr {
  import opened Basics
  import opened IdMapSpec
  import opened IdMap
  import opened Messages
  import opened DigestMap
  import opened ConfigFile
  import Spec = DeviceSpec

  /** Adding an element and then filling in its arguments binds it with those arguments. */
  lemma FilledIsBound(slots: Slots, id: uint64, name: string, args: seq<Argument>)
    ensures var f := FreeSlot(slots, id);
            f < MAX_MAP_SIZE ==>
              var added := Bind(slots, Entry(id, name, []));
              && added[f].Some?
              && added[f := Some(added[f].value.(args := args))] == Bind(slots, Entry(id, name, args))
  {
  }

  class DeviceMgr {
    var deviceId: uint64
    const idMap: IdMap
    var hasP4Info: bool
    var p4info: P4Info
    var digests: seq<Digest>
    var stream: Option<nat>
    const savedConfig: ConfigFile
    var hasConfigCookie: bool
    var configCookie: uint64
    ghost var trace: seq<Effect>  // calls of the callback and writes to streams, in order

    ghost predicate Valid()
      reads idMap, idMap.Repr, savedConfig, savedConfig.fp
    {
      && idMap.Valid() && savedConfig.Valid()
      && this !in idMap.Repr && savedConfig !in idMap.Repr
      && (savedConfig.fp != null ==> savedConfig.fp !in idMap.Repr)
    }

    ghost function Repr(): set<object>
      reads idMap, savedConfig
    {
      {this, savedConfig} + idMap.Repr + (if savedConfig.fp != null then {savedConfig.fp} else {})
    }

    /** The state of the specification this object stands for. */
    ghost function View(): Spec.Device
      reads `deviceId, `hasP4Info, `p4info, `digests, `stream, `hasConfigCookie, `configCookie
      reads idMap, savedConfig, savedConfig.fp
    {
      Spec.Device(deviceId, idMap.slots, hasP4Info, p4info,
                  if hasConfigCookie then Some(configCookie) else None,
                  savedConfig.Saved(), digests, stream)
    }

    constructor (deviceId: uint64)
      ensures Valid() && fresh(Repr())
      ensures View() == Spec.Initial(deviceId) && trace == []
    {
      this.deviceId := deviceId;
      idMap := new IdMap();
      hasP4Info, p4info := false, NO_P4INFO;
      digests, stream := [], None;
      savedConfig := new ConfigFile();
      hasConfigCookie, configCookie := false, 0;
      trace := [];
    }

    // ---- Pushing a pipeline configuration

    /** Appends `args` to the element in slot `f`. */
    method PushArgs(e: Element, args: seq<Argument>, ghost f: nat)
      requires Valid() && f < MAX_MAP_SIZE && idMap.data[f] == e
      requires idMap.slots[f].value.args == [] && |args| <= MAX_ARGS
      modifies idMap.Repr
      ensures Valid() && idMap.Repr == old(idMap.Repr)
      ensures idMap.slots == old(idMap.slots)[f := Some(old(idMap.slots)[f].value.(args := args))]
    {
      ghost var elem := idMap.slots[f].value;
      ghost var before := idMap.slots;
      for j := 0 to |args|
        invariant Valid() && idMap.Repr == old(idMap.Repr) && idMap.data[f] == e
        invariant idMap.slots == before[f := Some(elem.(args := args[..j]))]
      {
        idMap.PushArg(e, args[j], f);
        assert args[..j + 1] == args[..j] + [args[j]];
      }
      assert args[..|args|] == args;
    }

    /** Adds an element and fills in its arguments, if it found a slot. */
    method AddFilled(id: uint64, name: string, args: seq<Argument>) returns (found: bool)
      requires Valid() && (FreeSlot(idMap.slots, id) < MAX_MAP_SIZE ==> |args| <= MAX_ARGS)
      modifies idMap.Repr
      ensures Valid() && fresh(idMap.Repr - old(idMap.Repr))
      ensures found <==> FreeSlot(old(idMap.slots), id) < MAX_MAP_SIZE
      ensures idMap.slots == Bind(old(idMap.slots), Entry(id, name, args))
    {
      FilledIsBound(idMap.slots, id, name, args);
      var elem, f := idMap.AddElement(id, name);
      found := elem != null;
      if found { PushArgs(elem, args, f); }
    }

    method AddTables(ts: seq<TableInfo>)
      requires Valid() && Spec.LoadTables(idMap.slots, ts).Some?
      modifies idMap.Repr
      ensures Valid() && fresh(idMap.Repr - old(idMap.Repr))
      ensures Spec.LoadTables(old(idMap.slots), ts) == Some(idMap.slots)
    {
      var i := 0;
      while i < |ts|
        invariant i <= |ts| && Valid() && fresh(idMap.Repr - old(idMap.Repr))
        invariant Spec.LoadTables(idMap.slots, ts[i..]) == Spec.LoadTables(old(idMap.slots), ts)
      {
        assert ts[i..][1..] == ts[i + 1..];
        var found := AddFilled(ts[i].id, ts[i].name, ts[i].matchFields);
        if !found { break; }
        i := i + 1;
      }
    }

    method AddActions(xs: seq<ActionInfo>)
      requires Valid() && Spec.LoadActions(idMap.slots, xs).Some?
      modifies idMap.Repr
      ensures Valid() && fresh(idMap.Repr - old(idMap.Repr))
      ensures Spec.LoadActions(old(idMap.slots), xs) == Some(idMap.slots)
    {
      var i := 0;
      while i < |xs|
        invariant i <= |xs| && Valid() && fresh(idMap.Repr - old(idMap.Repr))
        invariant Spec.LoadActions(idMap.slots, xs[i..]) == Spec.LoadActions(old(idMap.slots), xs)
      {
        assert xs[i..][1..] == xs[i + 1..];
        var _ := AddFilled(xs[i].id, xs[i].name, xs[i].params);
        i := i + 1;
      }
    }

    method AddCounters(cs: seq<CounterInfo>)
      requires Valid()
      modifies idMap.Repr
      ensures Valid() && fresh(idMap.Repr - old(idMap.Repr))
      ensures idMap.slots == Spec.LoadCounters(old(idMap.slots), cs)
    {
      var i := 0;
      while i < |cs|
        invariant i <= |cs| && Valid() && fresh(idMap.Repr - old(idMap.Repr))
        invariant Spec.LoadCounters(idMap.slots, cs[i..]) == Spec.LoadCounters(old(idMap.slots), cs)
      {
        assert cs[i..][1..] == cs[i + 1..];
        var _, _ := idMap.AddElement(cs[i].id, cs[i].name);
        i := i + 1;
      }
    }

    method AddDigests(ds: seq<DigestInfo>)
      requires Valid()
      modifies this`digests
      ensures Valid() && digests == FromDigests(ds)
    {
      digests := [];
      for i := 0 to |ds|
        invariant Valid() && digests == FromDigests(ds[..i])
      {
        assert ds[..i + 1][..i] == ds[..i];
        digests := Put(digests, Digest(ds[i].name, ds[i].id, false));
      }
      assert ds[..|ds|] == ds;
    }

    method AddP4Info(info: P4Info)
      requires Valid() && Spec.LoadP4Info(idMap.slots, info).Some?
      modifies idMap.Repr, this`digests
      ensures Valid() && fresh(idMap.Repr - old(idMap.Repr))
      ensures Spec.LoadP4Info(old(idMap.slots), info) == Some(idMap.slots)
      ensures digests == FromDigests(info.digests)
    {
      AddTables(info.tables);
      AddActions(info.actions);
      AddCounters(info.counters);
      AddDigests(info.digests);
    }

    /** Keeps the P4Info, the cookie and the device configuration for later gets. */
    method Remember(config: PipelineConfig, tmpfileOk: bool)
      requires Valid()
      modifies `p4info, `hasP4Info, `hasConfigCookie, `configCookie, savedConfig
      ensures Valid() && (savedConfig.fp == null || fresh(savedConfig.fp))
      ensures hasP4Info && p4info == config.p4info && hasConfigCookie && configCookie == config.cookie
      ensures savedConfig.Saved() == if tmpfileOk then config.deviceConfig else []
    {
      p4info := config.p4info;
      hasP4Info := true;
      configCookie := config.cookie;
      savedConfig.ChangeConfig(config.deviceConfig, tmpfileOk);
      hasConfigCookie := true;
    }

    method SetPipelineConfig(deviceId: uint64, action: SetAction, config: PipelineConfig, tmpfileOk: bool)
      requires Valid() && Spec.SetConfig(View(), deviceId, action, config, tmpfileOk).Some?
      modifies Repr()
      ensures Valid() && fresh(Repr() - old(Repr()))
      ensures Spec.SetConfig(old(View()), deviceId, action, config, tmpfileOk) == Some(View())
      ensures trace == old(trace)
    {
      this.deviceId := deviceId;
      if action == Verify || action == VerifyAndSave || action == VerifyAndCommit || action == ReconcileAndCommit {
        Remember(config, tmpfileOk);
        AddP4Info(p4info);
      }
    }

    method GetPipelineConfig(response: ResponseType) returns (status: Status, config: ConfigReply)
      requires Valid()
      modifies Repr()
      ensures Valid() && Repr() == old(Repr()) && View() == old(View()) && trace == old(trace)
      ensures (status, config) == Spec.GetConfig(View(), response)
    {
      config := NO_CONFIG;
      if !hasP4Info { return FailedPrecondition, config; }
      match response {
        case All =>
          config := config.(p4info := Some(p4info));
          var saved := savedConfig.ReadConfig(config.deviceConfig);
          assert saved == savedConfig.Saved();
          config := config.(deviceConfig := saved);
        case CookieOnly =>
        case P4InfoAndCookie =>
          config := config.(p4info := Some(p4info));
        case DeviceConfigAndCookie =>
          var saved := savedConfig.ReadConfig(config.deviceConfig);
          assert saved == savedConfig.Saved();
          config := config.(deviceConfig := saved);
        case OtherResponse =>
          return Ok, config;
      }
      if hasConfigCookie { config := config.(cookie := Some(configCookie)); }
      return Ok, config;
    }

    // ---- Writing

    /** The rules of the matches and the status the loop over them ends with. */
    method MatchRules(elem: Element, ms: seq<FieldMatch>) returns (rules: seq<MatchRule>, status: Status)
      requires elem.Valid() && Spec.MatchesDefined(elem.View(), ms)
      ensures rules == Spec.GenRules(elem.View(), ms)
      ensures status == Spec.MatchStatus(ms)
    {
      rules, status := [], Ok;
      for i := 0 to |ms|
        invariant Spec.MatchesDefined(elem.View(), ms[..i])
        invariant rules == Spec.GenRules(elem.View(), ms[..i])
        invariant status == Spec.MatchStatus(ms[..i])
      {
        assert ms[..i + 1][..i] == ms[..i];
        var arg := elem.GetArgument(ms[i].fieldId);
        match ms[i].kind {
          case Exact(value) =>
            rules := rules + [ExactRule(arg.value.name, arg.value.bitwidth, value)];
            status := Ok;
          case Lpm(value, prefixLen) =>
            rules := rules + [LpmRule(arg.value.name, prefixLen, value)];
            status := Ok;
          case Ternary(value, mask) =>
            rules := rules + [TernaryRule(arg.value.name, arg.value.bitwidth, value, mask)];
          case OtherKind =>
            status := Unimplemented;
        }
      }
      assert ms[..|ms|] == ms;
    }

    /** Everything `table_insert` does before the callback: the status and the control message. */
    method BuildMessage(te: TableEntry) returns (status: Status, msg: CtrlMsg)
      requires Valid() && Spec.InsertDefined(idMap.slots, te)
      ensures status == Spec.InsertStatus(idMap.slots, te)
      ensures status == Ok ==> msg == Spec.InsertMessage(idMap.slots, te)
    {
      var elem := idMap.GetElement(te.tableId);
      msg := CtrlMsg(AddTableEntry, elem.value, [], "", []);
      var rules;
      rules, status := MatchRules(elem, te.matches);
      msg := msg.(matches := rules);
      if te.isDefaultAction { msg := msg.(kind := SetDefaultAction); }
      match te.action {
        case DirectAction(actionId, ps) =>
          var action := idMap.GetElement(actionId);
          if action == null {
            status := InvalidArgument;
          } else {
            var params := ActionParams(action, ps);
            msg := msg.(actionName := action.value, params := params);
          }
        case OtherAction =>
          status := Unimplemented;
      }
    }

    method TableInsert(te: TableEntry) returns (status: Status)
      requires Valid() && Spec.InsertDefined(idMap.slots, te)
      modifies this`trace
      ensures Valid()
      ensures status == Spec.InsertStatus(idMap.slots, te)
      ensures trace == old(trace) + Spec.InsertEffects(idMap.slots, te)
    {
      var msg;
      status, msg := BuildMessage(te);
      if status == Ok {
        trace := trace + [Callback(msg)];
      } else {
        assert trace + [] == trace;
      }
    }

    method ActionParams(elem: Element, ps: seq<Param>) returns (params: seq<ActionParam>)
      requires elem.Valid() && Spec.ParamsDefined(elem.View(), ps)
      ensures params == Spec.GenParams(elem.View(), ps)
    {
      params := [];
      for i := 0 to |ps|
        invariant Spec.ParamsDefined(elem.View(), ps[..i])
        invariant params == Spec.GenParams(elem.View(), ps[..i])
      {
        assert ps[..i + 1][..i] == ps[..i];
        var arg := elem.GetArgument(ps[i].paramId);
        params := params + [Spec.GenParam(arg.value, ps[i])];
      }
      assert ps[..|ps|] == ps;
    }

    method TableWrite(kind: UpdateType, te: TableEntry) returns (status: Status)
      requires Valid() && Spec.WriteDefined(idMap.slots, Update(kind, TableEntity(te)))
      modifies this`trace
      ensures Valid()
      ensures status == Spec.TableWriteStatus(idMap.slots, kind, te)
      ensures trace == old(trace) + Spec.UpdateEffects(idMap.slots, Update(kind, TableEntity(te)))
    {
      match kind {
        case UpdateUnspecified => status := InvalidArgument;
        case Insert => status := TableInsert(te);
        case Modify => status := Unimplemented;
        case Delete => status := Unimplemented;
        case OtherUpdate => status := Unknown;
      }
    }

    method ActivateDigest(id: uint64)
      requires Valid()
      modifies this`digests
      ensures Valid() && digests == Activate(old(digests), id)
    {
      for i := 0 to |digests|
        invariant digests == old(digests)
        invariant forall j :: 0 <= j < i ==> digests[j].id != id
      {
        if digests[i].id == id {
          ActivateFirst(digests, id, i);
          digests := digests[i := digests[i].(active := true)];
          return;
        }
      }
      ActivateMissing(digests, id);
    }

    /** One update of a batch; `status` keeps its value where the original leaves it alone. */
    method WriteUpdate(u: Update, before: Status) returns (status: Status)
      requires Valid() && Spec.WriteDefined(idMap.slots, u)
      modifies this`trace, this`digests
      ensures Valid() && digests == Spec.UpdateDigests(old(digests), u)
      ensures trace == old(trace) + Spec.UpdateEffects(idMap.slots, u)
      ensures u.entity.TableEntity? ==> status == Spec.TableWriteStatus(idMap.slots, u.kind, u.entity.table)
    {
      status := before;
      match u.entity {
        case TableEntity(te) =>
          status := TableWrite(u.kind, te);
        case CounterEntity(_) =>
          status := Unknown;
        case DirectCounterEntity =>
        case DigestEntity(id) =>
          ActivateDigest(id);
        case OtherEntity =>
          status := Unknown;
      }
    }

    method WriteAll(us: seq<Update>)
      requires Valid() && Spec.AllWritesDefined(idMap.slots, us)
      modifies this`trace, this`digests
      ensures Valid() && digests == Spec.AllDigests(old(digests), us)
      ensures trace == old(trace) + Spec.AllEffects(idMap.slots, us)
    {
      ghost var slots := idMap.slots;
      var status := Ok;
      for i := 0 to |us|
        invariant Valid() && Spec.AllWritesDefined(slots, us[..i])
        invariant digests == Spec.AllDigests(old(digests), us[..i])
        invariant trace == old(trace) + Spec.AllEffects(slots, us[..i])
      {
        assert us[..i + 1][..i] == us[..i];
        assert Spec.WriteDefined(slots, us[i]);
        ghost var before := Spec.AllEffects(slots, us[..i]);
        status := WriteUpdate(us[i], status);
        ConcatAssociative(old(trace), before, Spec.UpdateEffects(slots, us[i]));
      }
      assert us[..|us|] == us;
    }

    method Write(atomicity: Atomicity, us: seq<Update>) returns (status: Status)
      requires Valid() && Spec.Write(View(), atomicity, us).Some?
      modifies this`trace, this`digests
      ensures Valid()
      ensures status == Spec.WriteStatus(View(), atomicity)
      ensures Spec.Write(old(View()), atomicity, us).value.0 == View()
      ensures trace == old(trace) + Spec.Write(old(View()), atomicity, us).value.1
    {
      if !hasP4Info { return FailedPrecondition; }
      if atomicity != ContinueOnError { return Unimplemented; }
      WriteAll(us);
      return Ok;  // the error reporter records nothing
    }

    // ---- Reading counters

    method CounterRead(source: CounterSource, e: CounterEntry, response: seq<CounterEntry>)
      returns (status: Status, out: seq<CounterEntry>)
      requires Valid() && Spec.CounterRead(idMap.slots, source, e).Some?
      ensures var r := Spec.CounterRead(idMap.slots, source, e).value; status == r.0 && out == response + r.1
    {
      out := response;
      var elem := idMap.GetElement(e.counterId);
      var byteRef, packetRef := source(elem.value, true), source(elem.value, false);
      if (byteRef.cells.None? || byteRef.size == -1) && (packetRef.cells.None? || packetRef.size == -1) {
        return InvalidArgument, out;
      }
      if e.index.Some? {
        if e.index.value < 0 { return Unknown, out; }
        return Ok, out + [Spec.ReadOne(byteRef, packetRef, Spec.ToInt32(e.index.value), e)];
      }
      var index := 0;
      while index < packetRef.size || index < byteRef.size
        invariant 0 <= index && (index == 0 || index <= Spec.Extent(byteRef, packetRef))
        invariant index <= Spec.Extent(byteRef, packetRef) ==>
                    out == response + Spec.ReadUpTo(byteRef, packetRef, e.counterId, index)
        invariant index > Spec.Extent(byteRef, packetRef) ==> out == response
        decreases Spec.Extent(byteRef, packetRef) - index
      {
        out := out + [Spec.ReadOne(byteRef, packetRef, index, CounterEntry(e.counterId, Some(index), 0, 0))];
        index := index + 1;
      }
      return Ok, out;
    }

    method ReadEntity(source: CounterSource, e: Entity, response: seq<CounterEntry>)
      returns (status: Status, out: seq<CounterEntry>)
      requires Valid() && Spec.ReadEntity(idMap.slots, source, e).Some?
      ensures var r := Spec.ReadEntity(idMap.slots, source, e).value; status == r.0 && out == response + r.1
    {
      if e.CounterEntity? {
        status, out := CounterRead(source, e.counter, response);
      } else {
        status, out := Unknown, response;
      }
    }

    method ReadAll(source: CounterSource, es: seq<Entity>) returns (out: seq<CounterEntry>)
      requires Valid() && Spec.ReadAll(idMap.slots, source, es).Some?
      ensures Spec.ReadAll(idMap.slots, source, es) == Some(out)
    {
      out := [];
      ghost var slots := idMap.slots;
      ghost var rest := Spec.ReadAll(slots, source, es).value;
      ghost var all := rest;
      assert es[0..] == es;
      var i := 0;
      while i < |es|
        invariant i <= |es| && Spec.ReadAll(slots, source, es[i..]) == Some(rest)
        invariant all == out + rest
      {
        assert es[i..][1..] == es[i + 1..];
        assert Spec.ReadEntity(slots, source, es[i]).Some?;
        ghost var entries := Spec.ReadEntity(slots, source, es[i]).value.1;
        var before := out;
        var s;
        s, out := ReadEntity(source, es[i], before);
        if s != Ok {
          assert rest == entries;
          return;
        }
        ghost var later := Spec.ReadAll(slots, source, es[i + 1..]).value;
        ConcatAssociative(before, entries, later);
        rest := later;
        i := i + 1;
      }
      assert out + [] == out;
    }

    method Read(source: CounterSource, es: seq<Entity>) returns (status: Status, response: Option<seq<CounterEntry>>)
      requires Valid() && Spec.Read(View(), source, es).Some?
      ensures Some((status, response)) == Spec.Read(View(), source, es)
    {
      if !hasP4Info { return FailedPrecondition, None; }
      var out := ReadAll(source, es);
      return Ok, Some(out);
    }

    // ---- The stream channel and digests

    method OnStream(s: nat, m: StreamMessage) returns (status: Status)
      requires Valid()
      modifies this`stream, this`trace
      ensures Valid() && View() == Spec.OnStream(old(View()), s, m).0
      ensures trace == old(trace) + Spec.OnStream(old(View()), s, m).1
      ensures status == Spec.OnStream(old(View()), s, m).2
    {
      match m {
        case Arbitration(id, high, low) =>
          if deviceId != id { return FailedPrecondition; }
          stream := Some(s);
          trace := trace + [StreamWrite(s, ArbitrationReply(id, high, low))];
        case OtherMessage =>
      }
      return Ok;
    }

    method StreamChannel(s: nat, ms: seq<StreamMessage>) returns (status: Status)
      requires Valid()
      modifies this`stream, this`trace
      ensures Valid() && View() == Spec.StreamChannel(old(View()), s, ms).0
      ensures trace == old(trace) + Spec.StreamChannel(old(View()), s, ms).1
      ensures status == Spec.StreamChannel(old(View()), s, ms).2
    {
      ghost var goal := Spec.StreamChannel(View(), s, ms);
      ghost var start := trace;
      var i := 0;
      while i < |ms|
        invariant i <= |ms| && Valid()
        invariant goal.0 == Spec.StreamChannel(View(), s, ms[i..]).0
        invariant start + goal.1 == trace + Spec.StreamChannel(View(), s, ms[i..]).1
        invariant goal.2 == Spec.StreamChannel(View(), s, ms[i..]).2
      {
        assert ms[i..][1..] == ms[i + 1..];
        ghost var before, d := trace, View();
        status := OnStream(s, ms[i]);
        if status != Ok { return; }
        ConcatAssociative(before, Spec.OnStream(d, s, ms[i]).1, Spec.StreamChannel(View(), s, ms[i + 1..]).1);
        i := i + 1;
      }
      return Ok;
    }

    method SendDigest(name: string)
      requires Valid() && Spec.SendDigest(View(), name).Some?
      modifies this`trace
      ensures Valid() && View() == old(View())
      ensures trace == old(trace) + Spec.SendDigest(View(), name).value
    {
      var it := Find(digests, name);
      if it.Some? && it.value.active {
        trace := trace + [StreamWrite(stream.value, DigestList(it.value.id))];
      }
    }
  }
}
