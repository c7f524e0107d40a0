/** Runs of the agent: sequences of handled requests, and what every run guarantees. */
module Runs {
  import opened Basics
  import opened IdMapSpec
  import opened Messages
  import opened DigestMap
  import opened DeviceSpec

  datatype Event =
    | SetConfigEvent(deviceId: uint64, action: SetAction, config: PipelineConfig, tmpfileOk: bool)
    | GetConfigEvent(response: ResponseType)
    | WriteEvent(atomicity: Atomicity, updates: seq<Update>)
    | ReadEvent(source: CounterSource, entities: seq<Entity>)
    | StreamEvent(stream: nat, message: StreamMessage)
    | DigestEvent(name: string)

  /** One handled request: the new state and the effects, or None for undefined behaviour. */
  function Step(d: Device, e: Event): Option<(Device, seq<Effect>)> {
    match e
    case SetConfigEvent(deviceId, action, config, tmpfileOk) =>
      var r := SetConfig(d, deviceId, action, config, tmpfileOk);
      if r.None? then None else Some((r.value, []))
    case GetConfigEvent(_) => Some((d, []))
    case WriteEvent(atomicity, updates) => Write(d, atomicity, updates)
    case ReadEvent(source, entities) =>
      if Read(d, source, entities).None? then None else Some((d, []))
    case StreamEvent(stream, message) =>
      var r := OnStream(d, stream, message);
      Some((r.0, r.1))
    case DigestEvent(name) =>
      var r := SendDigest(d, name);
      if r.None? then None else Some((d, r.value))
  }

  /** The state and all effects after the events, starting from a fresh agent. */
  function Run(deviceId: uint64, es: seq<Event>): Option<(Device, seq<Effect>)> {
    if es == [] then Some((Initial(deviceId), [])) else
    match Run(deviceId, es[..|es| - 1])
    case None => None
    case Some((d, effects)) =>
      match Step(d, es[|es| - 1])
      case None => None
      case Some((d', more)) => Some((d', effects + more))
  }

  // ---- What the history says

  predicate IsPush(e: Event) {
    e.SetConfigEvent? && Accepts(e.action)
  }

  /** The last accepted push of a configuration. */
  function LastPush(es: seq<Event>): (r: Option<Event>)
    ensures r.Some? ==> r.value in es && IsPush(r.value)
    ensures r.None? ==> forall e :: e in es ==> !IsPush(e)
  {
    if es == [] then None
    else if IsPush(es[|es| - 1]) then Some(es[|es| - 1])
    else LastPush(es[..|es| - 1])
  }

  predicate IsDigestWrite(u: Update, id: uint64) {
    u.entity.DigestEntity? && u.entity.digestId == id
  }

  predicate WritesDigest(us: seq<Update>, id: uint64) {
    exists i :: 0 <= i < |us| && IsDigestWrite(us[i], id)
  }

  /** Since the last accepted push, a batch that was carried out contained a digest entry for `id`. */
  predicate ActivatedSince(es: seq<Event>, id: uint64) {
    if es == [] || IsPush(es[|es| - 1]) then false
    else
      || (es[|es| - 1].WriteEvent? && es[|es| - 1].atomicity.ContinueOnError? && WritesDigest(es[|es| - 1].updates, id))
      || ActivatedSince(es[..|es| - 1], id)
  }

  /** The id under which a digest name may be sent: it was declared, as the leading name of its id, by
      the latest accepted push, and activated since. */
  ghost function DueId(es: seq<Event>, name: string): Option<uint64> {
    match LastPush(es)
    case None => None
    case Some(push) =>
      var ds := push.config.p4info.digests;
      if Leading(ds, name) && ActivatedSince(es, DeclaredId(ds, name).value) then DeclaredId(ds, name) else None
  }

  /** Every request to set a configuration, accepted or not, renames the device. */
  function DeviceIdAfter(deviceId: uint64, es: seq<Event>): uint64 {
    if es == [] then deviceId
    else if es[|es| - 1].SetConfigEvent? then es[|es| - 1].deviceId
    else DeviceIdAfter(deviceId, es[..|es| - 1])
  }

  /** The stream of the latest arbitration that carried the device id of its time. */
  function CurrentStream(deviceId: uint64, es: seq<Event>): Option<nat> {
    if es == [] then None else
    var before, e := es[..|es| - 1], es[|es| - 1];
    if e.StreamEvent? && e.message.Arbitration? && e.message.deviceId == DeviceIdAfter(deviceId, before)
    then Some(e.stream)
    else CurrentStream(deviceId, before)
  }

  /** All adds to the id map attempted so far, in order. */
  function Attempted(es: seq<Event>): seq<Entry> {
    if es == [] then [] else
    var before, e := Attempted(es[..|es| - 1]), es[|es| - 1];
    if IsPush(e) then before + Attempts(BindAll(before), e.config.p4info) else before
  }

  /** The tables up to and including the first that finds no slot. */
  function AttemptedTables(slots: Slots, ts: seq<TableInfo>): seq<Entry>
    decreases |ts|
  {
    if ts == [] then []
    else if FreeSlot(slots, ts[0].id) == MAX_MAP_SIZE then [TableBinding(ts[0])]
    else [TableBinding(ts[0])] + AttemptedTables(Bind(slots, TableBinding(ts[0])), ts[1..])
  }

  function ActionBindings(xs: seq<ActionInfo>): seq<Entry> {
    if xs == [] then [] else [ActionBinding(xs[0])] + ActionBindings(xs[1..])
  }

  function CounterBindings(cs: seq<CounterInfo>): seq<Entry> {
    if cs == [] then [] else [CounterBinding(cs[0])] + CounterBindings(cs[1..])
  }

  function TableBindings(ts: seq<TableInfo>): seq<Entry> {
    if ts == [] then [] else [TableBinding(ts[0])] + TableBindings(ts[1..])
  }

  /** Everything a P4Info declares for the id map, in loading order. */
  function Bindings(info: P4Info): seq<Entry> {
    TableBindings(info.tables) + ActionBindings(info.actions) + CounterBindings(info.counters)
  }

  function Attempts(slots: Slots, info: P4Info): seq<Entry> {
    AttemptedTables(slots, info.tables) + ActionBindings(info.actions) + CounterBindings(info.counters)
  }

  // ---- Loading is a sequence of adds

  lemma {:induction false} BindAllSnoc(es: seq<Entry>, e: Entry)
    ensures BindAll(es + [e]) == Bind(BindAll(es), e)
    ensures Failures(es + [e]) == Failures(es) + if FreeSlot(BindAll(es), e.key) == MAX_MAP_SIZE then 1 else 0
  {
    assert (es + [e])[..|es|] == es;
  }

  lemma {:induction false} TablesAreAdds(past: seq<Entry>, ts: seq<TableInfo>)
    requires LoadTables(BindAll(past), ts).Some?
    ensures BindAll(past + AttemptedTables(BindAll(past), ts)) == LoadTables(BindAll(past), ts).value
    decreases |ts|
  {
    if ts == [] {
      assert past + [] == past;
    } else {
      var b := TableBinding(ts[0]);
      BindAllSnoc(past, b);
      if FreeSlot(BindAll(past), b.key) < MAX_MAP_SIZE {
        TablesAreAdds(past + [b], ts[1..]);
        ConcatAssociative(past, [b], AttemptedTables(BindAll(past + [b]), ts[1..]));
      }
    }
  }

  lemma {:induction false} ActionsAreAdds(past: seq<Entry>, xs: seq<ActionInfo>)
    requires LoadActions(BindAll(past), xs).Some?
    ensures BindAll(past + ActionBindings(xs)) == LoadActions(BindAll(past), xs).value
    decreases |xs|
  {
    if xs == [] {
      assert past + [] == past;
    } else {
      var b := ActionBinding(xs[0]);
      BindAllSnoc(past, b);
      ActionsAreAdds(past + [b], xs[1..]);
      ConcatAssociative(past, [b], ActionBindings(xs[1..]));
    }
  }

  lemma {:induction false} CountersAreAdds(past: seq<Entry>, cs: seq<CounterInfo>)
    ensures BindAll(past + CounterBindings(cs)) == LoadCounters(BindAll(past), cs)
    decreases |cs|
  {
    if cs == [] {
      assert past + [] == past;
    } else {
      var b := CounterBinding(cs[0]);
      BindAllSnoc(past, b);
      CountersAreAdds(past + [b], cs[1..]);
      ConcatAssociative(past, [b], CounterBindings(cs[1..]));
    }
  }

  lemma {:induction false} LoadIsAdds(past: seq<Entry>, info: P4Info)
    requires LoadP4Info(BindAll(past), info).Some?
    ensures BindAll(past + Attempts(BindAll(past), info)) == LoadP4Info(BindAll(past), info).value
  {
    var ts := AttemptedTables(BindAll(past), info.tables);
    var xs, cs := ActionBindings(info.actions), CounterBindings(info.counters);
    TablesAreAdds(past, info.tables);
    ActionsAreAdds(past + ts, info.actions);
    CountersAreAdds(past + ts + xs, info.counters);
    ConcatAssociative(past, ts, xs);
    ConcatAssociative(past, ts + xs, cs);
  }

  // ---- The invariant of every run

  /** The digest map as the history determines it: the declared digests in name order, each active if
      it leads its id and that id was written since the push. */
  ghost predicate DigestsFollow(digests: seq<Digest>, ds: seq<DigestInfo>, es: seq<Event>) {
    var base := FromDigests(ds);
    && |digests| == |base|
    && forall i :: 0 <= i < |base| ==>
         digests[i] == base[i].(active := ActivatedSince(es, base[i].id) && FirstOfItsId(base, i))
  }

  /** The whole state is the one the history determines. */
  ghost predicate StateFollows(deviceId: uint64, d: Device, es: seq<Event>) {
    && d.deviceId == DeviceIdAfter(deviceId, es)
    && d.stream == CurrentStream(deviceId, es)
    && d.slots == BindAll(Attempted(es))
    && match LastPush(es)
       case None => !d.hasP4Info && d.p4info == NO_P4INFO && d.digests == [] && d.cookie == None && d.saved == []
       case Some(push) =>
         && d.hasP4Info
         && d.p4info == push.config.p4info
         && d.cookie == Some(push.config.cookie)
         && d.saved == (if push.tmpfileOk then push.config.deviceConfig else [])
         && DigestsFollow(d.digests, push.config.p4info.digests, es)
  }

  /** What a batch does to one digest. */
  lemma {:induction false} BatchActivates(digests: seq<Digest>, us: seq<Update>, i: nat)
    requires i < |digests|
    ensures |AllDigests(digests, us)| == |digests|
    ensures AllDigests(digests, us)[i]
            == digests[i].(active := digests[i].active || (WritesDigest(us, digests[i].id) && FirstOfItsId(digests, i)))
  {
    if us != [] {
      var before, u := us[..|us| - 1], us[|us| - 1];
      forall j: nat | j < |digests|
        ensures |AllDigests(digests, before)| == |digests|
        ensures AllDigests(digests, before)[j].id == digests[j].id
      {
        BatchActivates(digests, before, j);
      }
      BatchActivates(digests, before, i);
      var mid := AllDigests(digests, before);
      assert FirstOfItsId(mid, i) <==> FirstOfItsId(digests, i);
      if u.entity.DigestEntity? { ActivateAt(mid, u.entity.digestId, i); }
      WritesDigestSnoc(before, u, digests[i].id);
      assert us == before + [u];
    }
  }

  lemma {:induction false} WritesDigestSnoc(us: seq<Update>, u: Update, id: uint64)
    ensures WritesDigest(us + [u], id) <==> WritesDigest(us, id) || IsDigestWrite(u, id)
  {
    var all := us + [u];
    if WritesDigest(us, id) {
      var i :| 0 <= i < |us| && IsDigestWrite(us[i], id);
      assert IsDigestWrite(all[i], id);
    }
    if IsDigestWrite(u, id) { assert IsDigestWrite(all[|us|], id); }
  }

  lemma {:induction false} DigestsFollowBatch(digests: seq<Digest>, ds: seq<DigestInfo>, es: seq<Event>,
                                              us: seq<Update>)
    requires DigestsFollow(digests, ds, es)
    ensures DigestsFollow(AllDigests(digests, us), ds, es + [WriteEvent(ContinueOnError, us)])
  {
    var base := FromDigests(ds);
    var after := es + [WriteEvent(ContinueOnError, us)];
    assert after[..|after| - 1] == es;
    BatchKeepsLength(digests, us);
    forall i | 0 <= i < |base|
      ensures AllDigests(digests, us)[i]
              == base[i].(active := ActivatedSince(after, base[i].id) && FirstOfItsId(base, i))
    {
      BatchActivates(digests, us, i);
      assert FirstOfItsId(digests, i) <==> FirstOfItsId(base, i);
    }
  }

  lemma {:induction false} BatchKeepsLength(digests: seq<Digest>, us: seq<Update>)
    ensures |AllDigests(digests, us)| == |digests|
  {
    if us != [] { BatchKeepsLength(digests, us[..|us| - 1]); }
  }

  /** Right after a push every declared digest is inactive. */
  lemma {:induction false} PushResets(ds: seq<DigestInfo>, es: seq<Event>, push: Event)
    requires IsPush(push)
    ensures DigestsFollow(FromDigests(ds), ds, es + [push])
  {
    var after := es + [push];
    assert after[|after| - 1] == push;
    FreshlyInactive(ds);
    assert forall id :: !ActivatedSince(after, id);
  }

  lemma {:induction false} PushFollows(deviceId: uint64, d: Device, es: seq<Event>, e: Event)
    requires StateFollows(deviceId, d, es) && IsPush(e) && Step(d, e).Some?
    ensures StateFollows(deviceId, Step(d, e).value.0, es + [e])
  {
    assert (es + [e])[..|es|] == es;
    LoadIsAdds(Attempted(es), e.config.p4info);
    PushResets(e.config.p4info.digests, es, e);
  }

  lemma {:induction false} DigestsFollowQuiet(digests: seq<Digest>, ds: seq<DigestInfo>, es: seq<Event>, e: Event)
    requires DigestsFollow(digests, ds, es)
    requires !IsPush(e) && !(e.WriteEvent? && e.atomicity.ContinueOnError?)
    ensures DigestsFollow(digests, ds, es + [e])
  {
    assert (es + [e])[..|es|] == es;
  }

  lemma {:induction false} HistoryQuiet(es: seq<Event>, e: Event)
    requires !IsPush(e)
    ensures LastPush(es + [e]) == LastPush(es) && Attempted(es + [e]) == Attempted(es)
  {
    assert (es + [e])[..|es|] == es;
  }

  lemma {:induction false} WriteFollows(deviceId: uint64, d: Device, es: seq<Event>, e: Event)
    requires StateFollows(deviceId, d, es) && e.WriteEvent? && Step(d, e).Some?
    ensures StateFollows(deviceId, Step(d, e).value.0, es + [e])
  {
    HistoryQuiet(es, e);
    assert (es + [e])[..|es|] == es;
    if LastPush(es).Some? {
      var ds := LastPush(es).value.config.p4info.digests;
      if e.atomicity.ContinueOnError? {
        DigestsFollowBatch(d.digests, ds, es, e.updates);
      } else {
        DigestsFollowQuiet(d.digests, ds, es, e);
      }
    }
  }

  lemma {:induction false} QuietFollows(deviceId: uint64, d: Device, es: seq<Event>, e: Event)
    requires StateFollows(deviceId, d, es) && !IsPush(e) && !e.WriteEvent? && Step(d, e).Some?
    ensures StateFollows(deviceId, Step(d, e).value.0, es + [e])
  {
    HistoryQuiet(es, e);
    assert (es + [e])[..|es|] == es;
    if LastPush(es).Some? { DigestsFollowQuiet(d.digests, LastPush(es).value.config.p4info.digests, es, e); }
  }

  lemma {:induction false} StepFollows(deviceId: uint64, d: Device, es: seq<Event>, e: Event)
    requires StateFollows(deviceId, d, es) && Step(d, e).Some?
    ensures StateFollows(deviceId, Step(d, e).value.0, es + [e])
  {
    if IsPush(e) {
      PushFollows(deviceId, d, es, e);
    } else if e.WriteEvent? {
      WriteFollows(deviceId, d, es, e);
    } else {
      QuietFollows(deviceId, d, es, e);
    }
  }

  /** A run that is defined is a shorter one and one step more. */
  lemma {:induction false} RunSplits(deviceId: uint64, es: seq<Event>)
    requires es != [] && Run(deviceId, es).Some?
    ensures var before, e := es[..|es| - 1], es[|es| - 1];
            && es == before + [e]
            && Run(deviceId, before).Some? && Step(Run(deviceId, before).value.0, e).Some?
            && Run(deviceId, es).value.0 == Step(Run(deviceId, before).value.0, e).value.0
  {
  }

  /** In every run the whole state is the one the history determines. */
  lemma {:induction false} RunFollows(deviceId: uint64, es: seq<Event>)
    requires Run(deviceId, es).Some?
    ensures StateFollows(deviceId, Run(deviceId, es).value.0, es)
  {
    if es != [] {
      var before, e := es[..|es| - 1], es[|es| - 1];
      RunSplits(deviceId, es);
      RunFollows(deviceId, before);
      var d := Run(deviceId, before).value.0;
      StepFollows(deviceId, d, before, e);
      assert StateFollows(deviceId, Step(d, e).value.0, es);
    }
  }

  // ---- Which digests are active

  lemma {:induction false} ActiveExactlyWhenDue(digests: seq<Digest>, es: seq<Event>, name: string)
    requires LastPush(es).Some? && DigestsFollow(digests, LastPush(es).value.config.p4info.digests, es)
    ensures Find(digests, name).Some? && Find(digests, name).value.active <==> DueId(es, name).Some?
    ensures DueId(es, name).Some? ==> Find(digests, name).value.id == DueId(es, name).value
  {
    var ds := LastPush(es).value.config.p4info.digests;
    var base := FromDigests(ds);
    FromDigestsIsDeclared(ds, name);
    FindSameNames(digests, base, name);
    if Find(digests, name).Some? {
      var i :| 0 <= i < |digests| && digests[i] == Find(digests, name).value;
      LeadingIsFirst(ds, i);
    }
  }

  lemma {:induction false} FindSameNames(m: seq<Digest>, base: seq<Digest>, name: string)
    requires |m| == |base|
    requires forall i :: 0 <= i < |m| ==> m[i].name == base[i].name && m[i].id == base[i].id
    ensures Find(m, name).Some? <==> Find(base, name).Some?
    ensures Find(m, name).Some? ==> Find(m, name).value.id == Find(base, name).value.id
  {
    if m != [] { FindSameNames(m[1..], base[1..], name); }
  }

  /** In a state that follows the history a digest is sent exactly when it is due. */
  lemma {:induction false} SendFollows(deviceId: uint64, d: Device, es: seq<Event>, name: string)
    requires StateFollows(deviceId, d, es)
    ensures SendDigest(d, name) ==
            match DueId(es, name)
            case None => Some([])
            case Some(id) =>
              match CurrentStream(deviceId, es)
              case None => None
              case Some(s) => Some([StreamWrite(s, DigestList(id))])
  {
    if LastPush(es).Some? { ActiveExactlyWhenDue(d.digests, es, name); }
  }

  // ---- Definedness and effects of a run, read off the history

  /** Whether an event after the history `past` stays clear of undefined behaviour. */
  ghost predicate EventDefined(deviceId: uint64, past: seq<Event>, e: Event) {
    var slots := BindAll(Attempted(past));
    match e
    case SetConfigEvent(_, action, config, _) => Accepts(action) ==> LoadP4Info(slots, config.p4info).Some?
    case GetConfigEvent(_) => true
    case WriteEvent(atomicity, us) =>
      LastPush(past).Some? && atomicity.ContinueOnError? ==> AllWritesDefined(slots, us)
    case ReadEvent(source, entities) => LastPush(past).Some? ==> ReadAll(slots, source, entities).Some?
    case StreamEvent(_, _) => true
    case DigestEvent(name) => DueId(past, name).Some? ==> CurrentStream(deviceId, past).Some?
  }

  /** What an event after the history `past` does to the outside. */
  ghost function EffectsOf(deviceId: uint64, past: seq<Event>, e: Event): seq<Effect>
    requires EventDefined(deviceId, past, e)
  {
    match e
    case WriteEvent(atomicity, us) =>
      if LastPush(past).Some? && atomicity.ContinueOnError? then AllEffects(BindAll(Attempted(past)), us) else []
    case StreamEvent(stream, Arbitration(id, high, low)) =>
      if id == DeviceIdAfter(deviceId, past) then [StreamWrite(stream, ArbitrationReply(id, high, low))] else []
    case DigestEvent(name) =>
      if DueId(past, name).Some?
      then [StreamWrite(CurrentStream(deviceId, past).value, DigestList(DueId(past, name).value))] else []
    case _ => []
  }

  ghost predicate HistoryDefined(deviceId: uint64, es: seq<Event>) {
    es == [] || (HistoryDefined(deviceId, es[..|es| - 1]) && EventDefined(deviceId, es[..|es| - 1], es[|es| - 1]))
  }

  ghost function Trace(deviceId: uint64, es: seq<Event>): seq<Effect>
    requires HistoryDefined(deviceId, es)
  {
    if es == [] then [] else
    var before, e := es[..|es| - 1], es[|es| - 1];
    Trace(deviceId, before) + EffectsOf(deviceId, before, e)
  }

  lemma {:induction false} StepIsHistory(deviceId: uint64, d: Device, past: seq<Event>, e: Event)
    requires StateFollows(deviceId, d, past)
    ensures Step(d, e).Some? <==> EventDefined(deviceId, past, e)
    ensures Step(d, e).Some? ==> Step(d, e).value.1 == EffectsOf(deviceId, past, e)
  {
    if e.DigestEvent? { SendFollows(deviceId, d, past, e.name); }
  }

  /** A run is free of undefined behaviour, and has the effects it has, as the history alone determines. */
  lemma {:induction false} RunIsHistory(deviceId: uint64, es: seq<Event>)
    ensures Run(deviceId, es).Some? <==> HistoryDefined(deviceId, es)
    ensures Run(deviceId, es).Some? ==> Run(deviceId, es).value.1 == Trace(deviceId, es)
  {
    if es != [] {
      var before, e := es[..|es| - 1], es[|es| - 1];
      RunIsHistory(deviceId, before);
      if Run(deviceId, before).Some? {
        RunFollows(deviceId, before);
        StepIsHistory(deviceId, Run(deviceId, before).value.0, before, e);
      }
    }
  }
}
