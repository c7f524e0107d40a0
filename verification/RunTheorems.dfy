/** What every run of the agent guarantees, for every sequence of requests. */
module RunTheorems {
  import opened Basics
  import opened Parking
  import opened IdMapSpec
  import opened IdMapTheorems
  import opened Messages
  import opened DeviceSpec
  import opened RequestTheorems
  import opened Runs

  // ---- Set and get agree

  /** A get answers with the most recent accepted push, whatever happened in between. */
  lemma {:induction false} SetGetAgreement(deviceId: uint64, es: seq<Event>)
    requires Run(deviceId, es).Some?
    ensures var d := Run(deviceId, es).value.0;
            match LastPush(es)
            case None => forall r :: GetConfig(d, r) == (FailedPrecondition, NO_CONFIG)
            case Some(push) =>
              var config := push.config;
              var saved := if push.tmpfileOk then config.deviceConfig else [];
              && GetConfig(d, All) == (Ok, ConfigReply(Some(config.p4info), saved, Some(config.cookie)))
              && GetConfig(d, CookieOnly) == (Ok, ConfigReply(None, [], Some(config.cookie)))
              && GetConfig(d, P4InfoAndCookie) == (Ok, ConfigReply(Some(config.p4info), [], Some(config.cookie)))
              && GetConfig(d, DeviceConfigAndCookie) == (Ok, ConfigReply(None, saved, Some(config.cookie)))
              && GetConfig(d, OtherResponse) == (Ok, NO_CONFIG)
  {
    RunFollows(deviceId, es);
  }

  /** Writes, reads and gets are refused for want of a configuration exactly until the first accepted push. */
  lemma {:induction false} GateOpensWithPush(deviceId: uint64, es: seq<Event>, atomicity: Atomicity,
                                             source: CounterSource,
                                             entities: seq<Entity>, response: ResponseType)
    requires Run(deviceId, es).Some?
    ensures var d := Run(deviceId, es).value.0;
            && (WriteStatus(d, atomicity).FailedPrecondition? <==> LastPush(es).None?)
            && (Read(d, source, entities) == Some((FailedPrecondition, None)) <==> LastPush(es).None?)
            && (GetConfig(d, response).0.FailedPrecondition? <==> LastPush(es).None?)
  {
    RunFollows(deviceId, es);
  }

  /** What a write answers: beyond the gate only the atomicity counts, and no failure of an update shows. */
  lemma {:induction false} WriteAnswers(deviceId: uint64, es: seq<Event>, atomicity: Atomicity)
    requires Run(deviceId, es).Some?
    ensures WriteStatus(Run(deviceId, es).value.0, atomicity) ==
            if LastPush(es).None? then FailedPrecondition
            else if atomicity == ContinueOnError then Ok
            else Unimplemented
  {
    RunFollows(deviceId, es);
  }

  /** What a read answers: once a configuration was pushed, OK with the entries of the longest prefix of entities
      that succeed, and it is undefined only at the entity behind that prefix. */
  lemma {:induction false} ReadAnswers(deviceId: uint64, es: seq<Event>, source: CounterSource, entities: seq<Entity>)
    returns (k: nat)
    requires Run(deviceId, es).Some?
    ensures var slots := BindAll(Attempted(es));
            && k <= |entities| && (forall i :: 0 <= i < k ==> Succeeds(slots, source, entities[i]))
            && (k < |entities| ==> !Succeeds(slots, source, entities[k]))
            && Read(Run(deviceId, es).value.0, source, entities) ==
               if LastPush(es).None? then Some((FailedPrecondition, None))
               else if k < |entities| && Breaks(slots, source, entities[k]) then None
               else Some((Ok, Some(Delivered(slots, source, entities[..k]))))
  {
    RunFollows(deviceId, es);
    k := ReadLongestPrefix(BindAll(Attempted(es)), source, entities);
  }

  // ---- Streams and digests

  /** The device id and the current stream of every run. */
  lemma {:induction false} StreamFollows(deviceId: uint64, es: seq<Event>)
    requires Run(deviceId, es).Some?
    ensures Run(deviceId, es).value.0.deviceId == DeviceIdAfter(deviceId, es)
    ensures Run(deviceId, es).value.0.stream == CurrentStream(deviceId, es)
  {
    RunFollows(deviceId, es);
  }

  /** A digest is sent exactly when it is due, under the id the latest push declared, to the stream
      that arbitrated last. */
  lemma {:induction false} DigestSentExactlyWhenDue(deviceId: uint64, es: seq<Event>, name: string)
    requires Run(deviceId, es).Some?
    ensures var d := Run(deviceId, es).value.0;
            SendDigest(d, name) ==
            match DueId(es, name)
            case None => Some([])
            case Some(id) =>
              match CurrentStream(deviceId, es)
              case None => None
              case Some(s) => Some([StreamWrite(s, DigestList(id))])
  {
    RunFollows(deviceId, es);
    SendFollows(deviceId, Run(deviceId, es).value.0, es, name);
  }

  lemma {:induction false} PushLeavesNoneDue(es: seq<Event>, push: Event, name: string)
    requires IsPush(push)
    ensures DueId(es + [push], name) == None
  {
    var after := es + [push];
    assert after[|after| - 1] == push;
    assert LastPush(after) == Some(push);
    assert forall id :: !ActivatedSince(after, id);
  }

  /** Right after an accepted push the agent sends no digest, whatever its name. */
  lemma {:induction false} PushSilencesDigests(deviceId: uint64, es: seq<Event>, push: Event, name: string)
    requires IsPush(push) && Run(deviceId, es + [push]).Some?
    ensures SendDigest(Run(deviceId, es + [push]).value.0, name) == Some([])
  {
    PushLeavesNoneDue(es, push, name);
    DigestSentExactlyWhenDue(deviceId, es + [push], name);
  }

  // ---- Who is told to be master

  predicate IsMasterReply(effect: Effect, stream: nat) {
    effect.StreamWrite? && effect.stream == stream && effect.reply.ArbitrationReply?
  }

  /** Somewhere among the effects a stream is told that it is master. */
  ghost predicate ToldMaster(effects: seq<Effect>, stream: nat) {
    exists i :: 0 <= i < |effects| && IsMasterReply(effects[i], stream)
  }

  /** Event `i` is an arbitration on the stream that carries the device id of its time. */
  predicate ArbitratedAt(deviceId: uint64, es: seq<Event>, i: nat, stream: nat) {
    && i < |es| && es[i].StreamEvent? && es[i].stream == stream
    && es[i].message.Arbitration? && es[i].message.deviceId == DeviceIdAfter(deviceId, es[..i])
  }

  ghost predicate Arbitrated(deviceId: uint64, es: seq<Event>, stream: nat) {
    exists i: nat :: ArbitratedAt(deviceId, es, i, stream)
  }

  lemma {:induction false} ToldMasterConcat(a: seq<Effect>, b: seq<Effect>, stream: nat)
    ensures ToldMaster(a + b, stream) <==> ToldMaster(a, stream) || ToldMaster(b, stream)
  {
    if i :| 0 <= i < |a| && IsMasterReply(a[i], stream) { assert IsMasterReply((a + b)[i], stream); }
    if i :| 0 <= i < |b| && IsMasterReply(b[i], stream) { assert IsMasterReply((a + b)[|a| + i], stream); }
    if i :| 0 <= i < |a + b| && IsMasterReply((a + b)[i], stream) {
      if i < |a| { assert IsMasterReply(a[i], stream); } else { assert IsMasterReply(b[i - |a|], stream); }
    }
  }

  lemma {:induction false} ArbitratedSnoc(deviceId: uint64, es: seq<Event>, e: Event, stream: nat)
    ensures Arbitrated(deviceId, es + [e], stream) <==>
            Arbitrated(deviceId, es, stream) || ArbitratedAt(deviceId, es + [e], |es|, stream)
  {
    var all := es + [e];
    forall i: nat | i < |es| ensures ArbitratedAt(deviceId, all, i, stream) <==> ArbitratedAt(deviceId, es, i, stream) {
      assert all[..i] == es[..i];
    }
    if Arbitrated(deviceId, es, stream) {
      var i: nat :| ArbitratedAt(deviceId, es, i, stream);
      assert ArbitratedAt(deviceId, all, i, stream);
    }
    if Arbitrated(deviceId, all, stream) {
      var i: nat :| ArbitratedAt(deviceId, all, i, stream);
      if i < |es| { assert ArbitratedAt(deviceId, es, i, stream); }
    }
  }

  lemma {:induction false} EventTellsMaster(deviceId: uint64, es: seq<Event>, e: Event, stream: nat)
    requires EventDefined(deviceId, es, e)
    ensures ToldMaster(EffectsOf(deviceId, es, e), stream) <==> ArbitratedAt(deviceId, es + [e], |es|, stream)
  {
    var effects := EffectsOf(deviceId, es, e);
    assert (es + [e])[..|es|] == es;
    if e.WriteEvent? && effects != [] { BatchCallbacks(BindAll(Attempted(es)), e.updates); }
    if ArbitratedAt(deviceId, es + [e], |es|, stream) { assert IsMasterReply(effects[0], stream); }
  }

  /** Over every run, a stream is told that it is master if and only if it once sent an arbitration with
      the device id of that time; election ids play no role. */
  lemma {:induction false} ToldMasterIff(deviceId: uint64, es: seq<Event>, stream: nat)
    requires Run(deviceId, es).Some?
    ensures ToldMaster(Run(deviceId, es).value.1, stream) <==> Arbitrated(deviceId, es, stream)
  {
    if es != [] {
      var before, e := es[..|es| - 1], es[|es| - 1];
      assert es == before + [e];
      RunSplits(deviceId, es);
      ToldMasterIff(deviceId, before, stream);
      RunFollows(deviceId, before);
      StepIsHistory(deviceId, Run(deviceId, before).value.0, before, e);
      ToldMasterConcat(Run(deviceId, before).value.1, EffectsOf(deviceId, before, e), stream);
      EventTellsMaster(deviceId, before, e, stream);
      ArbitratedSnoc(deviceId, before, e, stream);
    }
  }

  /** At most one stream is ever told that it is master exactly when all arbitrations with the right device
      id came from one stream. */
  lemma {:induction false} SingleMasterIff(deviceId: uint64, es: seq<Event>)
    requires Run(deviceId, es).Some?
    ensures (forall s: nat, s': nat ::
               ToldMaster(Run(deviceId, es).value.1, s) && ToldMaster(Run(deviceId, es).value.1, s') ==> s == s')
            <==>
            (forall s: nat, s': nat ::
               Arbitrated(deviceId, es, s) && Arbitrated(deviceId, es, s') ==> s == s')
  {
    forall s: nat ensures ToldMaster(Run(deviceId, es).value.1, s) <==> Arbitrated(deviceId, es, s) {
      ToldMasterIff(deviceId, es, s);
    }
  }

  // ---- Callbacks

  ghost predicate NoCallback(effects: seq<Effect>) {
    forall i :: 0 <= i < |effects| ==> !effects[i].Callback?
  }

  /** Nothing reaches the switch before the first accepted push. */
  lemma {:induction false} NoCallbackBeforePush(deviceId: uint64, es: seq<Event>)
    requires Run(deviceId, es).Some? && LastPush(es).None?
    ensures NoCallback(Run(deviceId, es).value.1)
  {
    if es != [] {
      var before, e := es[..|es| - 1], es[|es| - 1];
      NoCallbackBeforePush(deviceId, before);
      RunFollows(deviceId, before);
      var d := Run(deviceId, before).value.0;
      assert !d.hasP4Info;
    }
  }

  // ---- What a P4Info declares

  lemma {:induction false} TableBindingAt(ts: seq<TableInfo>, i: nat)
    requires i < |ts|
    ensures |TableBindings(ts)| == |ts|
    ensures TableBindings(ts)[i] == Entry(ts[i].id, ts[i].name, ts[i].matchFields)
  {
    TableCount(ts);
    if i > 0 { TableBindingAt(ts[1..], i - 1); }
  }

  lemma {:induction false} ActionBindingAt(xs: seq<ActionInfo>, i: nat)
    requires i < |xs|
    ensures |ActionBindings(xs)| == |xs|
    ensures ActionBindings(xs)[i] == Entry(xs[i].id, xs[i].name, xs[i].params)
  {
    ActionCount(xs);
    if i > 0 { ActionBindingAt(xs[1..], i - 1); }
  }

  lemma {:induction false} CounterBindingAt(cs: seq<CounterInfo>, i: nat)
    requires i < |cs|
    ensures |CounterBindings(cs)| == |cs|
    ensures CounterBindings(cs)[i] == Entry(cs[i].id, cs[i].name, [])
  {
    CounterCount(cs);
    if i > 0 { CounterBindingAt(cs[1..], i - 1); }
  }

  /** The bindings of a P4Info are, in this order, its tables under their ids with their names and match fields, its
      actions with their names and parameters, and its counters with their names and no arguments. */
  lemma {:induction false} BindingsAreDeclared(info: P4Info)
    ensures var (bs, t, a) := (Bindings(info), |info.tables|, |info.actions|);
            && |bs| == t + a + |info.counters|
            && (forall i :: 0 <= i < t ==>
                  bs[i] == Entry(info.tables[i].id, info.tables[i].name, info.tables[i].matchFields))
            && (forall i :: 0 <= i < a ==>
                  bs[t + i] == Entry(info.actions[i].id, info.actions[i].name, info.actions[i].params))
            && (forall i :: 0 <= i < |info.counters| ==>
                  bs[t + a + i] == Entry(info.counters[i].id, info.counters[i].name, []))
  {
    var ts, xs, cs := info.tables, info.actions, info.counters;
    TableCount(ts);
    ActionCount(xs);
    CounterCount(cs);
    forall i | 0 <= i < |ts| ensures TableBindings(ts)[i] == Entry(ts[i].id, ts[i].name, ts[i].matchFields) {
      TableBindingAt(ts, i);
    }
    forall i | 0 <= i < |xs| ensures ActionBindings(xs)[i] == Entry(xs[i].id, xs[i].name, xs[i].params) {
      ActionBindingAt(xs, i);
    }
    forall i | 0 <= i < |cs| ensures CounterBindings(cs)[i] == Entry(cs[i].id, cs[i].name, []) {
      CounterBindingAt(cs, i);
    }
  }

  lemma {:induction false} TableCount(ts: seq<TableInfo>)
    ensures |TableBindings(ts)| == |ts|
  {
    if ts != [] { TableCount(ts[1..]); }
  }

  lemma {:induction false} ActionCount(xs: seq<ActionInfo>)
    ensures |ActionBindings(xs)| == |xs|
  {
    if xs != [] { ActionCount(xs[1..]); }
  }

  lemma {:induction false} CounterCount(cs: seq<CounterInfo>)
    ensures |CounterBindings(cs)| == |cs|
  {
    if cs != [] { CounterCount(cs[1..]); }
  }

  // ---- The id map over runs

  /** Once an id resolves, no later request changes what it resolves to. */
  lemma {:induction false} IdsAreStable(deviceId: uint64, es: seq<Event>, more: seq<Event>, key: uint64)
    requires Run(deviceId, es + more).Some?
    ensures Run(deviceId, es).Some?
    ensures Resolve(Run(deviceId, es).value.0.slots, key).Some? ==>
              Resolve(Run(deviceId, es + more).value.0.slots, key) == Resolve(Run(deviceId, es).value.0.slots, key)
  {
    var all := es + more;
    if more == [] {
      assert all == es;
    } else {
      var before, e := all[..|all| - 1], all[|all| - 1];
      assert before == es + more[..|more| - 1];
      IdsAreStable(deviceId, es, more[..|more| - 1], key);
      RunFollows(deviceId, before);
      RunFollows(deviceId, all);
      var past := Attempted(before);
      if IsPush(e) {
        ResolveStableUnderAdds(past, Attempts(BindAll(past), e.config.p4info), key);
      }
    }
  }

  lemma {:induction false} ResolveStableUnderAdds(past: seq<Entry>, adds: seq<Entry>, key: uint64)
    ensures Resolve(BindAll(past), key).Some? ==> Resolve(BindAll(past + adds), key) == Resolve(BindAll(past), key)
    decreases |adds|
  {
    if adds == [] {
      assert past + adds == past;
    } else {
      var n := |adds| - 1;
      ResolveStableUnderAdds(past, adds[..n], key);
      assert past + adds == (past + adds[..n]) + [adds[n]];
      BindAllSnoc(past + adds[..n], adds[n]);
      if Resolve(BindAll(past), key).Some? { ResolveIsStable(BindAll(past + adds[..n]), adds[n], key); }
    }
  }

  /** In every run an id resolves to its earliest successful add. */
  lemma {:induction false} RunFirstWriteWins(deviceId: uint64, es: seq<Event>, key: uint64)
    requires Run(deviceId, es).Some?
    ensures Resolve(Run(deviceId, es).value.0.slots, key) == EarliestSuccess(Attempted(es), key)
  {
    RunFollows(deviceId, es);
    FirstWriteWins(Attempted(es), key);
  }

  /** The bindings of all accepted pushes, in order. */
  function Pushed(es: seq<Event>): seq<Entry> {
    if es == [] then [] else
    var e := es[|es| - 1];
    if IsPush(e) then Pushed(es[..|es| - 1]) + Bindings(e.config.p4info) else Pushed(es[..|es| - 1])
  }

  lemma {:induction false} FailuresGrow(past: seq<Entry>, adds: seq<Entry>)
    ensures Failures(past) <= Failures(past + adds)
    decreases |adds|
  {
    if adds == [] {
      assert past + adds == past;
    } else {
      var n := |adds| - 1;
      FailuresGrow(past, adds[..n]);
      assert past + adds == (past + adds[..n]) + [adds[n]];
      BindAllSnoc(past + adds[..n], adds[n]);
    }
  }

  /** The loop over the tables is cut short only by a failed add. */
  lemma {:induction false} TablesAllAttempted(past: seq<Entry>, ts: seq<TableInfo>)
    ensures Failures(past + AttemptedTables(BindAll(past), ts)) == 0 || Failures(past + TableBindings(ts)) == 0 ==>
              AttemptedTables(BindAll(past), ts) == TableBindings(ts)
    decreases |ts|
  {
    if ts != [] {
      var b := TableBinding(ts[0]);
      BindAllSnoc(past, b);
      TablesAllAttempted(past + [b], ts[1..]);
      FailuresGrow(past + [b], TableBindings(ts[1..]));
      ConcatAssociative(past, [b], TableBindings(ts[1..]));
      ConcatAssociative(past, [b], AttemptedTables(BindAll(past + [b]), ts[1..]));
    }
  }

  lemma {:induction false} AllAttempted(past: seq<Entry>, info: P4Info)
    ensures Failures(past + Attempts(BindAll(past), info)) == 0 || Failures(past + Bindings(info)) == 0 ==>
              Attempts(BindAll(past), info) == Bindings(info)
  {
    var ats, ts := AttemptedTables(BindAll(past), info.tables), TableBindings(info.tables);
    var xs, cs := ActionBindings(info.actions), CounterBindings(info.counters);
    TablesAllAttempted(past, info.tables);
    FailuresGrow(past + ats, xs + cs);
    FailuresGrow(past + ts, xs + cs);
    ConcatAssociative(past, ats, xs + cs);
    ConcatAssociative(past, ts, xs + cs);
    ConcatAssociative(ats, xs, cs);
    ConcatAssociative(ts, xs, cs);
  }

  /** Without failed adds, the adds attempted are exactly the bindings pushed. */
  lemma {:induction false} AttemptedIsPushed(es: seq<Event>)
    ensures Failures(Attempted(es)) == 0 || Failures(Pushed(es)) == 0 ==> Attempted(es) == Pushed(es)
  {
    if es != [] {
      var before, e := es[..|es| - 1], es[|es| - 1];
      AttemptedIsPushed(before);
      if IsPush(e) {
        var past := Attempted(before);
        FailuresGrow(past, Attempts(BindAll(past), e.config.p4info));
        FailuresGrow(Pushed(before), Bindings(e.config.p4info));
        AllAttempted(past, e.config.p4info);
      }
    }
  }

  /** Exact capacity of a run: no add has failed so far if and only if no suffix of the table is asked
      for more slots than it has by all the bindings pushed so far, repeats included. */
  lemma {:induction false} RunCapacity(es: seq<Event>)
    ensures Failures(Attempted(es)) == 0 <==> Fits(HomesOf(Pushed(es)), MAX_MAP_SIZE)
  {
    AttemptedIsPushed(es);
    MapCapacity(Pushed(es));
  }

  /** Every id a P4Info declares resolves to what it declares. */
  ghost predicate Agrees(slots: Slots, info: P4Info) {
    forall b :: b in Bindings(info) ==> Resolve(slots, b.key) == Some(b)
  }

  /** In every run, the id map agrees with the current P4Info exactly when each of its bindings was the first
      ever added under its id and found a slot then.  A second push does not replace, and a failed first add
      is final. */
  lemma {:induction false} AgreementIff(deviceId: uint64, es: seq<Event>)
    requires Run(deviceId, es).Some? && LastPush(es).Some?
    ensures var d := Run(deviceId, es).value.0;
            Agrees(d.slots, d.p4info) <==> forall b :: b in Bindings(d.p4info) ==> Established(Attempted(es), b)
  {
    RunFollows(deviceId, es);
    AgreesIffEstablished(Attempted(es), Run(deviceId, es).value.0.p4info);
  }

  lemma {:induction false} AgreesIffEstablished(adds: seq<Entry>, info: P4Info)
    ensures Agrees(BindAll(adds), info) <==> forall b :: b in Bindings(info) ==> Established(adds, b)
  {
    forall b | b in Bindings(info) ensures Resolve(BindAll(adds), b.key) == Some(b) <==> Established(adds, b) {
      EstablishedIff(adds, b);
    }
  }

  /** A push takes hold exactly when every binding it declares is, in the adds before it followed by those it
      attempts, the first under its id, and that add finds a slot. */
  lemma {:induction false} PushTakesHoldIff(past: seq<Entry>, info: P4Info)
    requires LoadP4Info(BindAll(past), info).Some?
    ensures var adds := past + Attempts(BindAll(past), info);
            Agrees(LoadP4Info(BindAll(past), info).value, info) <==>
            forall b :: b in Bindings(info) ==> Established(adds, b)
  {
    LoadIsAdds(past, info);
    AgreesIffEstablished(past + Attempts(BindAll(past), info), info);
  }

  lemma {:induction false} FirstFoundWithoutFailures(es: seq<Entry>, key: uint64)
    requires Failures(es) == 0
    ensures FirstFound(es, key) <==> FirstWith(es, key).Some?
  {
    AllSuccessful(es, key);
    EarliestIffFound(es, key);
  }

  /** While no add has failed, that is: each binding equals the first one ever pushed under its id. */
  lemma {:induction false} AgreementWithoutFailures(deviceId: uint64, es: seq<Event>)
    requires Run(deviceId, es).Some? && LastPush(es).Some? && Failures(Attempted(es)) == 0
    ensures var d := Run(deviceId, es).value.0;
            Agrees(d.slots, d.p4info) <==>
            forall b :: b in Bindings(d.p4info) ==> FirstWith(Pushed(es), b.key) == Some(b)
  {
    AgreementIff(deviceId, es);
    AttemptedIsPushed(es);
    var d := Run(deviceId, es).value.0;
    forall b | b in Bindings(d.p4info)
      ensures Established(Attempted(es), b) <==> FirstWith(Pushed(es), b.key) == Some(b)
    {
      FirstFoundWithoutFailures(Attempted(es), b.key);
    }
  }

  lemma {:induction false} FirstWithConcat(es: seq<Entry>, fs: seq<Entry>, key: uint64)
    ensures FirstWith(es + fs, key) == if FirstWith(es, key).Some? then FirstWith(es, key) else FirstWith(fs, key)
    decreases |fs|
  {
    if fs == [] {
      assert es + fs == es;
    } else {
      assert (es + fs)[..|es + fs| - 1] == es + fs[..|fs| - 1];
      FirstWithConcat(es, fs[..|fs| - 1], key);
    }
  }

  lemma {:induction false} BindingTakesHoldIff(past: seq<Entry>, bs: seq<Entry>, b: Entry)
    requires Failures(past + bs) == 0
    ensures Resolve(BindAll(past + bs), b.key) == Some(b) <==> TakesHold(BindAll(past), bs, b)
  {
    FailuresGrow(past, bs);
    WithoutFailures(past, b.key);
    WithoutFailures(past + bs, b.key);
    FirstWithConcat(past, bs, b.key);
  }

  /** A push without failed adds takes hold exactly when every id it declares is already bound to the same
      meaning, or is new to the map and declared with that meaning first within the push. */
  lemma {:induction false} PushTakesHoldWithoutFailures(past: seq<Entry>, info: P4Info)
    requires InfoFits(info) && Failures(past + Bindings(info)) == 0
    ensures LoadP4Info(BindAll(past), info).Some?
    ensures Agrees(LoadP4Info(BindAll(past), info).value, info) <==>
            forall b :: b in Bindings(info) ==> TakesHold(BindAll(past), Bindings(info), b)
  {
    PushLoads(past, info);
    forall b | b in Bindings(info)
      ensures Resolve(BindAll(past + Bindings(info)), b.key) == Some(b) <==> TakesHold(BindAll(past), Bindings(info), b)
    {
      BindingTakesHoldIff(past, Bindings(info), b);
    }
  }

  /** Whether a binding of a push will hold, judged before the push. */
  predicate TakesHold(slots: Slots, bs: seq<Entry>, b: Entry) {
    || Resolve(slots, b.key) == Some(b)
    || (Resolve(slots, b.key).None? && FirstWith(bs, b.key) == Some(b))
  }

  /** Pushing a table under an id that is taken does not rename it. */
  lemma {:induction false} SecondPushIgnored(first: TableInfo, second: TableInfo)
    requires first.id == second.id && first.name != second.name
    requires ArgsFit(first.matchFields) && ArgsFit(second.matchFields)
    ensures var s1 := Bind(Empty(), TableBinding(first));
            var s2 := Bind(s1, TableBinding(second));
            && LoadTables(Empty(), [first]) == Some(s1)
            && Resolve(s2, second.id) == Some(TableBinding(first))
  {
    var s1 := Bind(Empty(), TableBinding(first));
    FindFromAbsent(Empty(), Home(first.id), first.id);
    assert Reachable(Empty());
    assert Empty()[Home(first.id)] == None;
    ResolveAfterMiss(Empty(), TableBinding(first), first.id);
    ResolveIsStable(s1, TableBinding(second), first.id);
    assert [first][1..] == [];
  }

  /** The last bucket holds `b` in its first `n` slots and nothing in the others. */
  predicate LastBucketHolds(slots: Slots, b: Entry, n: nat) {
    forall j :: Home(b.key) <= j < MAX_MAP_SIZE ==> slots[j] == if j < Home(b.key) + n then Some(b) else None
  }

  lemma {:induction false} LastBucketStep(slots: Slots, b: Entry, n: nat)
    requires Home(b.key) + REDUNDANCY_MAP == MAX_MAP_SIZE && n < REDUNDANCY_MAP && LastBucketHolds(slots, b, n)
    ensures LastBucketHolds(Bind(slots, b), b, n + 1)
  {
    assert slots[Home(b.key) + n] == None;
    assert FreeSlot(slots, b.key) == Home(b.key) + n;
  }

  /** Adds under an id of the last bucket fill its four slots one after the other. */
  lemma {:induction false} LastBucketFills(es: seq<Entry>, b: Entry)
    requires Home(b.key) + REDUNDANCY_MAP == MAX_MAP_SIZE && |es| <= REDUNDANCY_MAP
    requires forall i :: 0 <= i < |es| ==> es[i] == b
    ensures LastBucketHolds(BindAll(es), b, |es|)
  {
    if es != [] {
      var before := es[..|es| - 1];
      LastBucketFills(before, b);
      LastBucketStep(BindAll(before), b, |before|);
    }
  }

  lemma {:induction false} RepeatsOnly(b: Entry, times: nat)
    ensures |Repeat([b], times)| == times
    ensures forall i :: 0 <= i < times ==> Repeat([b], times)[i] == b
  {
    if times > 0 { RepeatsOnly(b, times - 1); }
  }

  /** A failed add need not harm: of five adds of one id of the last bucket the fifth fails, and the id still
      resolves.  And it can: another id of that bucket, added next for the first time, never does. */
  lemma {:induction false} FullBucket(b: Entry, c: Entry)
    requires b.key % MAX_HASH_SIZE == MAX_HASH_SIZE - 1 == c.key % MAX_HASH_SIZE && b.key != c.key
    ensures var es := Repeat([b], REDUNDANCY_MAP + 1);
            && Failures(es) > 0 && Resolve(BindAll(es), b.key) == Some(b)
            && FirstWith(es + [c], c.key) == Some(c) && Resolve(BindAll(es + [c]), c.key) == None
  {
    var times := REDUNDANCY_MAP;
    var four, es := Repeat([b], times), Repeat([b], times + 1);
    RepeatsOnly(b, times);
    RepeatsOnly(b, times + 1);
    LastBucketFills(four, b);
    BindAllSnoc(four, b);
    BindAllSnoc(es, c);
    var slots := BindAll(four);
    assert FreeSlot(slots, b.key) == MAX_MAP_SIZE == FreeSlot(slots, c.key);
    FindFromHits(slots, Home(b.key), Home(b.key), b.key);
    FindFromAbsent(slots, Home(c.key), c.key);
    assert (es + [c])[..|es|] == es;
  }

  /** No id is ever pushed with two meanings. */
  ghost predicate MeaningsAgree(bs: seq<Entry>) {
    forall b, c :: b in bs && c in bs && b.key == c.key ==> b == c
  }

  lemma {:induction false} CurrentIsPushed(es: seq<Event>)
    ensures LastPush(es).Some? ==> forall b :: b in Bindings(LastPush(es).value.config.p4info) ==> b in Pushed(es)
  {
    if es != [] { CurrentIsPushed(es[..|es| - 1]); }
  }

  /** As long as no id changes its meaning and no add fails, the id map agrees with the current P4Info
      in every reachable state. */
  lemma {:induction false} AgreementOverRuns(deviceId: uint64, es: seq<Event>)
    requires Run(deviceId, es).Some? && LastPush(es).Some?
    requires Failures(Attempted(es)) == 0 && MeaningsAgree(Pushed(es))
    ensures Agrees(Run(deviceId, es).value.0.slots, LastPush(es).value.config.p4info)
  {
    RunFollows(deviceId, es);
    AgreementWithoutFailures(deviceId, es);
    CurrentIsPushed(es);
    forall b | b in Bindings(LastPush(es).value.config.p4info) ensures FirstWith(Pushed(es), b.key) == Some(b) {
      var r := FirstWith(Pushed(es), b.key);
      assert b in Pushed(es);
    }
  }

  // ---- Loading into an empty map

  predicate InfoFits(info: P4Info) {
    && (forall i :: 0 <= i < |info.tables| ==> ArgsFit(info.tables[i].matchFields))
    && (forall i :: 0 <= i < |info.actions| ==> ArgsFit(info.actions[i].params))
  }

  lemma {:induction false} TablesLoad(slots: Slots, ts: seq<TableInfo>)
    requires forall i :: 0 <= i < |ts| ==> ArgsFit(ts[i].matchFields)
    ensures LoadTables(slots, ts).Some?
    decreases |ts|
  {
    if ts != [] { TablesLoad(Bind(slots, TableBinding(ts[0])), ts[1..]); }
  }

  lemma {:induction false} ActionsLoad(past: seq<Entry>, xs: seq<ActionInfo>)
    requires forall i :: 0 <= i < |xs| ==> ArgsFit(xs[i].params)
    requires Failures(past + ActionBindings(xs)) == 0
    ensures LoadActions(BindAll(past), xs).Some?
    decreases |xs|
  {
    if xs != [] {
      var b := ActionBinding(xs[0]);
      BindAllSnoc(past, b);
      ConcatAssociative(past, [b], ActionBindings(xs[1..]));
      FailuresGrow(past + [b], ActionBindings(xs[1..]));
      ActionsLoad(past + [b], xs[1..]);
    }
  }

  /** A push goes through, on any map, when its arguments fit and none of its adds fails. */
  lemma {:induction false} PushLoads(past: seq<Entry>, info: P4Info)
    requires InfoFits(info) && Failures(past + Bindings(info)) == 0
    ensures LoadP4Info(BindAll(past), info) == Some(BindAll(past + Bindings(info)))
  {
    var ts, xs, cs := TableBindings(info.tables), ActionBindings(info.actions), CounterBindings(info.counters);
    AllAttempted(past, info);
    TablesLoad(BindAll(past), info.tables);
    TablesAreAdds(past, info.tables);
    ConcatAssociative(past, ts, xs + cs);
    ConcatAssociative(ts, xs, cs);
    FailuresGrow(past + ts, xs + cs);
    TablesAllAttempted(past, info.tables);
    ConcatAssociative(past + ts, xs, cs);
    FailuresGrow(past + ts + xs, cs);
    ActionsLoad(past + ts, info.actions);
    LoadIsAdds(past, info);
  }

  // ---- When a push is defined

  /** The loop over the tables gets through table `k`: no add has failed up to and including it. */
  predicate TableReached(past: seq<Entry>, ts: seq<TableInfo>, k: nat)
    requires k < |ts|
  {
    TableCount(ts);
    Failures(past + TableBindings(ts)[..k + 1]) == Failures(past)
  }

  lemma {:induction false} ReachedAfterFirst(past: seq<Entry>, ts: seq<TableInfo>, k: nat)
    requires k < |ts|
    ensures var b := TableBinding(ts[0]);
            TableReached(past, ts, k) <==>
            FreeSlot(BindAll(past), b.key) < MAX_MAP_SIZE && (k > 0 ==> TableReached(past + [b], ts[1..], k - 1))
  {
    var b, rest := TableBinding(ts[0]), TableBindings(ts[1..]);
    TableCount(ts);
    BindAllSnoc(past, b);
    assert TableBindings(ts)[..k + 1] == [b] + rest[..k];
    ConcatAssociative(past, [b], rest[..k]);
    FailuresGrow(past + [b], rest[..k]);
    if k == 0 { assert past + [b] + [] == past + [b]; }
  }

  /** The tables of a push are loaded without undefined behaviour exactly when every table that is reached
      has arguments that fit. */
  lemma {:induction false} TablesDefinedIff(past: seq<Entry>, ts: seq<TableInfo>)
    ensures LoadTables(BindAll(past), ts).Some? <==>
            forall k: nat :: k < |ts| && TableReached(past, ts, k) ==> ArgsFit(ts[k].matchFields)
    decreases |ts|
  {
    if ts != [] {
      var b := TableBinding(ts[0]);
      BindAllSnoc(past, b);
      TablesDefinedIff(past + [b], ts[1..]);
      forall k: nat | k < |ts|
        ensures TableReached(past, ts, k) <==>
                FreeSlot(BindAll(past), b.key) < MAX_MAP_SIZE && (k > 0 ==> TableReached(past + [b], ts[1..], k - 1))
      {
        ReachedAfterFirst(past, ts, k);
      }
      assert forall k: nat :: k < |ts| - 1 ==> ts[1..][k] == ts[k + 1];
      if FreeSlot(BindAll(past), b.key) < MAX_MAP_SIZE {
        assert TableReached(past, ts, 0);
        forall k: nat | k < |ts| - 1
          ensures TableReached(past, ts, k + 1) <==> TableReached(past + [b], ts[1..], k)
        {
          ReachedAfterFirst(past, ts, k + 1);
        }
      }
    }
  }

  /** Action `k` has arguments that fit, and finds a slot if it has any. */
  predicate ActionFits(past: seq<Entry>, xs: seq<ActionInfo>, k: nat)
    requires k < |xs|
  {
    ActionCount(xs);
    && ArgsFit(xs[k].params)
    && (xs[k].params == [] || FreeSlot(BindAll(past + ActionBindings(xs)[..k]), xs[k].id) < MAX_MAP_SIZE)
  }

  lemma {:induction false} ActionFitsAfterFirst(past: seq<Entry>, xs: seq<ActionInfo>, k: nat)
    requires 0 < k < |xs|
    ensures ActionFits(past, xs, k) <==> ActionFits(past + [ActionBinding(xs[0])], xs[1..], k - 1)
  {
    var b, rest := ActionBinding(xs[0]), ActionBindings(xs[1..]);
    ActionCount(xs);
    ActionCount(xs[1..]);
    assert ActionBindings(xs)[..k] == [b] + rest[..k - 1];
    ConcatAssociative(past, [b], rest[..k - 1]);
  }

  /** The actions of a push are loaded without undefined behaviour exactly when each of them fits. */
  lemma {:induction false} ActionsDefinedIff(past: seq<Entry>, xs: seq<ActionInfo>)
    ensures LoadActions(BindAll(past), xs).Some? <==> forall k: nat :: k < |xs| ==> ActionFits(past, xs, k)
    decreases |xs|
  {
    if xs != [] {
      var b := ActionBinding(xs[0]);
      BindAllSnoc(past, b);
      ActionsDefinedIff(past + [b], xs[1..]);
      ActionCount(xs);
      assert past + ActionBindings(xs)[..0] == past;
      forall k: nat | k < |xs| - 1 ensures ActionFits(past, xs, k + 1) <==> ActionFits(past + [b], xs[1..], k) {
        ActionFitsAfterFirst(past, xs, k + 1);
      }
      if forall k: nat :: k < |xs| ==> ActionFits(past, xs, k) {
        assert ActionFits(past, xs, 0);
        forall k: nat | k < |xs| - 1 ensures ActionFits(past + [b], xs[1..], k) {
          assert ActionFits(past, xs, k + 1);
        }
      } else {
        var k: nat :| k < |xs| && !ActionFits(past, xs, k);
        if k > 0 { assert !ActionFits(past + [b], xs[1..], k - 1); }
      }
    }
  }

  /** A push is free of undefined behaviour if and only if the arguments fit of every table reached before
      the first failed add, and of every action, and every action with parameters finds a slot. */
  lemma {:induction false} PushDefinedIff(past: seq<Entry>, info: P4Info)
    ensures LoadP4Info(BindAll(past), info).Some? <==>
            && (forall k: nat :: k < |info.tables| && TableReached(past, info.tables, k) ==>
                  ArgsFit(info.tables[k].matchFields))
            && (forall k: nat :: k < |info.actions| ==>
                  ActionFits(past + AttemptedTables(BindAll(past), info.tables), info.actions, k))
  {
    TablesDefinedIff(past, info.tables);
    if LoadTables(BindAll(past), info.tables).Some? {
      TablesAreAdds(past, info.tables);
      ActionsDefinedIff(past + AttemptedTables(BindAll(past), info.tables), info.actions);
    }
  }

  /** The limits of an element: ten arguments, whose names leave room for the terminating zero in fifty
      characters.  A first push of a single table goes through exactly within them. */
  lemma {:induction false} OneTableDefinedIff(t: TableInfo)
    ensures LoadP4Info(Empty(), P4Info([t], [], [], [])).Some? <==>
            |t.matchFields| <= 10 && forall a :: a in t.matchFields ==> |a.name| + 1 <= 50
  {
    var ts := [t];
    assert ts[1..] == [];
    assert Empty()[Home(t.id)] == None;
    assert LoadTables(Empty(), ts).Some? <==> ArgsFit(t.matchFields);
  }

  // ---- First pushes

  ghost predicate DistinctIds(bs: seq<Entry>) {
    forall i, j :: 0 <= i < j < |bs| ==> bs[i].key != bs[j].key
  }

  /** A first configuration with distinct ids, arguments that fit and homes within capacity loads, and
      afterwards every declared id resolves to its name and arguments. */
  lemma {:induction false} FirstPushIsFaithful(info: P4Info)
    requires InfoFits(info) && DistinctIds(Bindings(info))
    requires Fits(HomesOf(Bindings(info)), MAX_MAP_SIZE)
    ensures LoadP4Info(Empty(), info).Some? && Agrees(LoadP4Info(Empty(), info).value, info)
  {
    var bs := Bindings(info);
    MapCapacity(bs);
    assert [] + bs == bs;
    PushLoads([], info);
    forall b | b in bs ensures Resolve(BindAll(bs), b.key) == Some(b) {
      WithoutFailures(bs, b.key);
      DistinctIsFirst(bs, b);
    }
  }

  lemma {:induction false} DistinctIsFirst(bs: seq<Entry>, b: Entry)
    requires DistinctIds(bs) && b in bs
    ensures FirstWith(bs, b.key) == Some(b)
  {
    var r := FirstWith(bs, b.key).value;
    var i, j :| 0 <= i < |bs| && 0 <= j < |bs| && bs[i] == b && bs[j] == r;
  }

  /** Arguments with distinct ids are found under their ids. */
  lemma {:induction false} ArgumentsResolve(args: seq<Argument>, i: nat)
    requires i < |args| && forall j :: 0 <= j < i ==> args[j].id != args[i].id
    ensures FindArg(args, args[i].id) == Some(args[i])
  {
    if i > 0 {
      assert forall j :: 0 <= j < i - 1 ==> args[1..][j] == args[j + 1];
      ArgumentsResolve(args[1..], i - 1);
    }
  }

  ghost predicate AllResolve(slots: Slots, bs: seq<Entry>) {
    forall b :: b in bs ==> Resolve(slots, b.key) == Some(b)
  }

  ghost predicate TablesMeanDeclared(slots: Slots, ts: seq<TableInfo>) {
    forall i :: 0 <= i < |ts| ==> Resolve(slots, ts[i].id) == Some(Entry(ts[i].id, ts[i].name, ts[i].matchFields))
  }

  ghost predicate ActionsMeanDeclared(slots: Slots, xs: seq<ActionInfo>) {
    forall i :: 0 <= i < |xs| ==> Resolve(slots, xs[i].id) == Some(Entry(xs[i].id, xs[i].name, xs[i].params))
  }

  ghost predicate CountersMeanDeclared(slots: Slots, cs: seq<CounterInfo>) {
    forall i :: 0 <= i < |cs| ==> Resolve(slots, cs[i].id) == Some(Entry(cs[i].id, cs[i].name, []))
  }

  lemma {:induction false} TablesResolveIff(slots: Slots, ts: seq<TableInfo>)
    ensures AllResolve(slots, TableBindings(ts)) <==> TablesMeanDeclared(slots, ts)
  {
    if ts != [] {
      TablesResolveIff(slots, ts[1..]);
      var b := Entry(ts[0].id, ts[0].name, ts[0].matchFields);
      assert TableBindings(ts) == [b] + TableBindings(ts[1..]);
      assert TablesMeanDeclared(slots, ts) <==>
             Resolve(slots, b.key) == Some(b) && TablesMeanDeclared(slots, ts[1..]) by {
        assert forall i :: 0 < i < |ts| ==> ts[i] == ts[1..][i - 1];
      }
    }
  }

  lemma {:induction false} ActionsResolveIff(slots: Slots, xs: seq<ActionInfo>)
    ensures AllResolve(slots, ActionBindings(xs)) <==> ActionsMeanDeclared(slots, xs)
  {
    if xs != [] {
      ActionsResolveIff(slots, xs[1..]);
      var b := Entry(xs[0].id, xs[0].name, xs[0].params);
      assert ActionBindings(xs) == [b] + ActionBindings(xs[1..]);
      assert ActionsMeanDeclared(slots, xs) <==>
             Resolve(slots, b.key) == Some(b) && ActionsMeanDeclared(slots, xs[1..]) by {
        assert forall i :: 0 < i < |xs| ==> xs[i] == xs[1..][i - 1];
      }
    }
  }

  lemma {:induction false} CountersResolveIff(slots: Slots, cs: seq<CounterInfo>)
    ensures AllResolve(slots, CounterBindings(cs)) <==> CountersMeanDeclared(slots, cs)
  {
    if cs != [] {
      CountersResolveIff(slots, cs[1..]);
      var b := Entry(cs[0].id, cs[0].name, []);
      assert CounterBindings(cs) == [b] + CounterBindings(cs[1..]);
      assert CountersMeanDeclared(slots, cs) <==>
             Resolve(slots, b.key) == Some(b) && CountersMeanDeclared(slots, cs[1..]) by {
        assert forall i :: 0 < i < |cs| ==> cs[i] == cs[1..][i - 1];
      }
    }
  }

  /** Agreement with a P4Info, in terms of the message: every table id resolves to the declared name and match fields,
      every action id to the declared name and parameters, and every counter id to the declared name. */
  lemma {:induction false} AgreesIffMeansDeclared(slots: Slots, info: P4Info)
    ensures Agrees(slots, info) <==>
            && TablesMeanDeclared(slots, info.tables)
            && ActionsMeanDeclared(slots, info.actions)
            && CountersMeanDeclared(slots, info.counters)
  {
    TablesResolveIff(slots, info.tables);
    ActionsResolveIff(slots, info.actions);
    CountersResolveIff(slots, info.counters);
    var ts, xs, cs := TableBindings(info.tables), ActionBindings(info.actions), CounterBindings(info.counters);
    assert forall b :: b in Bindings(info) <==> b in ts || b in xs || b in cs;
  }

  /** In terms of the message: after such a push every declared id resolves to what the message declares. */
  lemma {:induction false} FirstPushOnFields(info: P4Info)
    requires InfoFits(info) && DistinctIds(Bindings(info))
    requires Fits(HomesOf(Bindings(info)), MAX_MAP_SIZE)
    ensures LoadP4Info(Empty(), info).Some?
    ensures var slots := LoadP4Info(Empty(), info).value;
            && TablesMeanDeclared(slots, info.tables)
            && ActionsMeanDeclared(slots, info.actions)
            && CountersMeanDeclared(slots, info.counters)
  {
    FirstPushIsFaithful(info);
    AgreesIffMeansDeclared(LoadP4Info(Empty(), info).value, info);
  }

  /** And a match field or parameter whose id is not declared earlier in its table or action is found there with its
      declared name and bit width. */
  lemma {:induction false} FirstPushFindsArguments(info: P4Info, i: nat, j: nat)
    requires InfoFits(info) && DistinctIds(Bindings(info))
    requires Fits(HomesOf(Bindings(info)), MAX_MAP_SIZE)
    ensures LoadP4Info(Empty(), info).Some?
    ensures var slots := LoadP4Info(Empty(), info).value;
            && (i < |info.tables| && j < |info.tables[i].matchFields| ==>
                  var fields := info.tables[i].matchFields;
                  (forall k :: 0 <= k < j ==> fields[k].id != fields[j].id) ==>
                    && Resolve(slots, info.tables[i].id).Some?
                    && FindArg(Resolve(slots, info.tables[i].id).value.args, fields[j].id)
                       == Some(Argument(fields[j].id, fields[j].name, fields[j].bitwidth)))
            && (i < |info.actions| && j < |info.actions[i].params| ==>
                  var params := info.actions[i].params;
                  (forall k :: 0 <= k < j ==> params[k].id != params[j].id) ==>
                    && Resolve(slots, info.actions[i].id).Some?
                    && FindArg(Resolve(slots, info.actions[i].id).value.args, params[j].id)
                       == Some(Argument(params[j].id, params[j].name, params[j].bitwidth)))
  {
    FirstPushOnFields(info);
    if i < |info.tables| && j < |info.tables[i].matchFields| {
      var fields := info.tables[i].matchFields;
      if forall k :: 0 <= k < j ==> fields[k].id != fields[j].id { ArgumentsResolve(fields, j); }
    }
    if i < |info.actions| && j < |info.actions[i].params| {
      var params := info.actions[i].params;
      if forall k :: 0 <= k < j ==> params[k].id != params[j].id { ArgumentsResolve(params, j); }
    }
  }

  // ---- Pushing the same configuration again

  lemma {:induction false} HomesOfConcat(es: seq<Entry>, fs: seq<Entry>)
    ensures HomesOf(es + fs) == HomesOf(es) + HomesOf(fs)
  {
    var ls, rs := HomesOf(es + fs), HomesOf(es) + HomesOf(fs);
    forall k | 0 <= k < |ls| ensures ls[k] == rs[k] {
      assert (es + fs)[k] == if k < |es| then es[k] else fs[k - |es|];
    }
  }

  lemma {:induction false} HomesOfRepeat(bs: seq<Entry>, times: nat)
    ensures HomesOf(Repeat(bs, times)) == Repeat(HomesOf(bs), times)
  {
    if times > 0 {
      HomesOfRepeat(bs, times - 1);
      HomesOfConcat(Repeat(bs, times - 1), bs);
    }
  }

  lemma {:induction false} PushedRepeat(push: Event, times: nat)
    requires IsPush(push)
    ensures Pushed(Repeat([push], times)) == Repeat(Bindings(push.config.p4info), times)
  {
    if times > 0 {
      var es := Repeat([push], times);
      assert es[..|es| - 1] == Repeat([push], times - 1);
      PushedRepeat(push, times - 1);
    }
  }

  /** Each push of the same configuration takes new slots.  `times` pushes go through without a failed
      add exactly when every suffix of the table could take its share that often. */
  lemma {:induction false} RepushCapacity(push: Event, times: nat)
    requires IsPush(push)
    ensures Failures(Attempted(Repeat([push], times))) == 0
            <==> FitsTimes(HomesOf(Bindings(push.config.p4info)), MAX_MAP_SIZE, times)
  {
    var bs := Bindings(push.config.p4info);
    RunCapacity(Repeat([push], times));
    PushedRepeat(push, times);
    HomesOfRepeat(bs, times);
    FitsRepeat(HomesOf(bs), MAX_MAP_SIZE, times);
  }

  /** So a configuration that declares anything at all cannot be pushed for ever. */
  lemma {:induction false} RepushEventuallyFails(push: Event, times: nat)
    requires IsPush(push) && Bindings(push.config.p4info) != [] && times > MAX_MAP_SIZE
    ensures Failures(Attempted(Repeat([push], times))) > 0
  {
    RepushCapacity(push, times);
    NotForEver(HomesOf(Bindings(push.config.p4info)), MAX_MAP_SIZE, times);
  }
}
