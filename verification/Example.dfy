/** One request on concrete data, from the first push to the call into the switch. */
module Example {
  import opened Basics
  import opened IdMapSpec
  import opened Buckets
  import opened Messages
  import opened RequestTheorems
  import opened Runs
  import opened RunTheorems
  import opened Generator
  import opened Dispatcher
  import opened EndToEnd

  // ---- The data

  function FirstField(): Argument { Argument(1, "eth.addr", 8) }
  function SecondField(): Argument { Argument(2, "ip.addr", 8) }
  function Port(): Argument { Argument(1, "port", 9) }

  /** The P4Info declares the table and the action, and nothing else for the id map. */
  predicate IsInfo(info: P4Info) {
    && info.tables == [TableInfo(1, "t", [FirstField(), SecondField()])]
    && info.actions == [ActionInfo(2, "forward", [Port()])]
    && info.counters == []
  }

  /** Two fields of one name in two headers. */
  function EthAddr(): KeyElement { Field("eth", "addr", 8, false, ExactMatch) }
  function IpAddr(): KeyElement { Field("ip", "addr", 8, false, ExactMatch) }
  function Forward(): ActionDecl { ActionDecl("forward_1", "ingress.forward", [ParamDecl("port", 9)]) }
  function SwitchTable(): Table { Table("t", ExactTable, 2, [EthAddr(), IpAddr()], [Forward()]) }

  function Request(x: uint8, y: uint8, port: bytes): TableEntry {
    TableEntry(1, [FieldMatch(1, Exact([x])), FieldMatch(2, Exact([y]))], DirectAction(2, [Param(1, port)]), false)
  }

  // ---- The switch takes the request

  lemma {:induction false} KeyOfRequest(ms: seq<FieldMatch>, x: uint8, y: uint8)
    requires |ms| == 2 && ms[0].kind == Exact([x]) && ms[1].kind == Exact([y])
    ensures InKeyOrder([EthAddr(), IpAddr()], ms)
    ensures RequestBytes([EthAddr(), IpAddr()], ms, ExactMatch) == [x, y]
    ensures RequestBytes([EthAddr(), IpAddr()], ms, LpmMatch) == []
  {
    FirstByte(EthAddr(), ms, x);
    assert [EthAddr()] + [IpAddr()] == [EthAddr(), IpAddr()];
    RequestSnoc([EthAddr()], IpAddr(), ms);
    var value: bytes := [y];
    assert value[..1] == value;
  }

  lemma {:induction false} KeyFits()
    ensures DistinctNames(SwitchTable().elements) && Sortable(SwitchTable().elements)
    ensures TotalWidth(SwitchTable().elements) == 2
  {
    NamesSeparate(EthAddr(), IpAddr());
    var es := SwitchTable().elements;
    assert es[..1] == [EthAddr()];
    assert es[..1][..0] == [];
  }

  lemma {:induction false} ActionIsFound()
    ensures FindAction(SwitchTable().actions, "forward") == Some(Forward())
  {
    LastSegmentAfterDot("ingress", "forward");
    assert "ingress" + "." + "forward" == "ingress.forward";
  }

  /** The nine bits of the port are copied from two bytes. */
  lemma {:induction false} PortIsCopied(port: bytes)
    requires |port| == 2
    ensures ParamsFit(Forward().params, [Param(1, port)])
    ensures RequestParams(Forward().params, [Param(1, port)], [Port()]) == [port]
  {
    var ps, params := Forward().params, [Param(1, port)];
    ParamWidthIsLeast(ps[0]);
    assert ps[..0] == [];
    assert FindArg([Port()], 1) == Some(Port());
    assert port[..2] == port;
  }

  // ---- The agent takes the push

  lemma {:induction false} TwoBindingsFit(bs: seq<Entry>)
    requires |bs| == 2 && bs[0].key == 1 && bs[1].key == 2
    ensures Failures(bs) == 0
  {
    forall r: nat ensures Residents(bs, r) <= REDUNDANCY_MAP {
      ResidentsSnoc([], bs[0], r);
      ResidentsSnoc([bs[0]], bs[1], r);
      assert [] + [bs[0]] == [bs[0]] && [bs[0]] + [bs[1]] == bs;
    }
    BucketBound(bs);
  }

  lemma {:induction false} FirstPushRuns(deviceId: uint64, push: Event)
    requires IsPush(push) && InfoFits(push.config.p4info) && Failures(Bindings(push.config.p4info)) == 0
    ensures Run(deviceId, [push]).Some? && Run(deviceId, [push]).value.1 == []
    ensures LastPush([push]) == Some(push)
    ensures Pushed([push]) == Bindings(push.config.p4info) && Failures(Attempted([push])) == 0
  {
    var es, bs := [push], Bindings(push.config.p4info);
    assert es[..0] == [];
    assert [] + bs == bs;
    PushLoads([], push.config.p4info);
    AttemptedIsPushed(es);
  }

  lemma {:induction false} InfoBindings(info: P4Info)
    requires IsInfo(info)
    ensures InfoFits(info) && Failures(Bindings(info)) == 0 && MeaningsAgree(Bindings(info))
  {
    BindingsAreDeclared(info);
    TwoBindingsFit(Bindings(info));
  }

  lemma {:induction false} RequestIsDeclared(info: P4Info, x: uint8, y: uint8, port: bytes)
    requires IsInfo(info)
    ensures DeclaredInsert(info, 0, 0, Request(x, y, port))
    ensures Implemented(Request(x, y, port).matches) == Request(x, y, port).matches
  {
    assert Declares(info.tables[0].matchFields, 1) by { assert info.tables[0].matchFields[0].id == 1; }
    assert Declares(info.tables[0].matchFields, 2) by { assert info.tables[0].matchFields[1].id == 2; }
    assert Declares(info.actions[0].params, 1) by { assert info.actions[0].params[0].id == 1; }
  }

  lemma {:induction false} CallOfRequest(ms: seq<FieldMatch>, x: uint8, y: uint8, action: ActionValue)
    requires |ms| == 2 && ms[0].kind == Exact([x]) && ms[1].kind == Exact([y])
    ensures InKeyOrder(SwitchTable().elements, ms)
    ensures RequestPromotes(SwitchTable(), ms, action) == [ExactAdd("t", [x, y], action)]
  {
    KeyOfRequest(ms, x, y);
    var key: bytes := [x, y];
    assert key + [] == key;
  }

  lemma {:induction false} InsertAfterPush(deviceId: uint64, es: seq<Event>, x: uint8, y: uint8, port: bytes,
                                           ts: seq<Table>, junk: Junk, buffer: bytes)
    requires Run(deviceId, es).Some? && Run(deviceId, es).value.1 == []
    requires LastPush(es).Some? && IsInfo(LastPush(es).value.config.p4info)
    requires IdsEstablished(Attempted(es), LastPush(es).value.config.p4info, 0, 0)
    requires Generated(ts, buffer) && FindTable(ts, "t") == Some(SwitchTable()) && |port| == 2
    ensures var run := Run(deviceId, es + [InsertRequest(Request(x, y, port))]);
            && run.Some?
            && exists msg ::
                 && run.value.1 == [Callback(msg)]
                 && Recv(ts, msg, junk, buffer) == Some([ExactAdd("t", [x, y], ActionValue("forward_1", [port]))])
  {
    var te, t := Request(x, y, port), SwitchTable();
    KeyFits();
    ActionIsFound();
    PortIsCopied(port);
    RequestIsDeclared(LastPush(es).value.config.p4info, x, y, port);
    CallOfRequest(te.matches, x, y, ActionValue("forward_1", [port]));
    RunInsertPromotesOnce(deviceId, es, 0, 0, ts, t, Forward(), te, junk, buffer);
    var run := Run(deviceId, es + [InsertRequest(te)]);
    var none: seq<Effect> := [];
    var msg :| run.value.1 == none + [Callback(msg)]
               && Recv(ts, msg, junk, buffer) == Some([ExactAdd("t", [x, y], ActionValue("forward_1", [port]))]);
    assert none + [Callback(msg)] == [Callback(msg)];
  }

  lemma {:induction false} EstablishedAfterPush(deviceId: uint64, push: Event)
    requires IsPush(push) && IsInfo(push.config.p4info)
    ensures Run(deviceId, [push]).Some? && Run(deviceId, [push]).value.1 == [] && LastPush([push]) == Some(push)
    ensures IdsEstablished(Attempted([push]), push.config.p4info, 0, 0)
  {
    InfoBindings(push.config.p4info);
    FirstPushRuns(deviceId, push);
    StableIdsEstablished(deviceId, [push], 0, 0);
  }

  lemma {:induction false} SwitchIsGenerated(buffer: bytes)
    requires |buffer| == 2
    ensures Generated([SwitchTable()], buffer) && FindTable([SwitchTable()], "t") == Some(SwitchTable())
  {
    KeyFits();
    assert [SwitchTable()][1..] == [];
  }

  /** A fresh agent gets the configuration and then the insert.  It calls back once, and the generated code puts the
      two values into the key in their order, although the two fields have one name, and copies both bytes of the
      nine-bit port. */
  lemma {:induction false} InsertReachesSwitch(deviceId: uint64, push: Event, x: uint8, y: uint8, port: bytes,
                                               junk: Junk, buffer: bytes)
    requires IsPush(push) && IsInfo(push.config.p4info) && |port| == 2 && |buffer| == 2
    ensures var run := Run(deviceId, [push] + [InsertRequest(Request(x, y, port))]);
            && run.Some?
            && exists msg ::
                 && run.value.1 == [Callback(msg)]
                 && Recv([SwitchTable()], msg, junk, buffer)
                    == Some([ExactAdd("t", [x, y], ActionValue("forward_1", [port]))])
  {
    EstablishedAfterPush(deviceId, push);
    SwitchIsGenerated(buffer);
    InsertAfterPush(deviceId, [push], x, y, port, [SwitchTable()], junk, buffer);
  }
}
