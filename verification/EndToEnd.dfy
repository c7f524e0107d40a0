/** From a table insert in a write request to the call the generated code makes into the switch. */
module EndToEnd {
  import opened Basics
  import opened IdMapSpec
  import opened IdMapTheorems
  import opened Messages
  import opened DeviceSpec
  import opened RequestTheorems
  import opened Runs
  import opened RunTheorems
  import opened Generator
  import opened GeneratorTheorems
  import opened Dispatcher

  // ---- What a request asks for

  predicate DistinctNames(es: seq<KeyElement>) {
    forall i, j :: 0 <= i < j < |es| && es[i].Field? && es[j].Field? ==> VarName(es[i]) != VarName(es[j])
  }

  /** A match of the kind the code generated for a field reads; a special reads none. */
  predicate KindFits(k: KeyElement, m: FieldMatch) {
    k.Field? ==> (k.matchType.ExactMatch? && m.kind.Exact?) || (k.matchType.LpmMatch? && m.kind.Lpm?)
  }

  /** Every field finds a match of its kind at its position. */
  predicate KindsInOrder(es: seq<KeyElement>, ms: seq<FieldMatch>) {
    forall i :: 0 <= i < |es| && es[i].Field? ==> i < |ms| && KindFits(es[i], ms[i])
  }

  /** The matches of a request are in the order of the key elements, those of the fields with enough bytes.
      There may be any matches at the positions of specials and beyond the key. */
  predicate InKeyOrder(es: seq<KeyElement>, ms: seq<FieldMatch>) {
    KindsInOrder(es, ms) && forall i :: 0 <= i < |es| && es[i].Field? ==> ByteWidth(es[i]) <= |ms[i].kind.value|
  }

  /** The request's values for the fields of one match type, concatenated. */
  function RequestBytes(es: seq<KeyElement>, ms: seq<FieldMatch>, t: MatchType): bytes
    requires InKeyOrder(es, ms)
  {
    if es == [] then [] else
    var n := |es| - 1;
    var before := RequestBytes(es[..n], ms, t);
    if es[n].Field? && es[n].matchType == t then before + ms[n].kind.value[..ByteWidth(es[n])] else before
  }

  /** Exact fields by their bytes, LPM fields by the prefix lengths of the request. */
  function RequestDepth(es: seq<KeyElement>, ms: seq<FieldMatch>): int
    requires InKeyOrder(es, ms)
  {
    if es == [] then 0 else
    var n := |es| - 1;
    RequestDepth(es[..n], ms) + if es[n].Special? then 0 else FieldDepth(es[n], ms[n])
  }

  function FieldDepth(k: KeyElement, m: FieldMatch): int
    requires k.Field? && KindFits(k, m)
  {
    if k.matchType.ExactMatch? then ByteWidth(k) else m.kind.prefixLen
  }

  /** What a table insert is to lead to: one call for an exact or LPM table, none for a table of another kind. */
  function RequestPromotes(t: Table, ms: seq<FieldMatch>, action: ActionValue): (calls: seq<Promote>)
    requires InKeyOrder(t.elements, ms)
    ensures |calls| == if t.kind.OtherTable? then 0 else 1
  {
    var key := RequestBytes(t.elements, ms, ExactMatch) + RequestBytes(t.elements, ms, LpmMatch);
    match t.kind
    case ExactTable => [ExactAdd(t.name, key, action)]
    case LpmTable => [LpmAdd(t.name, Reverse(key), RequestDepth(t.elements, ms) % TWO_TO_THE_8, action)]
    case OtherTable => []
  }

  predicate ParamsFit(ps: seq<ParamDecl>, params: seq<Param>) {
    && |ps| <= |params|
    && forall j :: 0 <= j < |ps| ==> ParamBytes(ps[j]) <= |params[j].value|
  }

  /** The parameters of the request, by position, as the switch stores them. */
  function RequestParams(ps: seq<ParamDecl>, params: seq<Param>, args: seq<Argument>): seq<bytes>
    requires ParamsFit(ps, params)
    requires forall i :: 0 <= i < |params| ==> FindArg(args, params[i].paramId).Some?
  {
    if ps == [] then [] else
    var j := |ps| - 1;
    RequestParams(ps[..j], params, args)
    + [ParamBitmap(FindArg(args, params[j].paramId).value.name, params[j].value)[..ParamBytes(ps[j])]]
  }

  // ---- The fields reach the generated function

  /** The argument the generated code sees for a match. */
  function ArgOf(m: FieldMatch): FieldArg
    requires m.kind.Exact? || m.kind.Lpm?
  {
    FieldArg(m.kind.value, if m.kind.Lpm? then m.kind.prefixLen % TWO_TO_THE_8 else 0)
  }

  ghost predicate Carries(env: Env, es: seq<KeyElement>, ms: seq<FieldMatch>)
    requires KindsInOrder(es, ms)
  {
    forall i :: 0 <= i < |es| && es[i].Field? ==> VarName(es[i]) in env && env[VarName(es[i])] == ArgOf(ms[i])
  }

  /** Rules generated from the matches. */
  predicate RulesOf(rules: seq<MatchRule>, ms: seq<FieldMatch>) {
    |rules| == |ms| && forall i :: 0 <= i < |ms| ==> KindOf(rules[i]) == ms[i].kind
  }

  lemma {:induction false} OnlyFieldsAreBound(es: seq<KeyElement>, rules: seq<MatchRule>)
    requires BindFields(es, rules).Some?
    ensures forall x :: x in BindFields(es, rules).value ==>
              exists i :: 0 <= i < |es| && es[i].Field? && x == VarName(es[i])
  {
    if es != [] { OnlyFieldsAreBound(es[..|es| - 1], rules); }
  }

  lemma {:induction false} LastFieldIsBound(es: seq<KeyElement>, rules: seq<MatchRule>, m: FieldMatch)
    requires es != [] && BindFields(es[..|es| - 1], rules).Some?
    requires var n := |es| - 1; es[n].Field? && n < |rules| && KindFits(es[n], m) && KindOf(rules[n]) == m.kind
    ensures BindFields(es, rules)
            == Some(BindFields(es[..|es| - 1], rules).value[VarName(es[|es| - 1]) := ArgOf(m)])
  {
  }

  lemma {:induction false} CarriesSnoc(env: Env, es: seq<KeyElement>, ms: seq<FieldMatch>)
    requires es != [] && KindsInOrder(es, ms) && DistinctNames(es) && Carries(env, es[..|es| - 1], ms)
    ensures var k := es[|es| - 1];
            Carries(if k.Field? then env[VarName(k) := ArgOf(ms[|es| - 1])] else env, es, ms)
  {
    var n := |es| - 1;
    forall i | 0 <= i < n && es[i].Field?
      ensures VarName(es[i]) in env && env[VarName(es[i])] == ArgOf(ms[i])
      ensures es[n].Field? ==> VarName(es[i]) != VarName(es[n])
    {
      assert es[..n][i] == es[i];
    }
  }

  lemma {:induction false} FieldsAreBound(es: seq<KeyElement>, ms: seq<FieldMatch>, rules: seq<MatchRule>)
    requires KindsInOrder(es, ms) && DistinctNames(es) && RulesOf(rules, ms)
    ensures BindFields(es, rules).Some? && Carries(BindFields(es, rules).value, es, ms)
    ensures forall x :: x in BindFields(es, rules).value ==>
              exists i :: 0 <= i < |es| && es[i].Field? && x == VarName(es[i])
  {
    if es != [] {
      var n := |es| - 1;
      FieldsAreBound(es[..n], ms, rules);
      CarriesSnoc(BindFields(es[..n], rules).value, es, ms);
      if es[n].Field? { LastFieldIsBound(es, rules, ms[n]); }
    }
    OnlyFieldsAreBound(es, rules);
  }

  lemma CarriesSupplies(env: Env, es: seq<KeyElement>, ms: seq<FieldMatch>)
    requires KindsInOrder(es, ms) && Carries(env, es, ms)
    ensures AllSupplied(es, env) <==> InKeyOrder(es, ms)
  {
  }

  lemma {:induction false} SelectedBytes(env: Env, es: seq<KeyElement>, ms: seq<FieldMatch>, t: MatchType)
    requires InKeyOrder(es, ms) && Carries(env, es, ms) && AllSupplied(es, env) && AllSupplied(Select(es, t), env)
    ensures Concat(Select(es, t), env) == RequestBytes(es, ms, t)
  {
    if es != [] {
      var n := |es| - 1;
      SelectSupplied(es[..n], t, env);
      SelectedBytes(env, es[..n], ms, t);
      var before := Select(es[..n], t);
      if TypeOf(es[n]) == Some(t) {
        assert (before + [es[n]])[..|before|] == before;
        assert Concat(before, env) + [] == Concat(before, env);
      }
    }
  }

  lemma {:induction false} SumsAgree(a: int, b: int, x: int, y: int)
    requires a % TWO_TO_THE_8 == b % TWO_TO_THE_8 && x % TWO_TO_THE_8 == y % TWO_TO_THE_8
    ensures (a + x) % TWO_TO_THE_8 == (b + y) % TWO_TO_THE_8
  {
    var k, l := a / TWO_TO_THE_8 - b / TWO_TO_THE_8, x / TWO_TO_THE_8 - y / TWO_TO_THE_8;
    assert a + x == b + y + TWO_TO_THE_8 * (k + l);
  }

  lemma {:induction false} DepthAgrees(env: Env, es: seq<KeyElement>, ms: seq<FieldMatch>)
    requires InKeyOrder(es, ms) && Carries(env, es, ms) && AllSupplied(es, env)
    ensures PrefixSum(es, env) % TWO_TO_THE_8 == RequestDepth(es, ms) % TWO_TO_THE_8
  {
    if es != [] {
      var n := |es| - 1;
      DepthAgrees(env, es[..n], ms);
      SumsAgree(PrefixSum(es[..n], env), RequestDepth(es[..n], ms),
                PrefixSum(es, env) - PrefixSum(es[..n], env), RequestDepth(es, ms) - RequestDepth(es[..n], ms));
    }
  }

  lemma {:induction false} NoTernaryBytes(es: seq<KeyElement>, ms: seq<FieldMatch>)
    requires InKeyOrder(es, ms)
    ensures RequestBytes(es, ms, TernaryMatch) == []
  {
    if es != [] {
      var n := |es| - 1;
      NoTernaryBytes(es[..n], ms);
    }
  }

  /** The calls expected of the generated code are the calls the request asks for. */
  lemma {:induction false} ExpectedIsRequested(t: Table, env: Env, ms: seq<FieldMatch>, action: ActionValue)
    requires InKeyOrder(t.elements, ms) && Carries(env, t.elements, ms)
    ensures AllSupplied(t.elements, env)
    ensures ExpectedPromotes(t, env, action, []) == RequestPromotes(t, ms, action)
  {
    var es := t.elements;
    CarriesSupplies(env, es, ms);
    SelectSupplied(es, ExactMatch, env);
    SelectSupplied(es, LpmMatch, env);
    SelectSupplied(es, TernaryMatch, env);
    SelectedBytes(env, es, ms, ExactMatch);
    SelectedBytes(env, es, ms, LpmMatch);
    SelectedBytes(env, es, ms, TernaryMatch);
    NoTernaryBytes(es, ms);
    DepthAgrees(env, es, ms);
    var key := RequestBytes(es, ms, ExactMatch) + RequestBytes(es, ms, LpmMatch);
    assert TableKey(es, env) == key + [] == key;
    assert key + [] == key && Reverse(key) + [] == Reverse(key);
  }

  // ---- The parameters reach the generated function

  lemma {:induction false} MessageParamsFitIff(ps: seq<ParamDecl>, params: seq<Param>, action: Entry)
    requires ParamsDefined(action, params)
    ensures MessageParamsFit(ps, GenParams(action, params)) <==> ParamsFit(ps, params)
  {
    ParamsFollow(action, params);
    assert forall j :: 0 <= j < |params| ==> |GenParams(action, params)[j].bitmap| == |params[j].value|;
  }

  /** One more parameter is copied. */
  lemma {:induction false} LastParamIsCopied(ps: seq<ParamDecl>, params: seq<ActionParam>, before: seq<bytes>)
    requires ps != [] && MessageParamsFit(ps, params)
    requires CopyParams(ps[..|ps| - 1], params) == Some(before)
    ensures var j := |ps| - 1;
            CopyParams(ps, params) == Some(before + [params[j].bitmap[..ParamBytes(ps[j])]])
  {
  }

  lemma {:induction false} ParamsAreCopied(ps: seq<ParamDecl>, params: seq<Param>, action: Entry)
    requires ParamsFit(ps, params) && ParamsDefined(action, params)
    ensures CopyParams(ps, GenParams(action, params)) == Some(RequestParams(ps, params, action.args))
  {
    if ps != [] {
      var j := |ps| - 1;
      ParamsAreCopied(ps[..j], params, action);
      MessageParamsFitIff(ps, params, action);
      ParamsFollow(action, params);
      LastParamIsCopied(ps, GenParams(action, params), RequestParams(ps[..j], params, action.args));
    }
  }

  // ---- Main results

  /** A request that fits the description of a table: matches in key order, an action of the table by
      the name the id map gives it, and parameters that are wide enough. */
  ghost predicate RequestFits(slots: Slots, t: Table, a: ActionDecl, te: TableEntry) {
    && InsertDefined(slots, te)
    && Resolve(slots, te.tableId).value.value == t.name
    && te.action.DirectAction?
    && Resolve(slots, te.action.actionId).Some?
    && FindAction(t.actions, Resolve(slots, te.action.actionId).value.value) == Some(a)
    && ParamsFit(a.params, te.action.params)
  }

  function RequestAction(slots: Slots, a: ActionDecl, te: TableEntry): ActionValue
    requires InsertDefined(slots, te) && te.action.DirectAction? && Resolve(slots, te.action.actionId).Some?
    requires ParamsFit(a.params, te.action.params)
  {
    ActionValue(a.name, RequestParams(a.params, te.action.params, Resolve(slots, te.action.actionId).value.args))
  }

  /** What generating the switch guarantees: the match types are known, the shared buffer holds the widest key
      of any table, and no table has two fields of one parameter name, which would not compile. */
  predicate Generated(ts: seq<Table>, buffer: bytes) {
    && AllSortable(ts)
    && |buffer| == MaxKeyBytes(ts)
    && forall i :: 0 <= i < |ts| ==> DistinctNames(ts[i].elements)
  }

  /** So no table needs more of the shared buffer than there is. */
  lemma BufferHoldsKeys(ts: seq<Table>, name: string, buffer: bytes)
    requires Generated(ts, buffer) && FindTable(ts, name).Some?
    ensures var t := FindTable(ts, name).value;
            Sortable(t.elements) && DistinctNames(t.elements) && t.keyBytes <= |buffer|
  {
  }

  lemma {:induction false} RulesFromRequest(table: Entry, ms: seq<FieldMatch>)
    requires MatchesDefined(table, ms)
    ensures RulesOf(GenRules(table, ms), Implemented(ms))
  {
    RulesFollowMatches(table, ms);
    forall i | 0 <= i < |Implemented(ms)| ensures KindOf(GenRules(table, ms)[i]) == Implemented(ms)[i].kind {
      RuleRoundTrip(table, ms, i);
    }
  }

  /** The generated `_add_table_entry` on a message it understands. */
  lemma {:induction false} AddEntryRuns(t: Table, msg: CtrlMsg, env: Env, a: ActionDecl, params: seq<bytes>,
                                        junk: Junk, buffer: bytes)
    requires Sortable(t.elements) && AllSupplied(t.elements, env)
    requires TotalWidth(t.elements) == t.keyBytes <= |buffer|
    requires BindFields(t.elements, msg.matches) == Some(env)
    requires FindAction(t.actions, msg.actionName) == Some(a) && CopyParams(a.params, msg.params) == Some(params)
    ensures AddTableEntryOf(t, msg, junk, buffer) == Some(ExpectedPromotes(t, env, ActionValue(a.name, params), []))
  {
    AddEntryCalls(t, msg, env, a, params, junk, buffer);
    assert Fresh(junk, t.keyBytes)[t.keyBytes..] == [];
  }

  /** End to end: a table insert that fits is accepted, calls back once, and the message makes the
      generated code call the switch exactly once if the table is an exact or an LPM table, on that table,
      with the request's values sorted by match type (reversed for LPM) and the request's depth, whatever
      memory held before; a table of another kind is never called. */
  lemma {:induction false} InsertPromotesOnce(slots: Slots, ts: seq<Table>, t: Table, a: ActionDecl, te: TableEntry,
                                              junk: Junk, buffer: bytes)
    requires Generated(ts, buffer) && FindTable(ts, t.name) == Some(t)
    requires RequestFits(slots, t, a, te) && !te.isDefaultAction && MatchStatus(te.matches).Ok?
    requires InKeyOrder(t.elements, Implemented(te.matches)) && TotalWidth(t.elements) == t.keyBytes
    ensures InsertStatus(slots, te) == Ok
    ensures InsertEffects(slots, te) == [Callback(InsertMessage(slots, te))]
    ensures Recv(ts, InsertMessage(slots, te), junk, buffer)
            == Some(RequestPromotes(t, Implemented(te.matches), RequestAction(slots, a, te)))
    ensures |Recv(ts, InsertMessage(slots, te), junk, buffer).value| == if t.kind.OtherTable? then 0 else 1
  {
    var ms := Implemented(te.matches);
    BufferHoldsKeys(ts, t.name, buffer);
    RulesFromRequest(Resolve(slots, te.tableId).value, te.matches);
    var msg := InsertMessage(slots, te);
    FieldsAreBound(t.elements, ms, msg.matches);
    ParamsAreCopied(a.params, te.action.params, Resolve(slots, te.action.actionId).value);
    var env := BindFields(t.elements, msg.matches).value;
    var action := RequestAction(slots, a, te);
    ExpectedIsRequested(t, env, ms, action);
    AddEntryRuns(t, msg, env, a, action.params, junk, buffer);
  }

  /** A table whose only key is LPM gets the request's value reversed and, for a prefix length a byte
      can hold, exactly the request's prefix length. */
  lemma {:induction false} SingleLpmKey(t: Table, m: FieldMatch, action: ActionValue)
    requires t.kind.LpmTable? && |t.elements| == 1 && InKeyOrder(t.elements, [m])
    requires t.elements[0].Field? && t.elements[0].matchType.LpmMatch? && |m.kind.value| == ByteWidth(t.elements[0])
    requires 0 <= m.kind.prefixLen < TWO_TO_THE_8
    ensures RequestPromotes(t, [m], action) == [LpmAdd(t.name, Reverse(m.kind.value), m.kind.prefixLen, action)]
  {
    var k := t.elements[0];
    assert KindFits(k, [m][0]);
    assert t.elements[..0] == [];
    assert RequestBytes(t.elements, [m], ExactMatch) == [];
    assert RequestBytes(t.elements, [m], LpmMatch) == [] + m.kind.value[..ByteWidth(k)] == m.kind.value;
    assert [] + m.kind.value == m.kind.value;
    assert RequestDepth(t.elements, [m]) == m.kind.prefixLen;
  }

  /** The call depends on the header fields only: requests that differ in the match of a special, such as
      isValid, lead to the same call. */
  lemma {:induction false} SpecialsDoNotSeparate(t: Table, ms: seq<FieldMatch>, ms': seq<FieldMatch>,
                                                 action: ActionValue)
    requires InKeyOrder(t.elements, ms) && InKeyOrder(t.elements, ms')
    requires forall i :: 0 <= i < |t.elements| && t.elements[i].Field? ==> ms[i] == ms'[i]
    ensures RequestPromotes(t, ms, action) == RequestPromotes(t, ms', action)
  {
    SameFields(t.elements, ms, ms', ExactMatch);
    SameFields(t.elements, ms, ms', LpmMatch);
  }

  lemma {:induction false} SameFields(es: seq<KeyElement>, ms: seq<FieldMatch>, ms': seq<FieldMatch>, t: MatchType)
    requires InKeyOrder(es, ms) && InKeyOrder(es, ms')
    requires forall i :: 0 <= i < |es| && es[i].Field? ==> ms[i] == ms'[i]
    ensures RequestBytes(es, ms, t) == RequestBytes(es, ms', t)
    ensures RequestDepth(es, ms) == RequestDepth(es, ms')
  {
    if es != [] { SameFields(es[..|es| - 1], ms, ms', t); }
  }

  /** A default action is set on its table, and no entry is added. */
  lemma {:induction false} DefaultActionIsSet(slots: Slots, ts: seq<Table>, t: Table, a: ActionDecl, te: TableEntry,
                                              junk: Junk, buffer: bytes)
    requires AllSortable(ts) && FindTable(ts, t.name) == Some(t)
    requires RequestFits(slots, t, a, te) && te.isDefaultAction
    requires MatchStatus(te.matches).Ok?
    ensures InsertEffects(slots, te) == [Callback(InsertMessage(slots, te))]
    ensures Recv(ts, InsertMessage(slots, te), junk, buffer) == Some([SetDefault(t.name, RequestAction(slots, a, te))])
  {
    ParamsAreCopied(a.params, te.action.params, Resolve(slots, te.action.actionId).value);
  }

  /** An action the table does not have is accepted and called back, but adds nothing. */
  lemma {:induction false} UnknownActionIsDropped(slots: Slots, ts: seq<Table>, t: Table, te: TableEntry, junk: Junk,
                                                  buffer: bytes)
    requires AllSortable(ts) && FindTable(ts, t.name) == Some(t)
    requires InsertDefined(slots, te) && InsertStatus(slots, te) == Ok && !te.isDefaultAction
    requires Resolve(slots, te.tableId).value.value == t.name
    requires KindsInOrder(t.elements, Implemented(te.matches)) && DistinctNames(t.elements)
    requires FindAction(t.actions, Resolve(slots, te.action.actionId).value.value) == None
    ensures InsertEffects(slots, te) == [Callback(InsertMessage(slots, te))]
    ensures Recv(ts, InsertMessage(slots, te), junk, buffer) == Some([])
  {
    var table := Resolve(slots, te.tableId).value;
    RulesFromRequest(table, te.matches);
    FieldsAreBound(t.elements, Implemented(te.matches), GenRules(table, te.matches));
  }

  // ---- Which inserts the switch survives, and which reach it

  /** The code generated for a table stays inside its memory for an insert: every field finds an implemented match
      of its kind, and if the table has the action, the parameters are wide enough and so are the values, and the
      widths fit the key.  Setting a default action looks at the parameters only. */
  predicate TableServes(t: Table, actionName: string, te: TableEntry)
    requires te.action.DirectAction?
  {
    var ms, a := Implemented(te.matches), FindAction(t.actions, actionName);
    && (!te.isDefaultAction ==> KindsInOrder(t.elements, ms))
    && (a.Some? ==>
          && ParamsFit(a.value.params, te.action.params)
          && (!te.isDefaultAction ==> InKeyOrder(t.elements, ms) && TotalWidth(t.elements) <= t.keyBytes))
  }

  /** The switch serves an insert: its table does, or it has no such table. */
  predicate Served(ts: seq<Table>, tableName: string, actionName: string, te: TableEntry)
    requires te.action.DirectAction?
  {
    FindTable(ts, tableName).Some? ==> TableServes(FindTable(ts, tableName).value, actionName, te)
  }

  /** The insert reaches the switch: the switch has the table, the table has the action, and unless it is
      the default action that is set, the table is of a kind for which a call is generated. */
  predicate Reaches(ts: seq<Table>, tableName: string, actionName: string, isDefaultAction: bool) {
    && FindTable(ts, tableName).Some?
    && FindAction(FindTable(ts, tableName).value.actions, actionName).Some?
    && (isDefaultAction || !FindTable(ts, tableName).value.kind.OtherTable?)
  }

  lemma {:induction false} RulesFitIff(es: seq<KeyElement>, ms: seq<FieldMatch>, rules: seq<MatchRule>)
    requires RulesOf(rules, ms)
    ensures RulesFit(es, rules) <==> KindsInOrder(es, ms)
  {
    forall i | 0 <= i < |es| && es[i].Field? && i < |ms| ensures RuleFits(es[i], rules[i]) <==> KindFits(es[i], ms[i]) {
      assert KindOf(rules[i]) == ms[i].kind;
    }
  }

  lemma {:induction false} AddEntryServed(table: Entry, action: Entry, t: Table, te: TableEntry, msg: CtrlMsg)
    requires MatchesDefined(table, te.matches) && te.action.DirectAction? && ParamsDefined(action, te.action.params)
    requires msg.matches == GenRules(table, te.matches) && msg.params == GenParams(action, te.action.params)
    requires DistinctNames(t.elements) && !te.isDefaultAction
    ensures AddEntryDefined(t, msg) <==> TableServes(t, msg.actionName, te)
  {
    var ms := Implemented(te.matches);
    RulesFromRequest(table, te.matches);
    RulesFitIff(t.elements, ms, msg.matches);
    if KindsInOrder(t.elements, ms) {
      FieldsAreBound(t.elements, ms, msg.matches);
      CarriesSupplies(BindFields(t.elements, msg.matches).value, t.elements, ms);
    }
    if FindAction(t.actions, msg.actionName).Some? {
      MessageParamsFitIff(FindAction(t.actions, msg.actionName).value.params, te.action.params, action);
    }
  }

  /** Every insert the agent accepts is called back.  The generated code then stays inside its memory exactly
      when the insert is one it serves, and makes one call into the switch if the insert reaches it and none
      otherwise. */
  lemma {:induction false} InsertOutcome(slots: Slots, ts: seq<Table>, te: TableEntry, junk: Junk, buffer: bytes)
    requires Generated(ts, buffer) && InsertDefined(slots, te) && InsertStatus(slots, te).Ok?
    ensures InsertEffects(slots, te) == [Callback(InsertMessage(slots, te))]
    ensures var tableName := Resolve(slots, te.tableId).value.value;
            var actionName := Resolve(slots, te.action.actionId).value.value;
            var calls := Recv(ts, InsertMessage(slots, te), junk, buffer);
            && (calls.Some? <==> Served(ts, tableName, actionName, te))
            && (calls.Some? ==>
                  |calls.value| == if Reaches(ts, tableName, actionName, te.isDefaultAction) then 1 else 0)
  {
    var table, action := Resolve(slots, te.tableId).value, Resolve(slots, te.action.actionId).value;
    var msg := InsertMessage(slots, te);
    if FindTable(ts, table.value).Some? {
      var t := FindTable(ts, table.value).value;
      BufferHoldsKeys(ts, table.value, buffer);
      if !te.isDefaultAction {
        AddEntryServed(table, action, t, te, msg);
        AddEntryDefinedIff(t, msg, junk, buffer);
      } else if FindAction(t.actions, action.value).Some? {
        var ps := FindAction(t.actions, action.value).value.params;
        CopyParamsIff(ps, msg.params);
        MessageParamsFitIff(ps, te.action.params, action);
      }
    }
  }

  /** An insert without any match is accepted and called back like every other, and for a table that has a field
      in its key the generated code reads a rule that is not there. */
  lemma {:induction false} MissingMatchCrashes(slots: Slots, ts: seq<Table>, te: TableEntry, junk: Junk, buffer: bytes)
    requires Generated(ts, buffer) && Resolve(slots, te.tableId).Some?
    requires te.matches == [] && te.action == DirectAction(2, []) && !te.isDefaultAction
    requires Resolve(slots, 2).Some?
    requires var t := FindTable(ts, Resolve(slots, te.tableId).value.value);
             t.Some? && t.value.elements == [Field("h", "a", 8, false, ExactMatch)]
    ensures InsertDefined(slots, te) && InsertStatus(slots, te) == Ok
    ensures InsertEffects(slots, te) == [Callback(InsertMessage(slots, te))]
    ensures Recv(ts, InsertMessage(slots, te), junk, buffer) == None
  {
    InsertOutcome(slots, ts, te, junk, buffer);
    var t := FindTable(ts, Resolve(slots, te.tableId).value.value).value;
    assert t.elements[0].Field?;
  }

  /** An action whose P4Info name has a dot never reaches the switch: the generated code compares it with
      last segments only. */
  lemma {:induction false} DottedActionNeverReaches(ts: seq<Table>, tableName: string, actionName: string,
                                                    isDefaultAction: bool)
    requires '.' in actionName
    ensures !Reaches(ts, tableName, actionName, isDefaultAction)
  {
    if FindTable(ts, tableName).Some? { DottedActionNotFound(FindTable(ts, tableName).value.actions, actionName); }
  }

  // ---- Which requests the switch tells apart

  /** The two requests agree in the bytes that enter the key for every field of the match type. */
  predicate SameFieldBytes(es: seq<KeyElement>, ms: seq<FieldMatch>, ms': seq<FieldMatch>, t: MatchType)
    requires InKeyOrder(es, ms) && InKeyOrder(es, ms')
  {
    forall i :: 0 <= i < |es| && es[i].Field? && es[i].matchType == t ==>
      ms[i].kind.value[..ByteWidth(es[i])] == ms'[i].kind.value[..ByteWidth(es[i])]
  }

  lemma {:induction false} SameRequestLength(es: seq<KeyElement>, ms: seq<FieldMatch>, ms': seq<FieldMatch>,
                                             t: MatchType)
    requires InKeyOrder(es, ms) && InKeyOrder(es, ms')
    ensures |RequestBytes(es, ms, t)| == |RequestBytes(es, ms', t)|
  {
    if es != [] { SameRequestLength(es[..|es| - 1], ms, ms', t); }
  }

  lemma {:induction false} RequestBytesIff(es: seq<KeyElement>, ms: seq<FieldMatch>, ms': seq<FieldMatch>,
                                           t: MatchType)
    requires InKeyOrder(es, ms) && InKeyOrder(es, ms')
    ensures RequestBytes(es, ms, t) == RequestBytes(es, ms', t) <==> SameFieldBytes(es, ms, ms', t)
  {
    if es != [] {
      var n := |es| - 1;
      RequestBytesIff(es[..n], ms, ms', t);
      SameRequestLength(es[..n], ms, ms', t);
      if es[n].Field? && es[n].matchType == t {
        var a, b := RequestBytes(es[..n], ms, t), ms[n].kind.value[..ByteWidth(es[n])];
        var c, d := RequestBytes(es[..n], ms', t), ms'[n].kind.value[..ByteWidth(es[n])];
        if a + b == c + d { SplitEqual(a, b, c, d); }
      }
      SameFieldBytesSnoc(es, ms, ms', t);
    }
  }

  lemma {:induction false} SameFieldBytesSnoc(es: seq<KeyElement>, ms: seq<FieldMatch>, ms': seq<FieldMatch>,
                                              t: MatchType)
    requires InKeyOrder(es, ms) && InKeyOrder(es, ms') && es != []
    ensures var n := |es| - 1;
            SameFieldBytes(es, ms, ms', t) <==>
            && SameFieldBytes(es[..n], ms, ms', t)
            && (es[n].Field? && es[n].matchType == t ==>
                  ms[n].kind.value[..ByteWidth(es[n])] == ms'[n].kind.value[..ByteWidth(es[n])])
  {
    var n := |es| - 1;
    assert forall i :: 0 <= i < n ==> es[..n][i] == es[i];
  }

  /** Two requests for one table lead to the same calls if and only if the table is never called, or they ask
      for the same action and agree in the key bytes of all header fields and, for an LPM table, in the depth
      modulo 256.  Nothing else about them matters: no special key element, no byte beyond a field's width. */
  lemma {:induction false} RequestsSeparatedIff(t: Table, ms: seq<FieldMatch>, ms': seq<FieldMatch>,
                                                action: ActionValue, action': ActionValue)
    requires InKeyOrder(t.elements, ms) && InKeyOrder(t.elements, ms')
    ensures RequestPromotes(t, ms, action) == RequestPromotes(t, ms', action') <==>
            || t.kind.OtherTable?
            || (&& action == action'
                && SameFieldBytes(t.elements, ms, ms', ExactMatch)
                && SameFieldBytes(t.elements, ms, ms', LpmMatch)
                && (t.kind.LpmTable? ==>
                      RequestDepth(t.elements, ms) % TWO_TO_THE_8 == RequestDepth(t.elements, ms') % TWO_TO_THE_8))
  {
    var es := t.elements;
    RequestBytesIff(es, ms, ms', ExactMatch);
    RequestBytesIff(es, ms, ms', LpmMatch);
    SameRequestLength(es, ms, ms', ExactMatch);
    var x, l := RequestBytes(es, ms, ExactMatch), RequestBytes(es, ms, LpmMatch);
    var x', l' := RequestBytes(es, ms', ExactMatch), RequestBytes(es, ms', LpmMatch);
    if x + l == x' + l' { SplitEqual(x, l, x', l'); }
    ReverseTwice(x + l);
    ReverseTwice(x' + l');
  }

  // ---- Field ids play no role

  /** The request with the matches at two positions exchanged, field ids included. */
  function Swapped(ms: seq<FieldMatch>, i: nat, j: nat): seq<FieldMatch>
    requires i < |ms| && j < |ms|
  {
    ms[i := ms[j]][j := ms[i]]
  }

  lemma {:induction false} DepthUpdate(es: seq<KeyElement>, ms: seq<FieldMatch>, i: nat, m: FieldMatch)
    requires InKeyOrder(es, ms) && i < |es| && i < |ms| && es[i].Field?
    requires KindFits(es[i], m) && ByteWidth(es[i]) <= |m.kind.value|
    ensures InKeyOrder(es, ms[i := m])
    ensures RequestDepth(es, ms[i := m]) == RequestDepth(es, ms) - FieldDepth(es[i], ms[i]) + FieldDepth(es[i], m)
  {
    var n := |es| - 1;
    if i < n {
      DepthUpdate(es[..n], ms, i, m);
    } else {
      DepthElsewhere(es[..n], ms, i, m);
    }
  }

  lemma {:induction false} DepthElsewhere(es: seq<KeyElement>, ms: seq<FieldMatch>, i: nat, m: FieldMatch)
    requires InKeyOrder(es, ms) && |es| <= i < |ms|
    ensures InKeyOrder(es, ms[i := m]) && RequestDepth(es, ms[i := m]) == RequestDepth(es, ms)
  {
    if es != [] { DepthElsewhere(es[..|es| - 1], ms, i, m); }
  }

  /** A match is used by its position, whatever field its id names.  Exchanging the matches of two fields of one
      match type and width leaves a request that is served just the same, and leads to the same calls exactly
      when the table is never called or the two matches agree in their key bytes; the depth is the same. */
  lemma {:induction false} SwappedSeparatedIff(t: Table, ms: seq<FieldMatch>, i: nat, j: nat, action: ActionValue)
    requires InKeyOrder(t.elements, ms) && i < j < |t.elements| && j < |ms|
    requires var (a, b) := (t.elements[i], t.elements[j]);
             a.Field? && b.Field? && a.matchType == b.matchType && ByteWidth(a) == ByteWidth(b)
    ensures InKeyOrder(t.elements, Swapped(ms, i, j))
    ensures RequestDepth(t.elements, Swapped(ms, i, j)) == RequestDepth(t.elements, ms)
    ensures RequestPromotes(t, Swapped(ms, i, j), action) == RequestPromotes(t, ms, action) <==>
            || t.kind.OtherTable?
            || ms[i].kind.value[..ByteWidth(t.elements[i])] == ms[j].kind.value[..ByteWidth(t.elements[i])]
  {
    var es := t.elements;
    DepthUpdate(es, ms, i, ms[j]);
    DepthUpdate(es, ms[i := ms[j]], j, ms[i]);
    RequestsSeparatedIff(t, Swapped(ms, i, j), ms, action, action);
    var w := ByteWidth(es[i]);
    if ms[i].kind.value[..w] != ms[j].kind.value[..w] {
      assert !SameFieldBytes(es, Swapped(ms, i, j), ms, es[i].matchType) by {
        assert Swapped(ms, i, j)[i] == ms[j];
      }
    }
  }

  /** Fields 1 and 2 are the bytes `a` and `b` of an exact key.  A request that gives field 2 first puts the value
      for `b` into `a` and the value for `a` into `b`. */
  lemma {:induction false} SwappedMatchesMisplaced(t: Table, forA: uint8, forB: uint8, action: ActionValue)
    requires t.kind.ExactTable?
    requires t.elements == [Field("h", "a", 8, false, ExactMatch), Field("h", "b", 8, false, ExactMatch)]
    ensures var ms := [FieldMatch(2, Exact([forB])), FieldMatch(1, Exact([forA]))];
            InKeyOrder(t.elements, ms) && RequestPromotes(t, ms, action) == [ExactAdd(t.name, [forB, forA], action)]
  {
    var ms := [FieldMatch(2, Exact([forB])), FieldMatch(1, Exact([forA]))];
    var a, b := t.elements[0], t.elements[1];
    FirstByte(a, ms, forB);
    RequestSnoc([a], b, ms);
    assert t.elements == [a] + [b];
    var key: bytes := [forB, forA];
    assert [forB] + [forA][..1] == key;
    assert key + [] == key;
  }

  // ---- The depth of a mixed key

  /** The bytes of the exact fields of a key. */
  function ExactBytes(es: seq<KeyElement>): nat {
    if es == [] then 0 else
    var k := es[|es| - 1];
    ExactBytes(es[..|es| - 1]) + if k.Field? && k.matchType.ExactMatch? then ByteWidth(k) else 0
  }

  /** The prefix lengths of the LPM fields of a request, in bits. */
  function PrefixBits(es: seq<KeyElement>, ms: seq<FieldMatch>): int
    requires InKeyOrder(es, ms)
  {
    if es == [] then 0 else
    var n := |es| - 1;
    PrefixBits(es[..n], ms) + if es[n].Field? && es[n].matchType.LpmMatch? then ms[n].kind.prefixLen else 0
  }

  lemma {:induction false} DepthSplits(es: seq<KeyElement>, ms: seq<FieldMatch>)
    requires InKeyOrder(es, ms)
    ensures RequestDepth(es, ms) == ExactBytes(es) + PrefixBits(es, ms)
  {
    if es != [] {
      var n := |es| - 1;
      DepthSplits(es[..n], ms);
    }
  }

  /** The depth handed to the switch is the number of significant bits of the key, eight for every exact byte
      and the prefix lengths, exactly when the exact bytes are a multiple of 256 and the bits fit a byte; for
      a request without negative prefix lengths: exactly when there are no exact bytes and the bits fit. */
  lemma {:induction false} DepthIsBitsIff(es: seq<KeyElement>, ms: seq<FieldMatch>)
    requires InKeyOrder(es, ms)
    ensures var bits := 8 * ExactBytes(es) + PrefixBits(es, ms);
            RequestDepth(es, ms) % TWO_TO_THE_8 == bits
            <==> ExactBytes(es) % TWO_TO_THE_8 == 0 && 0 <= bits < TWO_TO_THE_8
    ensures var bits := 8 * ExactBytes(es) + PrefixBits(es, ms);
            PrefixBits(es, ms) >= 0 ==>
              (RequestDepth(es, ms) % TWO_TO_THE_8 == bits
               <==> ExactBytes(es) == 0 && PrefixBits(es, ms) < TWO_TO_THE_8)
  {
    DepthSplits(es, ms);
    BytesForBits(ExactBytes(es), PrefixBits(es, ms));
  }

  /** A table with an 8-bit exact field and a 32-bit LPM field: a request for 10.0.0.0/8 is handed over with
      depth 9, although the first 16 bits of the key are significant. */
  lemma {:induction false} MixedDepthWrong(t: Table, exactId: uint32, lpmId: uint32, action: ActionValue)
    requires t.kind.LpmTable?
    requires t.elements == [Field("h", "a", 8, false, ExactMatch), Field("h", "b", 32, false, LpmMatch)]
    ensures var ms := [FieldMatch(exactId, Exact([5])), FieldMatch(lpmId, Lpm([10, 0, 0, 0], 8))];
            && InKeyOrder(t.elements, ms)
            && RequestPromotes(t, ms, action) == [LpmAdd(t.name, [0, 0, 0, 10, 5], 9, action)]
            && 8 * ExactBytes(t.elements) + PrefixBits(t.elements, ms) == 16
  {
    var ms := [FieldMatch(exactId, Exact([5])), FieldMatch(lpmId, Lpm([10, 0, 0, 0], 8))];
    MixedRequest(t.elements[0], t.elements[1], ms);
    assert t.elements == [t.elements[0], t.elements[1]];
    var key: bytes := [5, 10, 0, 0, 0];
    assert [5] + [10, 0, 0, 0] == key;
    assert Reverse(key) == [0, 0, 0, 10, 5];
  }

  lemma {:induction false} MixedRequest(a: KeyElement, b: KeyElement, ms: seq<FieldMatch>)
    requires a == Field("h", "a", 8, false, ExactMatch) && b == Field("h", "b", 32, false, LpmMatch)
    requires |ms| == 2 && ms[0].kind == Exact([5]) && ms[1].kind == Lpm([10, 0, 0, 0], 8)
    ensures InKeyOrder([a, b], ms)
    ensures RequestBytes([a, b], ms, ExactMatch) == [5]
    ensures RequestBytes([a, b], ms, LpmMatch) == [10, 0, 0, 0]
    ensures RequestDepth([a, b], ms) == 9 && ExactBytes([a, b]) == 1 && PrefixBits([a, b], ms) == 8
  {
    FirstByte(a, ms, 5);
    assert [a] + [b] == [a, b];
    RequestSnoc([a], b, ms);
    var value: bytes := [10, 0, 0, 0];
    assert value[..4] == value;
  }

  /** A request whose first match is for a one-byte exact field. */
  lemma {:induction false} FirstByte(a: KeyElement, ms: seq<FieldMatch>, x: uint8)
    requires a.Field? && a.matchType.ExactMatch? && ByteWidth(a) == 1 && |ms| > 0 && ms[0].kind == Exact([x])
    ensures InKeyOrder([a], ms)
    ensures RequestBytes([a], ms, ExactMatch) == [x] && RequestBytes([a], ms, LpmMatch) == []
    ensures RequestDepth([a], ms) == 1 && ExactBytes([a]) == 1 && PrefixBits([a], ms) == 0
  {
    var value: bytes := [x];
    assert value[..1] == value && [] + value == value;
    assert [a][..0] == [];
  }

  lemma {:induction false} RequestSnoc(es: seq<KeyElement>, k: KeyElement, ms: seq<FieldMatch>)
    requires InKeyOrder(es, ms) && k.Field? && |es| < |ms|
    requires KindFits(k, ms[|es|]) && ByteWidth(k) <= |ms[|es|].kind.value|
    ensures InKeyOrder(es + [k], ms)
    ensures var part := ms[|es|].kind.value[..ByteWidth(k)];
            && RequestBytes(es + [k], ms, ExactMatch)
               == RequestBytes(es, ms, ExactMatch) + (if k.matchType.ExactMatch? then part else [])
            && RequestBytes(es + [k], ms, LpmMatch)
               == RequestBytes(es, ms, LpmMatch) + (if k.matchType.LpmMatch? then part else [])
    ensures RequestDepth(es + [k], ms) == RequestDepth(es, ms) + FieldDepth(k, ms[|es|])
    ensures ExactBytes(es + [k]) == ExactBytes(es) + if k.matchType.ExactMatch? then ByteWidth(k) else 0
    ensures PrefixBits(es + [k], ms)
            == PrefixBits(es, ms) + if k.matchType.LpmMatch? then ms[|es|].kind.prefixLen else 0
  {
    assert (es + [k])[..|es|] == es;
  }

  // ---- Over runs

  /** Table `i` and action `j` of a P4Info are what their ids mean: each was the first ever added under its id, and
      found a slot. */
  predicate IdsEstablished(adds: seq<Entry>, info: P4Info, i: nat, j: nat)
    requires i < |info.tables| && j < |info.actions|
  {
    var t, a := info.tables[i], info.actions[j];
    Established(adds, Entry(t.id, t.name, t.matchFields)) && Established(adds, Entry(a.id, a.name, a.params))
  }

  lemma {:induction false} DeclaredIsBound(info: P4Info, i: nat, j: nat)
    requires i < |info.tables| && j < |info.actions|
    ensures Entry(info.tables[i].id, info.tables[i].name, info.tables[i].matchFields) in Bindings(info)
    ensures Entry(info.actions[j].id, info.actions[j].name, info.actions[j].params) in Bindings(info)
  {
    BindingsAreDeclared(info);
    assert Bindings(info)[i] in Bindings(info) && Bindings(info)[|info.tables| + j] in Bindings(info);
  }

  /** While no add fails and no id changes its meaning, that holds of everything the latest P4Info declares. */
  lemma {:induction false} StableIdsEstablished(deviceId: uint64, es: seq<Event>, i: nat, j: nat)
    requires Run(deviceId, es).Some? && LastPush(es).Some?
    requires Failures(Attempted(es)) == 0 && MeaningsAgree(Pushed(es))
    requires var info := LastPush(es).value.config.p4info; i < |info.tables| && j < |info.actions|
    ensures IdsEstablished(Attempted(es), LastPush(es).value.config.p4info, i, j)
  {
    var info := LastPush(es).value.config.p4info;
    RunFollows(deviceId, es);
    AgreementOverRuns(deviceId, es);
    AgreementIff(deviceId, es);
    DeclaredIsBound(info, i, j);
  }

  /** A request that declarations of a P4Info cover, whether or not the switch has its table and action. */
  ghost predicate DeclaredInsert(info: P4Info, i: nat, j: nat, te: TableEntry) {
    && i < |info.tables| && j < |info.actions|
    && te.tableId == info.tables[i].id
    && te.action.DirectAction? && te.action.actionId == info.actions[j].id
    && (forall m :: m in Implemented(te.matches) ==> Declares(info.tables[i].matchFields, m.fieldId))
    && (forall p :: p in te.action.params ==> Declares(info.actions[j].params, p.paramId))
    && MatchStatus(te.matches).Ok?
  }

  lemma {:induction false} DeclaredResolve(adds: seq<Entry>, info: P4Info, i: nat, j: nat, te: TableEntry)
    requires DeclaredInsert(info, i, j, te) && IdsEstablished(adds, info, i, j)
    ensures Resolve(BindAll(adds), te.tableId)
            == Some(Entry(info.tables[i].id, info.tables[i].name, info.tables[i].matchFields))
    ensures Resolve(BindAll(adds), te.action.actionId)
            == Some(Entry(info.actions[j].id, info.actions[j].name, info.actions[j].params))
    ensures InsertDefined(BindAll(adds), te) && InsertStatus(BindAll(adds), te).Ok?
  {
    EstablishedIff(adds, Entry(info.tables[i].id, info.tables[i].name, info.tables[i].matchFields));
    EstablishedIff(adds, Entry(info.actions[j].id, info.actions[j].name, info.actions[j].params));
    InsertDefinedIff(BindAll(adds), te);
  }

  function InsertRequest(te: TableEntry): Event {
    WriteEvent(ContinueOnError, [Update(Insert, TableEntity(te))])
  }

  lemma {:induction false} OneInsert(slots: Slots, te: TableEntry)
    requires InsertDefined(slots, te)
    ensures AllWritesDefined(slots, [Update(Insert, TableEntity(te))])
    ensures AllEffects(slots, [Update(Insert, TableEntity(te))]) == InsertEffects(slots, te)
  {
    var us := [Update(Insert, TableEntity(te))];
    assert us[..0] == [];
    var none: seq<Effect> := [];
    assert AllEffects(slots, us) == none + InsertEffects(slots, te);
    assert none + InsertEffects(slots, te) == InsertEffects(slots, te);
  }

  /** A run goes on with an insert that is defined, and the callback is the only new effect. */
  lemma {:induction false} RunGoesOn(deviceId: uint64, es: seq<Event>, te: TableEntry)
    requires Run(deviceId, es).Some? && Run(deviceId, es).value.0.hasP4Info
    requires InsertDefined(Run(deviceId, es).value.0.slots, te)
    ensures var (d, effects) := Run(deviceId, es).value;
            Run(deviceId, es + [InsertRequest(te)]) == Some((d, effects + InsertEffects(d.slots, te)))
  {
    var d := Run(deviceId, es).value.0;
    OneInsert(d.slots, te);
    assert (es + [InsertRequest(te)])[..|es|] == es;
    assert [Update(Insert, TableEntity(te))][..0] == [];
    assert AllDigests(d.digests, [Update(Insert, TableEntity(te))]) == d.digests;
  }

  /** End to end over runs: after any run in which the request's own table and action id mean what the latest P4Info
      declares, inserting an entry that fits these declarations goes through, calls back exactly once more, and
      that message makes the generated code call the switch with what the request asks for, exactly once if the
      table is an exact or an LPM table. */
  lemma {:induction false} RunInsertPromotesOnce(deviceId: uint64, es: seq<Event>, i: nat, j: nat,
                              ts: seq<Table>, t: Table, a: ActionDecl, te: TableEntry, junk: Junk, buffer: bytes)
    requires Run(deviceId, es).Some? && LastPush(es).Some?
    requires DeclaredInsert(LastPush(es).value.config.p4info, i, j, te)
    requires IdsEstablished(Attempted(es), LastPush(es).value.config.p4info, i, j)
    requires Generated(ts, buffer) && !te.isDefaultAction
    requires FindTable(ts, LastPush(es).value.config.p4info.tables[i].name) == Some(t)
    requires FindAction(t.actions, LastPush(es).value.config.p4info.actions[j].name) == Some(a)
    requires InKeyOrder(t.elements, Implemented(te.matches)) && TotalWidth(t.elements) == t.keyBytes
    requires ParamsFit(a.params, te.action.params)
    ensures var args := LastPush(es).value.config.p4info.actions[j].params;
            var action := ActionValue(a.name, RequestParams(a.params, te.action.params, args));
            var run := Run(deviceId, es + [InsertRequest(te)]);
            && run.Some?
            && exists msg ::
                 && run.value.1 == Run(deviceId, es).value.1 + [Callback(msg)]
                 && Recv(ts, msg, junk, buffer) == Some(RequestPromotes(t, Implemented(te.matches), action))
                 && (|Recv(ts, msg, junk, buffer).value| == 1 <==> !t.kind.OtherTable?)
  {
    var d := Run(deviceId, es).value.0;
    RunFollows(deviceId, es);
    DeclaredResolve(Attempted(es), LastPush(es).value.config.p4info, i, j, te);
    assert RequestFits(d.slots, t, a, te);
    InsertPromotesOnce(d.slots, ts, t, a, te, junk, buffer);
    RunGoesOn(deviceId, es, te);
    var msg := InsertMessage(d.slots, te);
    assert Run(deviceId, es + [InsertRequest(te)]).value.1 == Run(deviceId, es).value.1 + [Callback(msg)];
  }

  /** After any run in which the request's own table and action id mean what the latest P4Info declares, an insert
      these declarations cover calls back exactly once more.  The generated code then stays inside its memory
      exactly when it serves the insert under the declared names, and makes one call if the insert reaches the
      switch and none otherwise. */
  lemma {:induction false} RunInsertOutcome(deviceId: uint64, es: seq<Event>, i: nat, j: nat, ts: seq<Table>,
                                            te: TableEntry, junk: Junk, buffer: bytes)
    requires Run(deviceId, es).Some? && LastPush(es).Some? && Generated(ts, buffer)
    requires DeclaredInsert(LastPush(es).value.config.p4info, i, j, te)
    requires IdsEstablished(Attempted(es), LastPush(es).value.config.p4info, i, j)
    ensures var info := LastPush(es).value.config.p4info;
            var (tableName, actionName) := (info.tables[i].name, info.actions[j].name);
            var run := Run(deviceId, es + [InsertRequest(te)]);
            && run.Some?
            && exists msg ::
                 && run.value.1 == Run(deviceId, es).value.1 + [Callback(msg)]
                 && (Recv(ts, msg, junk, buffer).Some? <==> Served(ts, tableName, actionName, te))
                 && (Recv(ts, msg, junk, buffer).Some? ==>
                       |Recv(ts, msg, junk, buffer).value|
                       == if Reaches(ts, tableName, actionName, te.isDefaultAction) then 1 else 0)
  {
    var d := Run(deviceId, es).value.0;
    RunFollows(deviceId, es);
    DeclaredResolve(Attempted(es), LastPush(es).value.config.p4info, i, j, te);
    InsertOutcome(d.slots, ts, te, junk, buffer);
    RunGoesOn(deviceId, es, te);
    var msg := InsertMessage(d.slots, te);
    assert Run(deviceId, es + [InsertRequest(te)]).value.1 == Run(deviceId, es).value.1 + [Callback(msg)];
  }
}
