/** The generated dispatcher of controlplane.c.py: what the switch does with a control message. */
module Dispatcher {
  import opened Basics
  import opened Messages
  import opened Generator
  import opened GeneratorTheorems

  /** The part of an annotated action name after its last dot. */
  function LastSegment(s: string): (r: string)
    ensures '.' !in r
  {
    if s == "" || s[|s| - 1] == '.' then "" else LastSegment(s[..|s| - 1]) + [s[|s| - 1]]
  }

  /** It is the whole name when there is no dot, and what follows the last dot otherwise. */
  lemma {:induction false} LastSegmentAfterDot(prefix: string, name: string)
    requires '.' !in name
    ensures LastSegment(name) == name && LastSegment(prefix + "." + name) == name
  {
    var s := prefix + "." + name;
    if name == "" {
      assert s == prefix + ".";
    } else {
      var n := |name| - 1;
      LastSegmentAfterDot(prefix, name[..n]);
      assert s[..|s| - 1] == prefix + "." + name[..n];
      assert name[n] in name;
    }
  }

  /** The first table of the name. */
  function FindTable(ts: seq<Table>, name: string): (r: Option<Table>)
    ensures r.None? ==> forall i :: 0 <= i < |ts| ==> ts[i].name != name
    ensures r.Some? ==> exists i :: 0 <= i < |ts| && ts[i] == r.value && ts[i].name == name
                                    && forall j :: 0 <= j < i ==> ts[j].name != name
  {
    if ts == [] then None else if ts[0].name == name then Some(ts[0]) else FindTable(ts[1..], name)
  }

  /** The first action whose annotation ends in the name. */
  function FindAction(xs: seq<ActionDecl>, name: string): (r: Option<ActionDecl>)
    ensures r.None? ==> forall i :: 0 <= i < |xs| ==> LastSegment(xs[i].annotation) != name
    ensures r.Some? ==> exists i :: 0 <= i < |xs| && xs[i] == r.value && LastSegment(xs[i].annotation) == name
                                    && forall j :: 0 <= j < i ==> LastSegment(xs[j].annotation) != name
  {
    if xs == [] then None else if LastSegment(xs[0].annotation) == name then Some(xs[0]) else FindAction(xs[1..], name)
  }

  /** A dotted name is the last segment of no annotation. */
  lemma {:induction false} DottedActionNotFound(xs: seq<ActionDecl>, name: string)
    requires '.' in name
    ensures FindAction(xs, name) == None
  {
    if xs != [] { DottedActionNotFound(xs[1..], name); }
  }

  /** The field pointers `_add_table_entry` sets up.  The rule of a field is taken by the position of its
      element, specials included, and must be of the kind the element expects. */
  function BindFields(es: seq<KeyElement>, rules: seq<MatchRule>): Option<Env> {
    if es == [] then Some(map[]) else
    var i := |es| - 1;
    match BindFields(es[..i], rules)
    case None => None
    case Some(env) =>
      if es[i].Special? then Some(env)
      else if i >= |rules| then None
      else
        match (es[i].matchType, rules[i])
        case (ExactMatch, ExactRule(_, _, bitmap)) => Some(env[VarName(es[i]) := FieldArg(bitmap, 0)])
        case (LpmMatch, LpmRule(_, prefixLength, bitmap)) =>
          Some(env[VarName(es[i]) := FieldArg(bitmap, prefixLength % TWO_TO_THE_8)])
        case _ => None
  }

  /** The rule has the form the code generated for a key element reads it in; a special reads none. */
  predicate RuleFits(k: KeyElement, rule: MatchRule) {
    k.Field? ==> (k.matchType.ExactMatch? && rule.ExactRule?) || (k.matchType.LpmMatch? && rule.LpmRule?)
  }

  /** Every field finds, at its position, a rule of its form. */
  predicate RulesFit(es: seq<KeyElement>, rules: seq<MatchRule>) {
    forall i :: 0 <= i < |es| && es[i].Field? ==> i < |rules| && RuleFits(es[i], rules[i])
  }

  /** The field pointers can be set up exactly when there is a fitting rule at the position of every field. */
  lemma {:induction false} BindFieldsIff(es: seq<KeyElement>, rules: seq<MatchRule>)
    ensures BindFields(es, rules).Some? <==> RulesFit(es, rules)
  {
    if es != [] {
      var n := |es| - 1;
      BindFieldsIff(es[..n], rules);
      assert RulesFit(es, rules) <==>
             RulesFit(es[..n], rules) && (es[n].Field? ==> n < |rules| && RuleFits(es[n], rules[n]));
    }
  }

  function ParamBytes(p: ParamDecl): nat {
    (p.bits + 7) / 8
  }

  /** The bytes copied for a parameter are the fewest that hold its bits. */
  lemma ParamWidthIsLeast(p: ParamDecl)
    ensures 8 * ParamBytes(p) >= p.bits
    ensures ParamBytes(p) > 0 ==> 8 * (ParamBytes(p) - 1) < p.bits
  {
  }

  /** The action structure: each parameter copied from the message parameter of its position. */
  function CopyParams(ps: seq<ParamDecl>, params: seq<ActionParam>): Option<seq<bytes>> {
    if ps == [] then Some([]) else
    var j := |ps| - 1;
    match CopyParams(ps[..j], params)
    case None => None
    case Some(before) =>
      if j < |params| && ParamBytes(ps[j]) <= |params[j].bitmap|
      then Some(before + [params[j].bitmap[..ParamBytes(ps[j])]]) else None
  }

  /** Every parameter of the action finds one of the message at its position that is wide enough. */
  predicate MessageParamsFit(ps: seq<ParamDecl>, params: seq<ActionParam>) {
    |ps| <= |params| && forall j :: 0 <= j < |ps| ==> ParamBytes(ps[j]) <= |params[j].bitmap|
  }

  /** And then each is copied from its position, as many bytes as it takes. */
  lemma {:induction false} CopyParamsIff(ps: seq<ParamDecl>, params: seq<ActionParam>)
    ensures CopyParams(ps, params).Some? <==> MessageParamsFit(ps, params)
    ensures MessageParamsFit(ps, params) ==>
              && |CopyParams(ps, params).value| == |ps|
              && forall j :: 0 <= j < |ps| ==>
                   CopyParams(ps, params).value[j] == params[j].bitmap[..ParamBytes(ps[j])]
  {
    if ps != [] {
      var n := |ps| - 1;
      CopyParamsIff(ps[..n], params);
      assert MessageParamsFit(ps, params) <==>
             MessageParamsFit(ps[..n], params) && n < |params| && ParamBytes(ps[n]) <= |params[n].bitmap|;
    }
  }

  /** The contents of fresh stack memory. */
  type Junk = nat -> uint8

  function Fresh(junk: Junk, n: nat): (r: bytes)
    ensures |r| == n
    ensures forall i :: 0 <= i < n ==> r[i] == junk(i)
  {
    seq(n, i requires 0 <= i < n => junk(i))
  }

  /** The generated `_add_table_entry`: None for undefined behaviour. */
  function AddTableEntryOf(t: Table, msg: CtrlMsg, junk: Junk, buffer: bytes): Option<seq<Promote>>
    requires Sortable(t.elements)
  {
    match BindFields(t.elements, msg.matches)
    case None => None
    case Some(env) =>
      match FindAction(t.actions, msg.actionName)
      case None => Some([])
      case Some(a) =>
        match CopyParams(a.params, msg.params)
        case None => None
        case Some(params) =>
          match ExecAll(Program(t).value, env, t.name, ActionValue(a.name, params),
                        Machine(Fresh(junk, t.keyBytes), buffer, 0, []))
          case None => None
          case Some(m) => Some(m.promoted)
  }

  /** The generated `_add_table_entry` stays inside its memory: every field has a rule of its form, and if the
      action is known, the parameters and the values are wide enough and the widths fit the key. */
  ghost predicate AddEntryDefined(t: Table, msg: CtrlMsg) {
    && RulesFit(t.elements, msg.matches)
    && (FindAction(t.actions, msg.actionName).Some? ==>
          && MessageParamsFit(FindAction(t.actions, msg.actionName).value.params, msg.params)
          && BindFields(t.elements, msg.matches).Some?
          && AllSupplied(t.elements, BindFields(t.elements, msg.matches).value)
          && TotalWidth(t.elements) <= t.keyBytes)
  }

  /** That is exact, and then there is one call for a known action and a table of a kind with calls. */
  lemma {:induction false} AddEntryDefinedIff(t: Table, msg: CtrlMsg, junk: Junk, buffer: bytes)
    requires Sortable(t.elements) && t.keyBytes <= |buffer|
    ensures AddTableEntryOf(t, msg, junk, buffer).Some? <==> AddEntryDefined(t, msg)
    ensures AddEntryDefined(t, msg) ==>
              |AddTableEntryOf(t, msg, junk, buffer).value|
              == if FindAction(t.actions, msg.actionName).Some? && !t.kind.OtherTable? then 1 else 0
  {
    BindFieldsIff(t.elements, msg.matches);
    if RulesFit(t.elements, msg.matches) && FindAction(t.actions, msg.actionName).Some? {
      var a := FindAction(t.actions, msg.actionName).value;
      var env := BindFields(t.elements, msg.matches).value;
      CopyParamsIff(a.params, msg.params);
      if MessageParamsFit(a.params, msg.params) {
        var action := ActionValue(a.name, CopyParams(a.params, msg.params).value);
        var m := Machine(Fresh(junk, t.keyBytes), buffer, 0, []);
        GeneratedDefinedIff(t, env, action, m);
        if AllSupplied(t.elements, env) { GeneratedAdd(t, env, action, m); }
      }
    }
  }

  /** The generated `_set_default_table_action`. */
  function SetDefaultOf(t: Table, msg: CtrlMsg): Option<seq<Promote>> {
    match FindAction(t.actions, msg.actionName)
    case None => Some([])
    case Some(a) =>
      match CopyParams(a.params, msg.params)
      case None => None
      case Some(params) => Some([SetDefault(t.name, ActionValue(a.name, params))])
  }

  /** The size of the buffer the generated functions share for the reversal. */
  function MaxKeyBytes(ts: seq<Table>): (n: nat)
    ensures forall i :: 0 <= i < |ts| ==> ts[i].keyBytes <= n
    ensures ts != [] ==> exists i :: 0 <= i < |ts| && ts[i].keyBytes == n
  {
    if ts == [] then 0 else
    var rest := MaxKeyBytes(ts[1..]);
    assert ts == [ts[0]] + ts[1..];
    if ts[0].keyBytes >= rest then ts[0].keyBytes else rest
  }

  predicate AllSortable(ts: seq<Table>) {
    forall i :: 0 <= i < |ts| ==> Sortable(ts[i].elements)
  }

  /** `recv_from_controller`: a message for an unknown table or action is dropped. */
  function Recv(ts: seq<Table>, msg: CtrlMsg, junk: Junk, buffer: bytes): Option<seq<Promote>>
    requires AllSortable(ts)
  {
    match FindTable(ts, msg.tableName)
    case None => Some([])
    case Some(t) =>
      match msg.kind
      case AddTableEntry => AddTableEntryOf(t, msg, junk, buffer)
      case SetDefaultAction => SetDefaultOf(t, msg)
      case CtrlInitialized => Some([])
  }

  /** What the generated `_add_table_entry` calls, with what the stack held behind the fields. */
  lemma {:induction false} AddEntryCalls(t: Table, msg: CtrlMsg, env: Env, a: ActionDecl, params: seq<bytes>,
                                         junk: Junk, buffer: bytes)
    requires Sortable(t.elements) && AllSupplied(t.elements, env)
    requires TotalWidth(t.elements) <= t.keyBytes <= |buffer|
    requires BindFields(t.elements, msg.matches) == Some(env)
    requires FindAction(t.actions, msg.actionName) == Some(a) && CopyParams(a.params, msg.params) == Some(params)
    ensures AddTableEntryOf(t, msg, junk, buffer)
            == Some(ExpectedPromotes(t, env, ActionValue(a.name, params),
                                     Fresh(junk, t.keyBytes)[TotalWidth(t.elements)..]))
  {
    GeneratedAdd(t, env, ActionValue(a.name, params), Machine(Fresh(junk, t.keyBytes), buffer, 0, []));
  }

  /** The bytes of a call behind the fields. */
  function Behind(t: Table, call: Promote): bytes
    requires (call.ExactAdd? || call.LpmAdd?) && TotalWidth(t.elements) <= |call.key|
  {
    call.key[TotalWidth(t.elements)..]
  }

  lemma {:induction false} ExpectedKey(t: Table, env: Env, action: ActionValue, rest: bytes)
    requires Sortable(t.elements) && AllSupplied(t.elements, env) && !t.kind.OtherTable?
    ensures |ExpectedPromotes(t, env, action, rest)| == 1
    ensures var call := ExpectedPromotes(t, env, action, rest)[0];
            && (call.ExactAdd? || call.LpmAdd?) && TotalWidth(t.elements) <= |call.key|
            && Behind(t, call) == rest
  {
    SortedConcat(t.elements, env);
    var key := TableKey(t.elements, env);
    assert (key + rest)[|key|..] == rest;
    assert (Reverse(key) + rest)[|key|..] == rest;
  }

  /** When the fields do not fill the key, what the call carries behind them is what the stack held. */
  lemma {:induction false} ShortKeyShowsJunk(t: Table, msg: CtrlMsg, junk: Junk, buffer: bytes)
    requires Sortable(t.elements) && t.keyBytes <= |buffer| && !t.kind.OtherTable?
    requires AddEntryDefined(t, msg) && FindAction(t.actions, msg.actionName).Some?
    ensures AddTableEntryOf(t, msg, junk, buffer).Some? && |AddTableEntryOf(t, msg, junk, buffer).value| == 1
    ensures var call := AddTableEntryOf(t, msg, junk, buffer).value[0];
            && (call.ExactAdd? || call.LpmAdd?) && TotalWidth(t.elements) <= |call.key|
            && Behind(t, call) == Fresh(junk, t.keyBytes)[TotalWidth(t.elements)..]
  {
    var a := FindAction(t.actions, msg.actionName).value;
    CopyParamsIff(a.params, msg.params);
    var env, params := BindFields(t.elements, msg.matches).value, CopyParams(a.params, msg.params).value;
    AddEntryCalls(t, msg, env, a, params, junk, buffer);
    ExpectedKey(t, env, ActionValue(a.name, params), Fresh(junk, t.keyBytes)[TotalWidth(t.elements)..]);
  }

  /** A call on the table, of the sort the message asks for. */
  predicate CallFits(t: Table, msg: CtrlMsg, call: Promote) {
    && call.table == t.name == msg.tableName
    && (call.SetDefault? <==> msg.kind.SetDefaultAction?)
    && (call.ExactAdd? ==> t.kind.ExactTable?) && (call.LpmAdd? ==> t.kind.LpmTable?)
    && exists a :: a in t.actions && a.name == call.action.name && LastSegment(a.annotation) == msg.actionName
  }

  /** Whatever message arrives, at most one call is made, on the table the message names, of the sort it asks for,
      with an action of that table that has the name it gives; the message that the controller is done makes none. */
  lemma {:induction false} RecvCallsNamedTable(ts: seq<Table>, msg: CtrlMsg, junk: Junk, buffer: bytes)
    requires AllSortable(ts) && |buffer| == MaxKeyBytes(ts) && Recv(ts, msg, junk, buffer).Some?
    ensures var calls := Recv(ts, msg, junk, buffer).value;
            && |calls| <= 1
            && (msg.kind.CtrlInitialized? || FindTable(ts, msg.tableName).None? ==> calls == [])
            && (calls != [] ==> FindTable(ts, msg.tableName).Some?
                                && CallFits(FindTable(ts, msg.tableName).value, msg, calls[0]))
  {
    if FindTable(ts, msg.tableName).Some? && msg.kind.AddTableEntry? {
      var t := FindTable(ts, msg.tableName).value;
      AddEntryDefinedIff(t, msg, junk, buffer);
      if FindAction(t.actions, msg.actionName).Some? {
        var a := FindAction(t.actions, msg.actionName).value;
        CopyParamsIff(a.params, msg.params);
        var env, params := BindFields(t.elements, msg.matches).value, CopyParams(a.params, msg.params).value;
        AddEntryCalls(t, msg, env, a, params, junk, buffer);
      }
    }
  }

  /** Generating a table's `_add` function and running it on a fresh key array and the shared buffer:
      when the widths fill the key exactly, nothing of what the arrays held before shows. */
  method RunGeneratedAdd(t: Table, env: Env, action: ActionValue, buffer: array<uint8>) returns (promoted: seq<Promote>)
    requires Sortable(t.elements) && AllSupplied(t.elements, env)
    requires TotalWidth(t.elements) == t.keyBytes <= buffer.Length
    modifies buffer
    ensures promoted == ExpectedPromotes(t, env, action, [])
  {
    var program := EmitAdd(t);
    var key := new uint8[t.keyBytes];
    GeneratedAddExact(t, env, action, Machine(key[..], buffer[..], 0, []));
    promoted := Execute(program.value, env, t.name, action, key, buffer);
  }
}
