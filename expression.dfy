/**
 * The compiler of one find/hide expression into a graph selector fragment: the operator scan, the closed
 * operand tables (unary flags and binary fields), the numeric rule, and the clause assembly of fragments.
 * Reading display options and asking for them to be switched on is part of compiling: the flags a query
 * reads are a parameter, and the changes it asks for are returned as requests beside the result.
 */
module Expression {
  import opened Wrappers
  import opened Text
  import opened JsNumber
  import opened Vocabulary

  datatype Target = Node | Edge

  /** The element group a selector begins with. */
  function TargetName(t: Target): (name: string)
    ensures |name| == 4
  {
    match t
    case Node => "node"
    case Edge => "edge"
  }

  /** A compiled expression: the elements it is about and its selector fragment. */
  datatype Parsed = Parsed(target: Target, selector: string)

  /** The display settings an expression may read. */
  datatype Flags = Flags(showRank: bool, showSecurity: bool, showIdleNodes: bool, edgeLabels: seq<string>)

  /** A display option an operand needs; an edge-label option is on when its group label is shown. */
  datatype DisplayOption = Rank | Security | IdleNodes | EdgeLabel(group: string, mode: string)

  /** A change of display settings asked for while compiling. */
  datatype Request = ToggleRank | ToggleSecurity | ToggleIdleNodes | SetEdgeLabels(labels: seq<string>)

  /** The result of compiling an expression, with the requests made on the way (made on failure too). */
  datatype Outcome = Outcome(result: Result<Parsed>, requests: seq<Request>)

  predicate IsOn(option: DisplayOption, flags: Flags) {
    match option
    case Rank => flags.showRank
    case Security => flags.showSecurity
    case IdleNodes => flags.showIdleNodes
    case EdgeLabel(group, _) => group in flags.edgeLabels
  }

  /** Settings after a request takes effect: a toggle flips its flag, a label request replaces the labels. */
  function Apply(flags: Flags, r: Request): Flags {
    match r
    case ToggleRank => flags.(showRank := !flags.showRank)
    case ToggleSecurity => flags.(showSecurity := !flags.showSecurity)
    case ToggleIdleNodes => flags.(showIdleNodes := !flags.showIdleNodes)
    case SetEdgeLabels(labels) => flags.(edgeLabels := labels)
  }

  function ApplyAll(flags: Flags, rs: seq<Request>): Flags
    decreases |rs|
  {
    if rs == [] then flags else ApplyAll(Apply(flags, rs[0]), rs[1..])
  }

  /** The request that switches an option on, made only when the option is off. */
  function Enable(option: Option<DisplayOption>, flags: Flags): (rs: seq<Request>)
    ensures |rs| <= 1
    ensures rs == [] <==> option.None? || IsOn(option.value, flags)
  {
    match option
    case None => []
    case Some(o) =>
      if IsOn(o, flags) then []
      else match o
        case Rank => [ToggleRank]
        case Security => [ToggleSecurity]
        case IdleNodes => [ToggleIdleNodes]
        case EdgeLabel(group, mode) => [SetEdgeLabels(flags.edgeLabels + [group, mode])]
  }

  /** Whatever an operand asks for, its option is on once the request is applied, and nothing else changes. */
  lemma EnableSwitchesOn(option: DisplayOption, flags: Flags)
    ensures var after := ApplyAll(flags, Enable(Some(option), flags));
      && IsOn(option, after)
      && (option != Rank ==> after.showRank == flags.showRank)
      && (option != Security ==> after.showSecurity == flags.showSecurity)
      && (option != IdleNodes ==> after.showIdleNodes == flags.showIdleNodes)
      && (!option.EdgeLabel? ==> after.edgeLabels == flags.edgeLabels)
      && (option.EdgeLabel? && !IsOn(option, flags) ==>
            after.edgeLabels == flags.edgeLabels + [option.group, option.mode])
  {
    var rs := Enable(Some(option), flags);
    if rs != [] {
      assert ApplyAll(flags, rs) == ApplyAll(Apply(flags, rs[0]), []);
    }
  }

  // ---------------------------------------------------------------------------------------------------------
  // Operator scan

  /** The operators in the order they are looked for: longer forms before the operators they contain. */
  const Operators: seq<string> := ["!=", "!*=", "!$=", "!^=", ">=", "<=", "*=", "$=", "^=", "=", ">", "<", "!"]

  /** The position in `ops`, from `from` on, of the first operator that `expr` contains. */
  function FirstContained(expr: string, ops: seq<string>, from: nat): (r: Option<nat>)
    requires from <= |ops|
    ensures r.Some? ==> from <= r.value < |ops| && Contains(expr, ops[r.value])
                        && forall j :: from <= j < r.value ==> !Contains(expr, ops[j])
    ensures r.None? ==> forall j :: from <= j < |ops| ==> !Contains(expr, ops[j])
    decreases |ops| - from
  {
    if from == |ops| then None
    else if Contains(expr, ops[from]) then Some(from)
    else FirstContained(expr, ops, from + 1)
  }

  /** The operator of an expression: the first entry of `Operators` that it contains. */
  function FindOperator(expr: string): (op: Option<string>)
    ensures op.Some? ==> exists k :: 0 <= k < |Operators| && Operators[k] == op.value && Contains(expr, op.value)
                                       && forall j :: 0 <= j < k ==> !Contains(expr, Operators[j])
    ensures op.None? ==> forall j :: 0 <= j < |Operators| ==> !Contains(expr, Operators[j])
  {
    match FirstContained(expr, Operators, 0)
    case None => None
    case Some(k) => Some(Operators[k])
  }

  /** The characters every operator is built around. */
  predicate IsOperatorChar(c: char) {
    c == '!' || c == '=' || c == '<' || c == '>'
  }

  lemma ContainsChar(s: string, c: char, i: nat)
    requires i < |s| && s[i] == c
    ensures Contains(s, [c])
  {
    assert OccursAt(s, [c], i);
  }

  lemma {:induction false} ContainsPattern(s: string, p: string, k: nat)
    requires Contains(s, p) && k < |p|
    ensures exists i :: 0 <= i < |s| && s[i] == p[k]
  {
    var i :| 0 <= i <= |s| - |p| && OccursAt(s, p, i);
    assert s[i..i + |p|][k] == s[i + k];
  }

  /** An expression has no operator exactly when none of `!`, `=`, `<`, `>` occurs in it. */
  lemma NoOperatorIffNoOperatorChar(expr: string)
    ensures FindOperator(expr).None? <==> forall i :: 0 <= i < |expr| ==> !IsOperatorChar(expr[i])
  {
    if FindOperator(expr).None? {
      forall i | 0 <= i < |expr| ensures !IsOperatorChar(expr[i]) {
        if IsOperatorChar(expr[i]) {
          var k := if expr[i] == '!' then 12 else if expr[i] == '=' then 9 else if expr[i] == '>' then 10 else 11;
          assert Operators[k] == [expr[i]];
          ContainsChar(expr, expr[i], i);
          assert false;
        }
      }
    } else {
      var k :| 0 <= k < |Operators| && Contains(expr, Operators[k]);
      var o := Operators[k];
      var key: nat := if o[0] == '*' || o[0] == '$' || o[0] == '^' then 1 else 0;
      assert key < |o| && IsOperatorChar(o[key]);
      ContainsPattern(expr, o, key);
    }
  }

  /** Text that contains none of `=`, `<`, `>` contains no operator that has one of them. */
  lemma WithoutComparisonChar(expr: string, o: string, key: nat)
    requires key < |o| && (o[key] == '=' || o[key] == '<' || o[key] == '>')
    requires !Contains(expr, "=") && !Contains(expr, "<") && !Contains(expr, ">")
    ensures !Contains(expr, o)
  {
    if Contains(expr, o) {
      ContainsPattern(expr, o, key);
      var i :| 0 <= i < |expr| && expr[i] == o[key];
      ContainsChar(expr, o[key], i);
    }
  }

  /** Text with a `!` and none of `=`, `<`, `>` has `!` for its operator. */
  lemma BangIsTheOperator(expr: string)
    requires Contains(expr, "!")
    requires !Contains(expr, "=") && !Contains(expr, "<") && !Contains(expr, ">")
    ensures FindOperator(expr) == Some("!")
  {
    forall k | 0 <= k < 12 ensures !Contains(expr, Operators[k]) {
      var o := Operators[k];
      WithoutComparisonChar(expr, o, if k < 4 || 6 <= k < 9 then |o| - 1 else 0);
    }
    var r := FirstContained(expr, Operators, 0);
    if r != Some(12) {
      assert false;
    }
  }

  /**
   * An expression with a `!` and none of `=`, `<`, `>` is a negated flag: the text after the first `!`, up to
   * any second one, is looked up as a flag operand.
   */
  lemma NegatedFlagRule(expr: string, conjunctive: bool, flags: Flags)
    requires Contains(expr, "!")
    requires !Contains(expr, "=") && !Contains(expr, "<") && !Contains(expr, ">")
    ensures ParseExpression(expr, conjunctive, flags) == ParseUnary(Trim(Split(expr, "!")[1]), true, flags)
  {
    BangIsTheOperator(expr);
    BangOperatorRule(expr, conjunctive, flags);
  }

  /** With `!` for its operator, an expression is compiled as the negated flag after the first `!`. */
  lemma BangOperatorRule(expr: string, conjunctive: bool, flags: Flags)
    requires FindOperator(expr) == Some("!")
    ensures ParseExpression(expr, conjunctive, flags) == ParseUnary(Trim(Split(expr, "!")[1]), true, flags)
  {
  }

  // ---------------------------------------------------------------------------------------------------------
  // Selector fragments

  /** A string condition on an attribute, the value quoted. */
  function AttrSelector(attr: string, op: string, val: string): (s: string)
    ensures s == "[" + attr + " " + op + " \"" + val + "\"]"
  {
    "[" + attr + " " + op + " \"" + val + "\"]"
  }

  const ComparisonOperators: set<string> := {">", "<", ">=", "<="}

  /** The error for a comparison whose value is not a number. */
  function NotNumericMessage(val: string): string {
    "Invalid value [" + val + "]. Expected a numeric value (use '.' for decimals)"
  }

  function NumericOperatorMessage(op: string): string {
    "Invalid operator [" + op + "] for numeric condition"
  }

  /**
   * `getNumericSelector`: a comparison needs a numeric value; equality with a value that is not a number
   * tests for an absent (`[!a]`) or present (`[?a]`) attribute; any other operator is refused.
   */
  function NumericSelector(attr: string, op: string, val: string): (r: Result<string>)
    ensures r.Fail? <==> (op in ComparisonOperators && IsNaN(val)) || (op !in ComparisonOperators && op != "=" && op != "!=")
    ensures r.Fail? ==> r.message == (if op in ComparisonOperators then NotNumericMessage(val) else NumericOperatorMessage(op))
    ensures r.Ok? && !IsNaN(val) ==> r.value == "[" + attr + " " + op + " " + val + "]"
    ensures r.Ok? && IsNaN(val) ==> r.value == (if op == "=" then "[!" + attr + "]" else "[?" + attr + "]")
  {
    if op in ComparisonOperators then
      if IsNaN(val) then Fail(NotNumericMessage(val)) else Ok("[" + attr + " " + op + " " + val + "]")
    else if op == "=" then
      if IsNaN(val) then Ok("[!" + attr + "]") else Ok("[" + attr + " " + op + " " + val + "]")
    else if op == "!=" then
      if IsNaN(val) then Ok("[?" + attr + "]") else Ok("[" + attr + " " + op + " " + val + "]")
    else Fail(NumericOperatorMessage(op))
  }

  /** A value spelled in decimal digits is numeric, so every numeric operator keeps it verbatim. */
  lemma DigitsCompareVerbatim(attr: string, op: string, val: string, n: nat)
    requires val != [] && '0' <= val[0] <= '9' && DigitsValue(val, 10) == Some(n)
    requires op in ComparisonOperators || op == "=" || op == "!="
    ensures NumericSelector(attr, op, val) == Ok("[" + attr + " " + op + " " + val + "]")
  {
    DecimalDigitsAreNumeric(val, n);
  }

  // ---------------------------------------------------------------------------------------------------------
  // Unary expressions

  /** A flag operand: `Flag` tests an attribute for truth; the others are the operands with their own rule. */
  datatype Unary =
    | Flag(target: Target, attr: string, needs: Option<DisplayOption>)
    | MissingSidecar
    | Healthy
    | Mtls

  /** The flag operands by lower-case keyword, aliases included. */
  const UnaryOperands: map<string, Unary> := map[
    "cb" := Flag(Node, NodeHasCB, None),
    "circuitbreaker" := Flag(Node, NodeHasCB, None),
    "dead" := Flag(Node, NodeIsDead, None),
    "fi" := Flag(Node, NodeHasFaultInjection, None),
    "faultinjection" := Flag(Node, NodeHasFaultInjection, None),
    "inaccessible" := Flag(Node, NodeIsInaccessible, None),
    "healthy" := Healthy,
    "idle" := Flag(Node, NodeIsIdle, Some(IdleNodes)),
    "mirroring" := Flag(Node, NodeHasMirroring, None),
    "outside" := Flag(Node, NodeIsOutside, None),
    "outsider" := Flag(Node, NodeIsOutside, None),
    "rr" := Flag(Node, NodeHasRequestRouting, None),
    "requestrouting" := Flag(Node, NodeHasRequestRouting, None),
    "rto" := Flag(Node, NodeHasRequestTimeout, None),
    "requesttimeout" := Flag(Node, NodeHasRequestTimeout, None),
    "se" := Flag(Node, NodeIsServiceEntry, None),
    "serviceentry" := Flag(Node, NodeIsServiceEntry, None),
    "sc" := MissingSidecar,
    "sidecar" := MissingSidecar,
    "tcpts" := Flag(Node, NodeHasTCPTrafficShifting, None),
    "tcptrafficshifting" := Flag(Node, NodeHasTCPTrafficShifting, None),
    "ts" := Flag(Node, NodeHasTrafficShifting, None),
    "trafficshifting" := Flag(Node, NodeHasTrafficShifting, None),
    "trafficsource" := Flag(Node, NodeIsRoot, None),
    "root" := Flag(Node, NodeIsRoot, None),
    "vs" := Flag(Node, NodeHasVS, None),
    "virtualservice" := Flag(Node, NodeHasVS, None),
    "we" := Flag(Node, NodeHasWorkloadEntry, None),
    "workloadentry" := Flag(Node, NodeHasWorkloadEntry, None),
    "mtls" := Mtls,
    "traffic" := Flag(Edge, EdgeHasTraffic, None)
  ]

  function UnaryTarget(u: Unary): Target {
    match u
    case Flag(t, _, _) => t
    case MissingSidecar => Node
    case Healthy => Node
    case Mtls => Edge
  }

  function UnaryNeeds(u: Unary): Option<DisplayOption> {
    match u
    case Flag(_, _, needs) => needs
    case Mtls => Some(Security)
    case _ => None
  }

  /** The fragment of a flag operand, plain or negated. */
  function UnarySelector(u: Unary, negated: bool): (s: string)
    ensures u.Flag? ==> s == (if negated then "[^" else "[?") + u.attr + "]"
    ensures u.MissingSidecar? ==> s == (if negated then "[?" else "[^") + NodeHasMissingSC + "]"
    ensures u.Healthy? ==> s == if negated
      then AttrSelector(NodeHealthStatus, "=", HealthFailure) + "," + AttrSelector(NodeHealthStatus, "=", HealthDegraded)
      else AttrSelector(NodeHealthStatus, "=", HealthHealthy)
    ensures u.Mtls? ==> s == "[" + EdgeIsMTLS + (if negated then " <= 0]" else " > 0]")
  {
    match u
    case Flag(_, attr, _) => if negated then "[^" + attr + "]" else "[?" + attr + "]"
    case MissingSidecar => if negated then "[?" + NodeHasMissingSC + "]" else "[^" + NodeHasMissingSC + "]"
    case Healthy =>
      if negated then AttrSelector(NodeHealthStatus, "=", HealthFailure) + "," + AttrSelector(NodeHealthStatus, "=", HealthDegraded)
      else AttrSelector(NodeHealthStatus, "=", HealthHealthy)
    case Mtls => if negated then "[" + EdgeIsMTLS + " <= 0]" else "[" + EdgeIsMTLS + " > 0]"
  }

  const InvalidUnaryMessage := "Invalid Node or Edge operand"

  /** `parseUnaryFindExpression`, with the error its callers report when the flag is unknown. */
  function ParseUnary(field: string, negated: bool, flags: Flags): (o: Outcome)
    ensures o.result.Ok? <==> ToLower(field) in UnaryOperands
    ensures o.result.Ok? ==> var u := UnaryOperands[ToLower(field)];
      o.result.value == Parsed(UnaryTarget(u), UnarySelector(u, negated)) && o.requests == Enable(UnaryNeeds(u), flags)
    ensures o.result.Fail? ==> o.result.message == InvalidUnaryMessage && o.requests == []
  {
    var key := ToLower(field);
    if key in UnaryOperands then
      var u := UnaryOperands[key];
      Outcome(Ok(Parsed(UnaryTarget(u), UnarySelector(u, negated))), Enable(UnaryNeeds(u), flags))
    else Outcome(Fail(InvalidUnaryMessage), [])
  }

  /** Negating a flag operand always changes its selector. */
  lemma NegationChangesSelector(u: Unary)
    ensures UnarySelector(u, true) != UnarySelector(u, false)
  {
    match u
    case Flag(_, _, _) => assert UnarySelector(u, true)[1] != UnarySelector(u, false)[1];
    case MissingSidecar => assert UnarySelector(u, true)[1] != UnarySelector(u, false)[1];
    case Healthy => assert |UnarySelector(u, true)| != |UnarySelector(u, false)|;
    case Mtls => assert |UnarySelector(u, true)| != |UnarySelector(u, false)|;
  }

  /** The operands with a rule of their own: the sidecar flag is inverted, `healthy` and `mtls` test values. */
  lemma SpecialFlags(key: string)
    requires key in UnaryOperands
    ensures UnaryOperands[key].MissingSidecar? <==> key == "sc" || key == "sidecar"
    ensures UnaryOperands[key].Healthy? <==> key == "healthy"
    ensures UnaryOperands[key].Mtls? <==> key == "mtls"
  {
  }

  /** Every flag operand is about nodes, except `mtls` and `traffic`, which are about edges. */
  lemma UnaryTargets(key: string)
    requires key in UnaryOperands
    ensures UnaryTarget(UnaryOperands[key]) == Edge <==> key == "mtls" || key == "traffic"
  {
  }

  /** Only `idle` and `mtls` need a display option: the idle nodes and the security display. */
  lemma UnaryNeedsOption(key: string)
    requires key in UnaryOperands
    ensures UnaryNeeds(UnaryOperands[key]) == (if key == "idle" then Some(IdleNodes)
                                              else if key == "mtls" then Some(Security) else None)
  {
  }

  // ---------------------------------------------------------------------------------------------------------
  // Binary expressions

  /**
   * A field operand: a quoted string condition, a numeric condition (each possibly needing a display
   * option), or one of the three fields with a rule of their own.
   */
  datatype Binary =
    | StringField(target: Target, attr: string, needs: Option<DisplayOption>)
    | NumericField(target: Target, attr: string, needs: Option<DisplayOption>)
    | NameField
    | NodeTypeField
    | RankField

  const ResponseTimeLabels := EdgeLabel(ResponseTimeGroup, ResponseTimeP95)
  const ThroughputLabels := EdgeLabel(ThroughputGroup, ThroughputRequest)

  /** The field operands by lower-case keyword, aliases included. */
  const BinaryOperands: map<string, Binary> := map[
    "app" := StringField(Node, NodeApp, None),
    "cluster" := StringField(Node, NodeCluster, None),
    "grpcin" := NumericField(Node, NodeGrpcIn, None),
    "grpcout" := NumericField(Node, NodeGrpcOut, None),
    "httpin" := NumericField(Node, NodeHttpIn, None),
    "httpout" := NumericField(Node, NodeHttpOut, None),
    "name" := NameField,
    "node" := NodeTypeField,
    "ns" := StringField(Node, NodeNamespace, None),
    "namespace" := StringField(Node, NodeNamespace, None),
    "op" := StringField(Node, NodeAggregateValue, None),
    "operation" := StringField(Node, NodeAggregateValue, None),
    "rank" := RankField,
    "svc" := StringField(Node, NodeService, None),
    "service" := StringField(Node, NodeService, None),
    "tcpin" := NumericField(Node, NodeTcpIn, None),
    "tcpout" := NumericField(Node, NodeTcpOut, None),
    "version" := StringField(Node, NodeVersion, None),
    "wl" := StringField(Node, NodeWorkload, None),
    "workload" := StringField(Node, NodeWorkload, None),
    "destprincipal" := StringField(Edge, EdgeDestPrincipal, Some(Security)),
    "grpc" := NumericField(Edge, EdgeGrpc, None),
    "%grpcerror" := NumericField(Edge, EdgeGrpcPercentErr, None),
    "%grpcerr" := NumericField(Edge, EdgeGrpcPercentErr, None),
    "%grpctraffic" := NumericField(Edge, EdgeGrpcPercentReq, None),
    "http" := NumericField(Edge, EdgeHttp, None),
    "%httperror" := NumericField(Edge, EdgeHttpPercentErr, None),
    "%httperr" := NumericField(Edge, EdgeHttpPercentErr, None),
    "%httptraffic" := NumericField(Edge, EdgeHttpPercentReq, None),
    "protocol" := StringField(Edge, EdgeProtocol, None),
    "rt" := NumericField(Edge, EdgeResponseTime, Some(ResponseTimeLabels)),
    "responsetime" := NumericField(Edge, EdgeResponseTime, Some(ResponseTimeLabels)),
    "sourceprincipal" := StringField(Edge, EdgeSourcePrincipal, Some(Security)),
    "tcp" := NumericField(Edge, EdgeTcp, None),
    "throughput" := NumericField(Edge, EdgeThroughput, Some(ThroughputLabels))
  ]

  const NameInConjunctionMessage := "Can not use 'AND' with 'name' operand"

  /** The four name attributes, each tested with the same operator and value. */
  function NameSelector(op: string, val: string): (s: string)
    ensures var parts := [AttrSelector(NodeAggregateValue, op, val), AttrSelector(NodeApp, op, val),
                          AttrSelector(NodeService, op, val), AttrSelector(NodeWorkload, op, val)];
      s == (if StartsWith(op, "!") then parts[0] + parts[1] + parts[2] + parts[3] else Join(parts, ","))
  {
    var agg := AttrSelector(NodeAggregateValue, op, val);
    var app := AttrSelector(NodeApp, op, val);
    var svc := AttrSelector(NodeService, op, val);
    var wl := AttrSelector(NodeWorkload, op, val);
    JoinFour(agg, app, svc, wl);
    if StartsWith(op, "!") then agg + app + svc + wl else agg + "," + app + "," + svc + "," + wl
  }

  /** Four parts joined with `,`. */
  lemma JoinFour(a: string, b: string, c: string, d: string)
    ensures Join([a, b, c, d], ",") == a + "," + b + "," + c + "," + d
  {
    assert [a, b, c, d][1..] == [b, c, d] && [b, c, d][1..] == [c, d] && [c, d][1..] == [d];
    assert Join([c, d], ",") == c + "," + d;
    assert Join([b, c, d], ",") == b + "," + (c + "," + d);
  }

  /** The node type a `node` value names, its aliases resolved, compared in lower case. */
  function NodeTypeOf(val: string): string {
    var t := ToLower(val);
    if t == "op" || t == "operation" then NodeTypeAggregate
    else if t == "svc" then NodeTypeService
    else if t == "wl" then NodeTypeWorkload
    else t
  }

  const NodeTypes: set<string> := {NodeTypeAggregate, NodeTypeApp, NodeTypeService, NodeTypeWorkload, NodeTypeUnknown}

  function NodeTypeMessage(t: string): string {
    "Invalid node type [" + t + "]. Expected app | operation | service | unknown | workload"
  }

  function RankMessage(val: string): string {
    "Invalid rank range [" + val + "]. Expected a number between 1..100"
  }

  /** A rank is a number from 1 to 100; NaN and the infinities are out of range. */
  predicate InRankRange(n: Num) {
    n.Finite? && 1.0 <= n.value <= 100.0
  }

  function InvalidOperandMessage(field: string): string {
    "Invalid operand [" + field + "]"
  }

  /** A numeric condition on an attribute of `target`. */
  function NumericOutcome(target: Target, attr: string, op: string, val: string, requests: seq<Request>): (o: Outcome)
    ensures o.requests == requests
    ensures o.result.Ok? <==> NumericSelector(attr, op, val).Ok?
    ensures o.result.Ok? ==> o.result.value == Parsed(target, NumericSelector(attr, op, val).value)
    ensures o.result.Fail? ==> o.result.message == NumericSelector(attr, op, val).message
  {
    match NumericSelector(attr, op, val)
    case Ok(s) => Outcome(Ok(Parsed(target, s)), requests)
    case Fail(m) => Outcome(Fail(m), requests)
  }

  /** The condition `op val` on a known field operand. */
  function FieldOutcome(f: Binary, op: string, val: string, conjunctive: bool, flags: Flags): Outcome {
    match f
    case StringField(target, attr, needs) =>
      Outcome(Ok(Parsed(target, AttrSelector(attr, op, val))), Enable(needs, flags))
    case NumericField(target, attr, needs) =>
      NumericOutcome(target, attr, op, val, Enable(needs, flags))
    case NameField =>
      if conjunctive then Outcome(Fail(NameInConjunctionMessage), [])
      else Outcome(Ok(Parsed(Node, NameSelector(op, val))), [])
    case NodeTypeField =>
      var t := NodeTypeOf(val);
      if t in NodeTypes then Outcome(Ok(Parsed(Node, AttrSelector(NodeNodeType, op, t))), [])
      else Outcome(Fail(NodeTypeMessage(t)), [])
    case RankField => RankOutcome(op, val, flags)
  }

  /** `rank` asks for the rank display first, then requires a value from 1 to 100 before the numeric rule. */
  function RankOutcome(op: string, val: string, flags: Flags): Outcome {
    var requests := Enable(Some(Rank), flags);
    if !InRankRange(ToNumber(val)) then Outcome(Fail(RankMessage(val)), requests)
    else NumericOutcome(Node, NodeRank, op, val, requests)
  }

  /** A condition `field op val` whose operator is not `!`; `conjunctive` says it is one of several ANDed. */
  function ParseBinary(field: string, op: string, val: string, conjunctive: bool, flags: Flags): (o: Outcome)
    ensures ToLower(field) !in BinaryOperands ==> o == Outcome(Fail(InvalidOperandMessage(field)), [])
    ensures ToLower(field) in BinaryOperands ==> o == FieldOutcome(BinaryOperands[ToLower(field)], op, val, conjunctive, flags)
  {
    var key := ToLower(field);
    if key !in BinaryOperands then Outcome(Fail(InvalidOperandMessage(field)), [])
    else FieldOutcome(BinaryOperands[key], op, val, conjunctive, flags)
  }

  const NoOperatorMessage := "No valid operator found in expression"

  /** `parseExpression`: the operator scan, then a flag lookup or a field condition. */
  function ParseExpression(expr: string, conjunctive: bool, flags: Flags): (o: Outcome)
    ensures FindOperator(expr).None? && Contains(expr, " ") ==> o == Outcome(Fail(NoOperatorMessage), [])
    ensures FindOperator(expr).None? && !Contains(expr, " ") ==> o == ParseUnary(Trim(expr), false, flags)
    ensures FindOperator(expr) == Some("!") ==> o == ParseUnary(Trim(Split(expr, "!")[1]), true, flags)
    ensures FindOperator(expr).Some? && FindOperator(expr).value != "!" ==>
      var op := FindOperator(expr).value;
      |op| > 0 && |Split(expr, op)| >= 2 &&
      o == ParseBinary(Trim(Split(expr, op)[0]), op, Trim(Split(expr, op)[1]), conjunctive, flags)
  {
    match FindOperator(expr)
    case None =>
      if |Split(expr, " ")| > 1 then Outcome(Fail(NoOperatorMessage), [])
      else ParseUnary(Trim(expr), false, flags)
    case Some(op) =>
      var tokens := Split(expr, op);
      if op == "!" then ParseUnary(Trim(tokens[1]), true, flags)
      else ParseBinary(Trim(tokens[0]), op, Trim(tokens[1]), conjunctive, flags)
  }

  // ---------------------------------------------------------------------------------------------------------
  // Properties of the field operands

  /** `rank` asks for the rank display whenever it is off, even when the value is then refused. */
  lemma RankRule(op: string, val: string, conjunctive: bool, flags: Flags)
    ensures var o := FieldOutcome(BinaryOperands["rank"], op, val, conjunctive, flags);
      && o.requests == (if flags.showRank then [] else [ToggleRank])
      && (!InRankRange(ToNumber(val)) ==> o.result == Fail(RankMessage(val)))
      && (InRankRange(ToNumber(val)) ==> o.result.Ok? == (op in ComparisonOperators || op == "=" || op == "!="))
      && (o.result.Ok? ==> o.result.value == Parsed(Node, "[" + NodeRank + " " + op + " " + val + "]"))
  {
    assert BinaryOperands["rank"] == RankField;
    RankFieldRule(op, val, flags);
  }

  /** The rank rule on the outcome of the field itself, before the operand is looked up. */
  lemma RankFieldRule(op: string, val: string, flags: Flags)
    ensures var o := RankOutcome(op, val, flags);
      && o.requests == (if flags.showRank then [] else [ToggleRank])
      && (!InRankRange(ToNumber(val)) ==> o.result == Fail(RankMessage(val)))
      && (InRankRange(ToNumber(val)) ==> o.result.Ok? == (op in ComparisonOperators || op == "=" || op == "!="))
      && (o.result.Ok? ==> o.result.value == Parsed(Node, "[" + NodeRank + " " + op + " " + val + "]"))
  {
    if InRankRange(ToNumber(val)) {
      assert !IsNaN(val);
    }
  }

  /** `name` refuses to be ANDed; otherwise it tests any of the four name attributes. */
  lemma NameRule(op: string, val: string, conjunctive: bool, flags: Flags)
    ensures var o := FieldOutcome(BinaryOperands["name"], op, val, conjunctive, flags);
      && o.requests == []
      && (conjunctive <==> o.result.Fail?)
      && (conjunctive ==> o.result.message == NameInConjunctionMessage)
      && (!conjunctive ==> o.result.value == Parsed(Node, NameSelector(op, val)))
  {
    assert BinaryOperands["name"] == NameField;
  }

  /** `node` accepts exactly the five node types, after resolving the aliases `op`, `operation`, `svc`, `wl`. */
  lemma NodeTypeRule(op: string, val: string, conjunctive: bool, flags: Flags)
    ensures var o := FieldOutcome(BinaryOperands["node"], op, val, conjunctive, flags);
      var t := ToLower(val);
      var resolved := if t == "op" || t == "operation" then "aggregate" else if t == "svc" then "service"
                      else if t == "wl" then "workload" else t;
      && o.requests == []
      && (o.result.Ok? <==> resolved in {"aggregate", "app", "service", "workload", "unknown"})
      && (o.result.Ok? ==> o.result.value == Parsed(Node, AttrSelector(NodeNodeType, op, resolved)))
      && (o.result.Fail? ==> o.result.message == NodeTypeMessage(resolved))
  {
    assert BinaryOperands["node"] == NodeTypeField;
    NodeTypeFieldRule(op, val, conjunctive, flags);
  }

  /** The node-type rule on the field itself, before the operand is looked up. */
  lemma NodeTypeFieldRule(op: string, val: string, conjunctive: bool, flags: Flags)
    ensures var o := FieldOutcome(NodeTypeField, op, val, conjunctive, flags);
      var t := ToLower(val);
      var resolved := if t == "op" || t == "operation" then "aggregate" else if t == "svc" then "service"
                      else if t == "wl" then "workload" else t;
      && o.requests == []
      && (o.result.Ok? <==> resolved in {"aggregate", "app", "service", "workload", "unknown"})
      && (o.result.Ok? ==> o.result.value == Parsed(Node, AttrSelector(NodeNodeType, op, resolved)))
      && (o.result.Fail? ==> o.result.message == NodeTypeMessage(resolved))
  {
  }

  /** The display option a field operand needs. */
  function FieldNeeds(f: Binary): Option<DisplayOption> {
    match f
    case StringField(_, _, needs) => needs
    case NumericField(_, _, needs) => needs
    case RankField => Some(Rank)
    case _ => None
  }

  /**
   * Only five field operands ask for a display option: `rank` the rank display, the two principal fields
   * the security display, and the response-time and throughput fields their edge labels.
   */
  lemma FieldNeedsOption(key: string)
    requires key in BinaryOperands
    ensures FieldNeeds(BinaryOperands[key]) ==
      if key == "rank" then Some(Rank)
      else if key == "destprincipal" || key == "sourceprincipal" then Some(Security)
      else if key == "rt" || key == "responsetime" then Some(ResponseTimeLabels)
      else if key == "throughput" then Some(ThroughputLabels)
      else None
  {
  }

  /** A string field always compiles, to a quoted condition on its attribute. */
  lemma StringFieldRule(f: Binary, op: string, val: string, conjunctive: bool, flags: Flags)
    requires f.StringField?
    ensures var o := FieldOutcome(f, op, val, conjunctive, flags);
      && o.result == Ok(Parsed(f.target, "[" + f.attr + " " + op + " \"" + val + "\"]"))
      && o.requests == Enable(FieldNeeds(f), flags)
  {
  }

  /** A numeric field follows the numeric rule, and asks for its option even when the value is refused. */
  lemma NumericFieldRule(f: Binary, op: string, val: string, conjunctive: bool, flags: Flags)
    requires f.NumericField?
    ensures var o := FieldOutcome(f, op, val, conjunctive, flags);
      && o.result.Ok? == NumericSelector(f.attr, op, val).Ok?
      && (o.result.Ok? ==> o.result.value == Parsed(f.target, NumericSelector(f.attr, op, val).value))
      && (o.result.Fail? ==> o.result.message == NumericSelector(f.attr, op, val).message)
      && o.requests == Enable(FieldNeeds(f), flags)
  {
  }

  /** What an expression asks for is the switching on of an option that is off, and at most one. */
  ghost predicate RequestsOffOption(rs: seq<Request>, flags: Flags) {
    |rs| <= 1 && forall r :: r in rs ==> exists o :: !IsOn(o, flags) && Enable(Some(o), flags) == [r]
  }

  lemma EnableRequestsOff(needs: Option<DisplayOption>, flags: Flags)
    ensures RequestsOffOption(Enable(needs, flags), flags)
  {
    if Enable(needs, flags) != [] {
      var r := Enable(needs, flags)[0];
      forall r' | r' in Enable(needs, flags) ensures exists o :: !IsOn(o, flags) && Enable(Some(o), flags) == [r'] {
        assert !IsOn(needs.value, flags);
      }
    }
  }

  /** Every expression asks only for options that are off, at most one. */
  lemma ExpressionRequestsOnlyOffOptions(expr: string, conjunctive: bool, flags: Flags)
    ensures RequestsOffOption(ParseExpression(expr, conjunctive, flags).requests, flags)
  {
    match FindOperator(expr)
    case None =>
      if |Split(expr, " ")| <= 1 { UnaryRequestsOff(Trim(expr), false, flags); }
    case Some(op) =>
      var tokens := Split(expr, op);
      if op == "!" {
        UnaryRequestsOff(Trim(tokens[1]), true, flags);
      } else {
        BinaryRequestsOff(Trim(tokens[0]), op, Trim(tokens[1]), conjunctive, flags);
      }
  }

  lemma UnaryRequestsOff(field: string, negated: bool, flags: Flags)
    ensures RequestsOffOption(ParseUnary(field, negated, flags).requests, flags)
  {
    if ToLower(field) in UnaryOperands {
      EnableRequestsOff(UnaryNeeds(UnaryOperands[ToLower(field)]), flags);
    }
  }

  lemma BinaryRequestsOff(field: string, op: string, val: string, conjunctive: bool, flags: Flags)
    ensures RequestsOffOption(ParseBinary(field, op, val, conjunctive, flags).requests, flags)
  {
    var key := ToLower(field);
    if key in BinaryOperands {
      match BinaryOperands[key]
      case StringField(_, _, needs) => EnableRequestsOff(needs, flags);
      case NumericField(_, _, needs) => EnableRequestsOff(needs, flags);
      case RankField => EnableRequestsOff(Some(Rank), flags);
      case _ =>
    }
  }

  // ---------------------------------------------------------------------------------------------------------
  // Clause assembly

  const MixedTargetsMessage := "Invalid expression. " + "Can not AND node and edge criteria."

  /**
   * `appendSelector`: the first fragment of a clause is prefixed with its target; a later one is appended
   * when the clause so far begins with the same target.
   */
  function AppendSelector(selector: Option<string>, p: Parsed): (r: Result<string>)
    ensures (selector.None? || selector.value == "") ==> r == Ok(TargetName(p.target) + p.selector)
    ensures selector.Some? && selector.value != "" ==>
      (r.Ok? <==> StartsWith(selector.value, TargetName(p.target)))
      && (r.Ok? ==> r.value == selector.value + p.selector)
      && (r.Fail? ==> r.message == MixedTargetsMessage)
    ensures r.Ok? ==> StartsWith(r.value, TargetName(p.target))
  {
    if selector.None? || selector.value == "" then Ok(TargetName(p.target) + p.selector)
    else if !StartsWith(selector.value, TargetName(p.target)) then Fail(MixedTargetsMessage)
    else Ok(selector.value + p.selector)
  }

  /** A selector begun with one target never takes a fragment about the other. */
  lemma AppendKeepsTarget(selector: string, t: Target, p: Parsed)
    requires StartsWith(selector, TargetName(t))
    ensures AppendSelector(Some(selector), p).Ok? <==> p.target == t
  {
    if p.target != t {
      assert selector[..4] != TargetName(p.target);
    }
  }

  // ---------------------------------------------------------------------------------------------------------
  // Error messages

  /**
   * An error message as the compiler writes it: never empty, and beginning with `I`, `N` or `C`, so never
   * with the `Find: `/`Hide: ` prefix the error channels add.
   */
  predicate IsMessage(m: string) {
    m != [] && (m[0] == 'I' || m[0] == 'N' || m[0] == 'C')
  }

  lemma FieldMessages(f: Binary, op: string, val: string, conjunctive: bool, flags: Flags)
    ensures var o := FieldOutcome(f, op, val, conjunctive, flags); o.result.Fail? ==> IsMessage(o.result.message)
  {
    match f
    case RankField =>
      var o := RankOutcome(op, val, flags);
      if InRankRange(ToNumber(val)) && o.result.Fail? {
        assert IsMessage(NumericSelector(NodeRank, op, val).message);
      }
    case NumericField(target, attr, needs) =>
      var o := NumericOutcome(target, attr, op, val, Enable(needs, flags));
      if o.result.Fail? {
        assert IsMessage(NumericSelector(attr, op, val).message);
      }
    case _ =>
  }

  /** Every failing expression reports a message. */
  lemma ExpressionMessages(expr: string, conjunctive: bool, flags: Flags)
    ensures var o := ParseExpression(expr, conjunctive, flags); o.result.Fail? ==> IsMessage(o.result.message)
  {
    match FindOperator(expr)
    case None =>
      assert IsMessage(NoOperatorMessage);
      UnaryMessages(Trim(expr), false, flags);
    case Some(op) =>
      var tokens := Split(expr, op);
      if op == "!" {
        UnaryMessages(Trim(tokens[1]), true, flags);
      } else {
        BinaryMessages(Trim(tokens[0]), op, Trim(tokens[1]), conjunctive, flags);
      }
  }

  lemma UnaryMessages(field: string, negated: bool, flags: Flags)
    ensures var o := ParseUnary(field, negated, flags); o.result.Fail? ==> IsMessage(o.result.message)
  {
    assert IsMessage(InvalidUnaryMessage);
  }

  lemma BinaryMessages(field: string, op: string, val: string, conjunctive: bool, flags: Flags)
    ensures var o := ParseBinary(field, op, val, conjunctive, flags); o.result.Fail? ==> IsMessage(o.result.message)
  {
    if ToLower(field) in BinaryOperands {
      FieldMessages(BinaryOperands[ToLower(field)], op, val, conjunctive, flags);
    } else {
      assert IsMessage(InvalidOperandMessage(field));
    }
  }

  // ---------------------------------------------------------------------------------------------------------
  // The completion vocabulary

  /**
   * Every operand offered for completion is one the compiler understands, except `grpcerr`: the compiler
   * knows the gRPC error rate only as `%grpcerr` and `%grpcerror`, so a completed `grpcerr` is refused.
   */
  lemma OfferedOperandsAreKnown(k: nat)
    requires k < |Operands|
    ensures Operands[k] in UnaryOperands || Operands[k] in BinaryOperands <==> Operands[k] != "grpcerr"
  {
    GrpcErrIsUnknown();
    if k == 10 {
      assert Operands[k] == "grpcerr";
    } else if k < 23 {
      OfferedOperandsFirstHalf(k);
    } else {
      OfferedOperandsSecondHalf(k);
    }
  }

  /** No table has a `grpcerr` operand. */
  lemma GrpcErrIsUnknown()
    ensures "grpcerr" !in UnaryOperands && "grpcerr" !in BinaryOperands
  {
  }

  lemma OfferedOperandsFirstHalf(k: nat)
    requires k < 23 && k != 10
    ensures Operands[k] in UnaryOperands || Operands[k] in BinaryOperands
  {
    if k < 10 {
      assert Operands[k] in ["%grpcerr", "%grpctraffic", "%httperr", "%httptraffic", "app", "circuitbreaker", "cluster",
                             "destprincipal", "faultinjection", "grpc"];
    } else {
      assert Operands[k] in ["grpcin", "grpcout", "healthy", "http", "httpin", "httpout", "idle", "mirroring", "mtls",
                             "name", "namespace", "node"];
    }
  }

  lemma OfferedOperandsSecondHalf(k: nat)
    requires 23 <= k < |Operands|
    ensures Operands[k] in UnaryOperands || Operands[k] in BinaryOperands
  {
  }
}
