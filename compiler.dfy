/**
 * What compiling a whole query does (`parseValue`), as a function: the query is normalised, split into OR
 * clauses and each clause into AND expressions; the expressions of a clause are appended into one selector,
 * and the clause selectors are joined with `,`. Compiling also reports to the error channel: once per
 * compiled clause to clear it, and once with the message of the first failure, which ends the compilation.
 */
module Compiler {
  import opened Wrappers
  import opened Text
  import opened Normalise
  import opened Expression

  /**
   * The selector (None when there is none), the display changes asked for, and the error reports made,
   * in order: None clears the channel's error, Some(m) reports m.
   */
  datatype Compilation = Compilation(selector: Option<string>, requests: seq<Request>, reports: seq<Option<string>>)

  /** A clause compiled from some expression on: its selector or the first failure, and the requests made. */
  datatype ClauseOutcome = ClauseOutcome(result: Result<string>, requests: seq<Request>)

  /** An expression compiler: an expression and whether its clause is conjunctive, to its outcome. */
  type Parser = (string, bool) -> Outcome

  /** `parseExpression` against the display settings of the moment. */
  function ExpressionParser(flags: Flags): Parser {
    (expr, conjunctive) => ParseExpression(expr, conjunctive, flags)
  }

  const OrSeparator := " OR "
  const AndSeparator := " AND "

  /** The expressions of a clause compiled in order, each appended to the selector accumulated so far. */
  function CompileClause(parse: Parser, exprs: seq<string>, conjunctive: bool, acc: Option<string>): (c: ClauseOutcome)
    requires exprs != [] || acc.Some?
    decreases |exprs|
  {
    if exprs == [] then ClauseOutcome(Ok(acc.value), [])
    else
      var o := parse(exprs[0], conjunctive);
      match o.result
      case Fail(m) => ClauseOutcome(Fail(m), o.requests)
      case Ok(p) =>
        match AppendSelector(acc, p)
        case Fail(m) => ClauseOutcome(Fail(m), o.requests)
        case Ok(sel) =>
          var rest := CompileClause(parse, exprs[1..], conjunctive, Some(sel));
          ClauseOutcome(rest.result, o.requests + rest.requests)
  }

  /** The expressions of a clause. */
  function Expressions(clause: string): (exprs: seq<string>)
    ensures exprs != []
  {
    Split(clause, AndSeparator)
  }

  /** One clause compiled on its own; its expressions are conjunctive when there are several. */
  function ClauseOf(parse: Parser, clause: string): ClauseOutcome {
    var exprs := Expressions(clause);
    CompileClause(parse, exprs, |exprs| > 1, None)
  }

  /** The clauses from the first on, each joined to the selector accumulated so far. */
  function CompileClauses(parse: Parser, clauses: seq<string>, orSelector: Option<string>): Compilation
    decreases |clauses|
  {
    if clauses == [] then Compilation(orSelector, [], [])
    else
      var c := ClauseOf(parse, clauses[0]);
      match c.result
      case Fail(m) => Compilation(None, c.requests, [Some(m)])
      case Ok(sel) =>
        var joined := if orSelector.None? || orSelector.value == "" then sel else orSelector.value + "," + sel;
        var rest := CompileClauses(parse, clauses[1..], Some(joined));
        Compilation(rest.selector, c.requests + rest.requests, [None] + rest.reports)
  }

  /** The compilation `rest`, preceded by the requests and reports made before it. */
  function After(requests: seq<Request>, reports: seq<Option<string>>, rest: Compilation): Compilation {
    Compilation(rest.selector, requests + rest.requests, reports + rest.reports)
  }

  lemma AfterAfter(rs1: seq<Request>, ps1: seq<Option<string>>, rs2: seq<Request>, ps2: seq<Option<string>>, rest: Compilation)
    ensures After(rs1, ps1, After(rs2, ps2, rest)) == After(rs1 + rs2, ps1 + ps2, rest)
  {
    assert rs1 + (rs2 + rest.requests) == (rs1 + rs2) + rest.requests;
    assert ps1 + (ps2 + rest.reports) == (ps1 + ps2) + rest.reports;
  }

  /** The OR clauses of a normalised query. */
  function Clauses(prepared: string): (clauses: seq<string>)
    ensures clauses != []
  {
    Split(prepared, OrSeparator)
  }

  /**
   * `parseValue` with a given expression compiler: a query that normalises to nothing has no selector and
   * reports nothing; otherwise its OR clauses are compiled in turn.
   */
  function CompileWith(parse: Parser, val: string): Compilation {
    var prepared := Prepared(val);
    if prepared == "" then Compilation(None, [], [])
    else CompileClauses(parse, Clauses(prepared), None)
  }

  /** `parseValue` with `parseExpression` reading the display settings `flags`. */
  function Compile(val: string, flags: Flags): Compilation {
    CompileWith(ExpressionParser(flags), val)
  }

  // ---------------------------------------------------------------------------------------------------------
  // Reference definitions

  /** The fragments of the expressions of a clause, concatenated (a failing expression adds nothing). */
  function Fragments(parse: Parser, exprs: seq<string>, conjunctive: bool): string
    decreases |exprs|
  {
    if exprs == [] then ""
    else
      var o := parse(exprs[0], conjunctive);
      (if o.result.Ok? then o.result.value.selector else "") + Fragments(parse, exprs[1..], conjunctive)
  }

  /** The expression compiles, to a fragment about `t`. */
  predicate IsAbout(parse: Parser, expr: string, conjunctive: bool, t: Target) {
    var o := parse(expr, conjunctive);
    o.result.Ok? && o.result.value.target == t
  }

  /** Every expression compiles, and to a fragment about `t`. */
  predicate AllAbout(parse: Parser, exprs: seq<string>, conjunctive: bool, t: Target) {
    forall i :: 0 <= i < |exprs| ==> IsAbout(parse, exprs[i], conjunctive, t)
  }

  /** The selector of each clause, or None when some clause fails. */
  function ClauseSelectors(parse: Parser, clauses: seq<string>): Option<seq<string>>
    decreases |clauses|
  {
    if clauses == [] then Some([])
    else match (ClauseOf(parse, clauses[0]).result, ClauseSelectors(parse, clauses[1..]))
      case (Ok(sel), Some(rest)) => Some([sel] + rest)
      case _ => None
  }

  /** Every request asks for an option that is off in the flags the compilation read. */
  ghost predicate AllRequestsOff(rs: seq<Request>, flags: Flags) {
    forall r :: r in rs ==> exists o :: !IsOn(o, flags) && Enable(Some(o), flags) == [r]
  }

  // ---------------------------------------------------------------------------------------------------------
  // Properties

  /** A blank query compiles to no selector, asks for nothing and reports nothing. */
  lemma BlankQueryCompilesToNothing(val: string, flags: Flags)
    requires forall i :: 0 <= i < |val| ==> IsWhitespace(val[i])
    ensures Compile(val, flags) == Compilation(None, [], [])
  {
    BlankPreparesToEmpty(val);
  }

  lemma AllAboutFirst(parse: Parser, exprs: seq<string>, conjunctive: bool, t: Target)
    requires exprs != []
    ensures AllAbout(parse, exprs, conjunctive, t) <==>
      IsAbout(parse, exprs[0], conjunctive, t) && AllAbout(parse, exprs[1..], conjunctive, t)
  {
    if IsAbout(parse, exprs[0], conjunctive, t) && AllAbout(parse, exprs[1..], conjunctive, t) {
      forall i | 0 < i < |exprs| ensures IsAbout(parse, exprs[i], conjunctive, t) {
        assert exprs[i] == exprs[1..][i - 1];
      }
    }
    if AllAbout(parse, exprs, conjunctive, t) {
      forall i | 0 <= i < |exprs| - 1 ensures IsAbout(parse, exprs[1..][i], conjunctive, t) {
        assert exprs[1..][i] == exprs[i + 1];
      }
    }
  }

  /**
   * A clause continued from a selector about `t` compiles exactly when every further expression compiles to
   * a fragment about `t`; its selector is then the fragments appended in order.
   */
  lemma {:induction false} ClauseContinued(parse: Parser, exprs: seq<string>, conjunctive: bool, sel: string, t: Target)
    requires StartsWith(sel, TargetName(t))
    ensures var c := CompileClause(parse, exprs, conjunctive, Some(sel));
      && (c.result.Ok? <==> AllAbout(parse, exprs, conjunctive, t))
      && (c.result.Ok? ==> c.result.value == sel + Fragments(parse, exprs, conjunctive))
    decreases |exprs|
  {
    if exprs != [] {
      AllAboutFirst(parse, exprs, conjunctive, t);
      var o := parse(exprs[0], conjunctive);
      if o.result.Ok? {
        var p := o.result.value;
        AppendKeepsTarget(sel, t, p);
        if p.target == t {
          var next := sel + p.selector;
          assert StartsWith(next, TargetName(t)) by { assert next[..4] == sel[..4]; }
          ClauseContinued(parse, exprs[1..], conjunctive, next, t);
        }
      }
    }
  }

  /**
   * A clause compiles exactly when every expression compiles to a fragment about the same elements as the
   * first; its selector is then that target followed by the fragments in order.
   */
  lemma ClauseCompiles(parse: Parser, exprs: seq<string>, conjunctive: bool)
    requires exprs != []
    ensures var first := parse(exprs[0], conjunctive);
      var c := CompileClause(parse, exprs, conjunctive, None);
      && (c.result.Ok? <==> first.result.Ok? && AllAbout(parse, exprs, conjunctive, first.result.value.target))
      && (c.result.Ok? ==> c.result.value == TargetName(first.result.value.target) + Fragments(parse, exprs, conjunctive))
  {
    var first := parse(exprs[0], conjunctive);
    if first.result.Ok? {
      var p := first.result.value;
      AllAboutFirst(parse, exprs, conjunctive, p.target);
      var sel := ClauseFirstStep(parse, exprs, conjunctive);
      ClauseContinued(parse, exprs[1..], conjunctive, sel, p.target);
      assert Fragments(parse, exprs, conjunctive) == p.selector + Fragments(parse, exprs[1..], conjunctive);
    }
  }

  /** A clause whose first expression compiles goes on from that expression's target and fragment. */
  lemma ClauseFirstStep(parse: Parser, exprs: seq<string>, conjunctive: bool) returns (sel: string)
    requires exprs != [] && parse(exprs[0], conjunctive).result.Ok?
    ensures var p := parse(exprs[0], conjunctive).result.value;
      && sel == TargetName(p.target) + p.selector
      && StartsWith(sel, TargetName(p.target))
      && CompileClause(parse, exprs, conjunctive, None).result == CompileClause(parse, exprs[1..], conjunctive, Some(sel)).result
  {
    var p := parse(exprs[0], conjunctive).result.value;
    sel := TargetName(p.target) + p.selector;
    assert AppendSelector(None, p) == Ok(sel);
  }

  /** Every compiled clause has a selector, beginning with its target. */
  lemma ClauseSelectorNonEmpty(parse: Parser, clause: string)
    ensures ClauseOf(parse, clause).result.Ok? ==> |ClauseOf(parse, clause).result.value| >= 4
  {
    var exprs := Expressions(clause);
    ClauseCompiles(parse, exprs, |exprs| > 1);
  }

  /** The accumulated selector followed by the new clause selectors, comma-separated. */
  function JoinedTo(acc: Option<string>, ss: seq<string>): string {
    if acc.None? || acc.value == "" then Join(ss, ",")
    else if ss == [] then acc.value
    else acc.value + "," + Join(ss, ",")
  }

  /** No error to report, `n` times: the reports of `n` compiled clauses. */
  function Clears(n: nat): (r: seq<Option<string>>)
    ensures |r| == n && forall i :: 0 <= i < n ==> r[i].None?
  {
    if n == 0 then [] else [None] + Clears(n - 1)
  }

  /** Reports that clear the error some times and then, last, report a failure. */
  predicate ClearsThenFails(reports: seq<Option<string>>, bound: nat) {
    1 <= |reports| <= bound && reports == Clears(|reports| - 1) + [reports[|reports| - 1]]
    && reports[|reports| - 1].Some?
  }

  lemma ClearThenFailsOneMore(reports: seq<Option<string>>, bound: nat)
    requires ClearsThenFails(reports, bound)
    ensures ClearsThenFails([None] + reports, bound + 1)
  {
    var n := |reports|;
    assert [None] + Clears(n - 1) == Clears(n);
  }

  /** One step of compiling the clauses: the first clause fails and ends it, or clears the error and goes on. */
  lemma CompileClausesStep(parse: Parser, clauses: seq<string>, acc: Option<string>)
    requires clauses != []
    ensures var c := ClauseOf(parse, clauses[0]);
      CompileClauses(parse, clauses, acc) ==
        if c.result.Fail? then After(c.requests, [Some(c.result.message)], Compilation(None, [], []))
        else
          var sel := c.result.value;
          After(c.requests, [None], CompileClauses(parse, clauses[1..], Some(if acc.None? || acc.value == "" then sel else acc.value + "," + sel)))
  {
  }

  /** Joining a clause selector to the accumulated one, then the rest, is joining them all. */
  lemma JoinedToStep(acc: Option<string>, sel: string, ss: seq<string>)
    requires sel != ""
    ensures JoinedTo(Some(if acc.None? || acc.value == "" then sel else acc.value + "," + sel), ss) == JoinedTo(acc, [sel] + ss)
  {
    if ss != [] {
      assert ([sel] + ss)[1..] == ss;
      assert Join([sel] + ss, ",") == sel + "," + Join(ss, ",");
      if acc.Some? && acc.value != "" {
        assert JoinedTo(acc, [sel] + ss) == acc.value + "," + sel + "," + Join(ss, ",");
      }
    }
  }

  /**
   * The clauses compile when each does, to the selectors joined with `,`; each compiled clause clears the
   * error, and the first failing one reports its message and ends the compilation.
   */
  lemma {:induction false} ClausesJoin(parse: Parser, clauses: seq<string>, acc: Option<string>)
    requires acc.Some? || clauses != []
    ensures var c := CompileClauses(parse, clauses, acc);
      && c.selector == (match ClauseSelectors(parse, clauses) case None => None case Some(ss) => Some(JoinedTo(acc, ss)))
      && (ClauseSelectors(parse, clauses).Some? ==> c.reports == Clears(|clauses|))
      && (ClauseSelectors(parse, clauses).None? ==> ClearsThenFails(c.reports, |clauses|))
    decreases |clauses|
  {
    if clauses != [] {
      var c := ClauseOf(parse, clauses[0]);
      CompileClausesStep(parse, clauses, acc);
      match c.result
      case Fail(m) =>
        assert [Some(m)] == Clears(0) + [Some(m)];
      case Ok(sel) =>
        ClauseSelectorNonEmpty(parse, clauses[0]);
        var joined := if acc.None? || acc.value == "" then sel else acc.value + "," + sel;
        ClausesJoin(parse, clauses[1..], Some(joined));
        var rest := CompileClauses(parse, clauses[1..], Some(joined));
        match ClauseSelectors(parse, clauses[1..])
        case None =>
          ClearThenFailsOneMore(rest.reports, |clauses| - 1);
        case Some(ss) =>
          JoinedToStep(acc, sel, ss);
    }
  }

  /**
   * A query compiles exactly when it normalises to something and each of its clauses compiles; its selector
   * is then the clause selectors joined with `,`, and it clears the error once per clause. A failing query
   * clears the error for each clause before the failing one, then reports the failure.
   */
  lemma CompileSelector(val: string, flags: Flags)
    ensures var prepared := Prepared(val);
      var parse := ExpressionParser(flags);
      var c := Compile(val, flags);
      && (prepared == "" ==> c == Compilation(None, [], []))
      && (prepared != "" ==>
            && c.selector == (match ClauseSelectors(parse, Clauses(prepared))
                              case None => None case Some(ss) => Some(Join(ss, ",")))
            && (c.selector.Some? ==> c.reports == Clears(|Clauses(prepared)|))
            && (c.selector.None? ==> ClearsThenFails(c.reports, |Clauses(prepared)|)))
  {
    CompileWithSelector(ExpressionParser(flags), val);
  }

  /** The same for any expression compiler. */
  lemma CompileWithSelector(parse: Parser, val: string)
    ensures var prepared := Prepared(val);
      var c := CompileWith(parse, val);
      && (prepared == "" ==> c == Compilation(None, [], []))
      && (prepared != "" ==>
            && c.selector == (match ClauseSelectors(parse, Clauses(prepared))
                              case None => None case Some(ss) => Some(Join(ss, ",")))
            && (c.selector.Some? ==> c.reports == Clears(|Clauses(prepared)|))
            && (c.selector.None? ==> ClearsThenFails(c.reports, |Clauses(prepared)|)))
  {
    if Prepared(val) != "" {
      ClausesJoin(parse, Clauses(Prepared(val)), None);
    }
  }

  lemma RequestsOffAppend(a: seq<Request>, b: seq<Request>, flags: Flags)
    requires AllRequestsOff(a, flags) && AllRequestsOff(b, flags)
    ensures AllRequestsOff(a + b, flags)
  {
    forall r | r in a + b ensures exists o :: !IsOn(o, flags) && Enable(Some(o), flags) == [r] {
      if r in a {} else { assert r in b; }
    }
  }

  /** A parser whose every outcome asks only for options that are off in `flags`. */
  ghost predicate AsksOnlyOff(parse: Parser, flags: Flags) {
    forall e, c :: AllRequestsOff(parse(e, c).requests, flags)
  }

  lemma {:induction false} ClauseRequestsOff(parse: Parser, flags: Flags, exprs: seq<string>, conjunctive: bool, acc: Option<string>)
    requires AsksOnlyOff(parse, flags)
    requires exprs != [] || acc.Some?
    ensures AllRequestsOff(CompileClause(parse, exprs, conjunctive, acc).requests, flags)
    decreases |exprs|
  {
    if exprs != [] {
      var o := parse(exprs[0], conjunctive);
      if o.result.Ok? && AppendSelector(acc, o.result.value).Ok? {
        var sel := AppendSelector(acc, o.result.value).value;
        ClauseRequestsOff(parse, flags, exprs[1..], conjunctive, Some(sel));
        RequestsOffAppend(o.requests, CompileClause(parse, exprs[1..], conjunctive, Some(sel)).requests, flags);
      }
    }
  }

  lemma {:induction false} ClausesRequestsOff(parse: Parser, flags: Flags, clauses: seq<string>, acc: Option<string>)
    requires AsksOnlyOff(parse, flags)
    ensures AllRequestsOff(CompileClauses(parse, clauses, acc).requests, flags)
    decreases |clauses|
  {
    if clauses != [] {
      var exprs := Expressions(clauses[0]);
      ClauseRequestsOff(parse, flags, exprs, |exprs| > 1, None);
      var c := ClauseOf(parse, clauses[0]);
      if c.result.Ok? {
        var sel := c.result.value;
        var joined := if acc.None? || acc.value == "" then sel else acc.value + "," + sel;
        ClausesRequestsOff(parse, flags, clauses[1..], Some(joined));
        RequestsOffAppend(c.requests, CompileClauses(parse, clauses[1..], Some(joined)).requests, flags);
      }
    }
  }

  /**
   * A query asks only for display options that are off in the settings it was compiled against. The
   * settings are read once, so two operands that need the same option both ask for it.
   */
  lemma CompileRequestsOnlyOffOptions(val: string, flags: Flags)
    ensures AllRequestsOff(Compile(val, flags).requests, flags)
  {
    var parse := ExpressionParser(flags);
    forall e, c ensures AllRequestsOff(parse(e, c).requests, flags) {
      ExpressionRequestsOnlyOffOptions(e, c, flags);
    }
    var prepared := Prepared(val);
    if prepared != "" {
      ClausesRequestsOff(parse, flags, Clauses(prepared), None);
    }
  }

  /** A parser whose every failure reports a message. */
  ghost predicate FailsWithMessages(parse: Parser) {
    forall e, c :: parse(e, c).result.Fail? ==> IsMessage(parse(e, c).result.message)
  }

  /** Every report that is not a clearing one carries a message. */
  predicate ReportsMessages(reports: seq<Option<string>>) {
    forall i :: 0 <= i < |reports| && reports[i].Some? ==> IsMessage(reports[i].value)
  }

  lemma {:induction false} ClauseMessage(parse: Parser, exprs: seq<string>, conjunctive: bool, acc: Option<string>)
    requires FailsWithMessages(parse)
    requires exprs != [] || acc.Some?
    ensures var c := CompileClause(parse, exprs, conjunctive, acc); c.result.Fail? ==> IsMessage(c.result.message)
    decreases |exprs|
  {
    if exprs != [] {
      var o := parse(exprs[0], conjunctive);
      if o.result.Ok? {
        match AppendSelector(acc, o.result.value)
        case Fail(m) => assert m == MixedTargetsMessage;
        case Ok(sel) => ClauseMessage(parse, exprs[1..], conjunctive, Some(sel));
      }
    }
  }

  lemma {:induction false} ClausesMessages(parse: Parser, clauses: seq<string>, acc: Option<string>)
    requires FailsWithMessages(parse)
    ensures ReportsMessages(CompileClauses(parse, clauses, acc).reports)
    decreases |clauses|
  {
    if clauses != [] {
      var exprs := Expressions(clauses[0]);
      ClauseMessage(parse, exprs, |exprs| > 1, None);
      var c := ClauseOf(parse, clauses[0]);
      if c.result.Ok? {
        var sel := c.result.value;
        var joined := if acc.None? || acc.value == "" then sel else acc.value + "," + sel;
        ClausesMessages(parse, clauses[1..], Some(joined));
        var rest := CompileClauses(parse, clauses[1..], Some(joined)).reports;
        forall i | 0 < i < |rest| + 1 && ([None] + rest)[i].Some? ensures IsMessage(([None] + rest)[i].value) {
          assert ([None] + rest)[i] == rest[i - 1];
        }
      }
    }
  }

  /** Whatever a query reports to its error channel is a message or a clearing. */
  lemma CompileReportsMessages(val: string, flags: Flags)
    ensures ReportsMessages(Compile(val, flags).reports)
  {
    var parse := ExpressionParser(flags);
    forall e, c ensures parse(e, c).result.Fail? ==> IsMessage(parse(e, c).result.message) {
      ExpressionMessages(e, c, flags);
    }
    var prepared := Prepared(val);
    if prepared != "" {
      ClausesMessages(parse, Clauses(prepared), None);
    }
  }

  /**
   * What a query reports to its error channel: nothing when it is blank, only clearings when it compiles,
   * and otherwise clearings ended by one message.
   */
  predicate ReportsAsCompiled(val: string, c: Compilation) {
    && ReportsMessages(c.reports)
    && (Prepared(val) == "" ==> c.reports == [])
    && (Prepared(val) != "" && c.selector.Some? ==> c.reports != [] && forall i :: 0 <= i < |c.reports| ==> c.reports[i].None?)
    && (Prepared(val) != "" && c.selector.None? ==>
          c.reports != [] && c.reports[|c.reports| - 1].Some? && IsMessage(c.reports[|c.reports| - 1].value))
  }

  /** Every query reports as it compiles. */
  lemma CompileReports(val: string, flags: Flags)
    ensures ReportsAsCompiled(val, Compile(val, flags))
  {
    CompileSelector(val, flags);
    CompileReportsMessages(val, flags);
  }
}
