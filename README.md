# Graph find/hide query engine

A model of the find/hide toolbar of the Kiali graph page (`GraphFind.tsx`). The user types a query such as
`app = reviews AND httpin > 5 OR !healthy`. The toolbar compiles it into a Cytoscape selector, then either
marks the matching elements with the `find` class or hides or removes them from the graph.

The model follows the source function by function:

- **`Normalise`** (prepareValue). The query is rewritten by a fixed sequence of case-insensitive replacements,
  then trimmed. `PrepareValue` keeps the source's step-by-step reassignment, and the function `Prepared` is its
  specification.
- **`Expression`** (parseExpression, getNumericSelector, parseUnaryFindExpression, appendSelector). This covers:
  - the operator scan;
  - the two closed operand tables;
  - the numeric absent/present rule;
  - the `name`, `node` and `rank` rules;
  - joining fragments into one clause.

  Error messages are returned as `Fail(message)`. Asking for a display option to be switched on (rank,
  security, idle nodes, edge labels) is returned as a list of `Request` values beside the result. Each request
  is made only when its option is off in the display settings the expression was compiled against.
- **`Compiler`** (parseValue as a function). The normalised query is split on ` OR `, each clause on ` AND `,
  and the expressions of a clause are appended in order. The clause selectors are joined with `,`. The result
  also holds the `setError` reports made on the way: a clearing for each compiled clause, then the message of
  the first failure.
- **`Errors`** (setError). There are two error channels, with a `Find: ` or `Hide: ` prefix. `SetErrorAsWritten`
  is `setError` as the source writes it, and the component uses it. `SetErrorIntended` is the reading in which each call
  changes only its own channel; the two differ in one case, listed under "## Findings".
- **`Rewrites`**. Theorems about `Prepared` on single-spaced queries: which words each rewrite changes, and
  into what.
- **`Graph`**. An abstract graph made of nodes, edges with endpoints, the idle and box flags, and the parent
  box of each node. It records which elements are present, hidden and marked. The `Cy` class stands for the
  Cytoscape object with the operations the toolbar calls.
- **`Toolbar`**. The `GraphFind` component as a class. Its fields are the component state, the state queued
  by `setState`, and the `hiddenElements`/`removedElements` handles. Its methods are `setError`,
  `setFind`/`setHide`, `parseValue` with its two loops, `handleFind`, `handleHide` and `componentDidUpdate`.
  Functions beside the class specify one update as a whole.

Other modelling choices:

- **React state.** Inside a lifecycle method, `setState` is batched. The component keeps reading the old state
  until the update ends, and the last write to a field wins. So `state` is what the methods read, `pending` is
  what the batch will produce, and `DidUpdate` ends with `state := pending`.
- **Selector matching.** It is not modelled. A parameter `matches: string -> set<Id>` gives the elements a
  selector selects, and the graph restricts it to the elements present.
- **Expressions as a parameter.** The clause loops take the expression compiler as a parameter (`Parser`).
  The component is always given `ExpressionParser(flags)`, which is `parseExpression` under the display
  settings of the update.
- **JavaScript semantics.** These are modelled as the language defines them:
  - `trim` removes the ECMAScript whitespace set;
  - `split` and `includes` work on string separators;
  - `toLowerCase` is modelled for every character that lowercases to ASCII;
  - a regular expression with the `i` flag folds only ASCII letters against these ASCII patterns;
  - `Number(s)`, and so `isNaN(s)`, follows the StringNumericLiteral grammar. This includes the empty string
    meaning 0, `Infinity`, and the `0x`/`0o`/`0b` forms.
- **Attribute names.** `CyNode.*`, `CyEdge.*`, `NodeType.*`, the health states and the edge-label modes are
  string constants in `Vocabulary`. The file defining them is not part of this model.
- **A refused completion.** The completion list (`operands`) offers `grpcerr`. No operand table knows it:
  the gRPC error rate is `%grpcerr` or `%grpcerror`. So a query completed to `grpcerr` is refused as an
  invalid operand (`OfferedOperandsAreKnown`).

## Model

| member | source | states |
|---|---|---|
| Normalise.PrepareValue | src/pages/Graph/GraphToolbar/GraphFind.tsx:568-593 | the method's reassignments, in the source's order, compute `Prepared(val)`, the specification the `Rewrites` lemmas characterise; its result has no whitespace at either end |
| Rewrites.QuietUnchanged | src/pages/Graph/GraphToolbar/GraphFind.tsx:568-593 | a single-spaced query none of whose words is an `is`, `has`, `not`, operator or conjunction word (in any case) comes out exactly as it went in |
| Rewrites.QualifierDropped | src/pages/Graph/GraphToolbar/GraphFind.tsx:574-575 | the word `is` or `has`, in any case and in any position but the last (the first included), is removed and the rest kept |
| Rewrites.NegatedQualifierDropped | src/pages/Graph/GraphToolbar/GraphFind.tsx:576-577 | `!is` or `!has` before a plain word becomes a lone `!` before it, and the rest is kept |
| Rewrites.BangQualifierDropped | src/pages/Graph/GraphToolbar/GraphFind.tsx:574-577 | a lone `!` followed by `is` or `has` (in any case) and then a plain word keeps the `!` before that word: the literal pattern drops the qualifier first, so the negated pattern finds nothing left; the rest is kept |
| Rewrites.NotNegates | src/pages/Graph/GraphToolbar/GraphFind.tsx:580 | `not` followed by a plain word becomes `!` glued to that word, and the rest is kept |
| Rewrites.NotOperatorSpelled | src/pages/Graph/GraphToolbar/GraphFind.tsx:580-583 | `not contains`, `not startswith`, `not endswith` become `!*=`, `!^=`, `!$=`, and the rest is kept |
| Rewrites.BangOperatorSpelled | src/pages/Graph/GraphToolbar/GraphFind.tsx:581-586 | a lone `!` followed by `contains`, `startswith` or `endswith` becomes `!*=`, `!^=`, `!$=`: the negated operator patterns run before the bare ones, so the `!` is kept; the rest is kept |
| Rewrites.OperatorSpelled | src/pages/Graph/GraphToolbar/GraphFind.tsx:584-586 | `contains`, `startswith`, `endswith` become `*=`, `^=`, `$=`, and the rest is kept |
| Rewrites.ConjunctionSpelled | src/pages/Graph/GraphToolbar/GraphFind.tsx:589-590 | `and` and `or`, in any case, become `AND` and `OR`, and the rest is kept |
| Rewrites.NoSpaceUntouched | src/pages/Graph/GraphToolbar/GraphFind.tsx:568-593 | a query without a space is only trimmed: no pattern, each set off by spaces, can match in it |
| Normalise.ReplaceAllNoMatch | src/pages/Graph/GraphToolbar/GraphFind.tsx:570-590 | a global replacement whose pattern matches nowhere leaves the text unchanged |
| Normalise.PreparedWithoutLetters | src/pages/Graph/GraphToolbar/GraphFind.tsx:568-593 | a query with no letter mentions no rewritten word, so normalising only collapses its runs of spaces and trims it |
| Normalise.UnqualifiedWithoutLetters | src/pages/Graph/GraphToolbar/GraphFind.tsx:574-577 | the `is`/`has` qualifier removals leave text without letters unchanged |
| Normalise.NegatedWordsWithoutLetters | src/pages/Graph/GraphToolbar/GraphFind.tsx:580-583 | the `not` and negated operator-word rewrites leave text without letters unchanged |
| Normalise.OperatorWordsWithoutLetters | src/pages/Graph/GraphToolbar/GraphFind.tsx:584-586 | the plain operator-word rewrites leave text without letters unchanged |
| Normalise.ConjunctionsWithoutLetters | src/pages/Graph/GraphToolbar/GraphFind.tsx:589-590 | the conjunction rewrites leave text without letters unchanged |
| Normalise.ReplaceAllWithoutLetters | src/pages/Graph/GraphToolbar/GraphFind.tsx:574-590 | a case-insensitive global replacement of a pattern that spells a word never matches in text without letters |
| Normalise.CollapsedHasNoDoubleSpace | src/pages/Graph/GraphToolbar/GraphFind.tsx:570 | after `replace(/ +(?= )/g, '')` no two spaces are adjacent |
| Normalise.CollapseKeepsText | src/pages/Graph/GraphToolbar/GraphFind.tsx:570 | collapsing removes only spaces: the other characters stay, in order |
| Normalise.CollapseSingleSpaced | src/pages/Graph/GraphToolbar/GraphFind.tsx:570 | text without adjacent spaces is left unchanged by collapsing |
| Normalise.CollapseChars | src/pages/Graph/GraphToolbar/GraphFind.tsx:570 | every character of the collapsed text is a character of the original |
| Normalise.TrimLeadingSpace | src/pages/Graph/GraphToolbar/GraphFind.tsx:573-592 | the space put in front before the rewrites is removed by the final trim |
| Normalise.BlankPreparesToEmpty | src/pages/Graph/GraphToolbar/GraphFind.tsx:568-593 | a query of whitespace only normalises to the empty string |
| Normalise.EqualsIgnoreCaseAt | src/pages/Graph/GraphToolbar/GraphFind.tsx:574-590 | texts equal under `i`-flag matching agree, position by position, up to ASCII case |
| Normalise.LeadingWhitespace | src/pages/Graph/GraphToolbar/GraphFind.tsx:576-583 | the `\s*` run in the negated patterns is the longest whitespace prefix |
| Normalise.MatchLength | src/pages/Graph/GraphToolbar/GraphFind.tsx:574-590 | a match of a pattern is non-empty and within the text, so the global replacement always advances |
| Compiler.BlankQueryCompilesToNothing | src/pages/Graph/GraphToolbar/GraphFind.tsx:535-538 | a blank query has no selector, asks for no display change and reports no error |
| Expression.FindOperator | src/pages/Graph/GraphToolbar/GraphFind.tsx:600-626 | the operator is the first entry of `!=, !*=, !$=, !^=, >=, <=, *=, $=, ^=, =, >, <, !` that the expression contains; with none, the expression contains none of them |
| Expression.FirstContained | src/pages/Graph/GraphToolbar/GraphFind.tsx:600-626 | the scan returns the first contained entry and skips only entries not contained |
| Expression.NoOperatorIffNoOperatorChar | src/pages/Graph/GraphToolbar/GraphFind.tsx:600-628 | an expression has no operator exactly when none of `!`, `=`, `<`, `>` occurs in it |
| Expression.ContainsChar | src/pages/Graph/GraphToolbar/GraphFind.tsx:600-626 | a character at some position is contained as a one-character string |
| Expression.ContainsPattern | src/pages/Graph/GraphToolbar/GraphFind.tsx:600-626 | every character of a contained operator occurs in the expression |
| Expression.WithoutComparisonChar | src/pages/Graph/GraphToolbar/GraphFind.tsx:600-624 | text without `=`, `<`, `>` contains no operator built on one of them |
| Expression.BangIsTheOperator | src/pages/Graph/GraphToolbar/GraphFind.tsx:600-626 | text with a `!` and none of `=`, `<`, `>` has `!` for its operator |
| Expression.ParseExpression | src/pages/Graph/GraphToolbar/GraphFind.tsx:628-645 | with no operator, an expression of several space-separated words fails with "No valid operator found…", and a single word is looked up, trimmed, as a plain flag; with `!`, the second `!`-separated token, trimmed, is looked up as a negated flag; with any other operator, the expression is split at every occurrence of it, and the trimmed text before the first occurrence and between the first and any second occurrence are the operand and value of a field condition |
| Expression.NegatedFlagRule | src/pages/Graph/GraphToolbar/GraphFind.tsx:600-641 | an expression with `!` and none of `=`, `<`, `>` is the negated flag named, trimmed, between the first `!` and any next one |
| Expression.BangOperatorRule | src/pages/Graph/GraphToolbar/GraphFind.tsx:637-641 | with `!` for operator, the second `!`-separated token, trimmed, is looked up as a negated flag |
| Expression.ParseBinary | src/pages/Graph/GraphToolbar/GraphFind.tsx:643-821 | an operand not in the field table, compared in lower case, fails with "Invalid operand [field]" and asks for nothing; a known one follows its field rule |
| Expression.NumericSelector | src/pages/Graph/GraphToolbar/GraphFind.tsx:824-853 | it fails exactly for a comparison with a non-numeric value (its message) or an operator other than the comparisons, `=` and `!=` (its message); a numeric value is kept verbatim as `[attr op val]`; `=` with a non-number gives `[!attr]` and `!=` gives `[?attr]` |
| Expression.DigitsCompareVerbatim | src/pages/Graph/GraphToolbar/GraphFind.tsx:824-853 | a value spelled in decimal digits is numeric, so every numeric operator gives `[attr op val]` |
| Expression.NumericOutcome | src/pages/Graph/GraphToolbar/GraphFind.tsx:653-668 | a numeric field compiles exactly when the numeric rule accepts, to that rule's selector, with the requests made before |
| Expression.RankRule | src/pages/Graph/GraphToolbar/GraphFind.tsx:717-729 | `rank` asks for the rank display exactly when it is off, even when it then fails; a value that is not a number from 1 to 100 fails with the rank message before the numeric rule; otherwise the numeric rule decides |
| Expression.RankFieldRule | src/pages/Graph/GraphToolbar/GraphFind.tsx:717-729 | the same rank rule, stated on the rank field before the operand lookup |
| Expression.NameRule | src/pages/Graph/GraphToolbar/GraphFind.tsx:670-680 | `name` fails exactly inside an AND clause, with its message; otherwise it tests the four name attributes and asks for nothing |
| Expression.NameSelector | src/pages/Graph/GraphToolbar/GraphFind.tsx:670-680 | a negated operator concatenates the four attribute conditions (all must hold); any other joins them with `,` (any may hold) |
| Expression.NodeTypeRule | src/pages/Graph/GraphToolbar/GraphFind.tsx:681-710 | `node` resolves `op`/`operation`, `svc`, `wl` in lower case and accepts exactly aggregate, app, service, workload, unknown; anything else fails naming the resolved type |
| Expression.NodeTypeFieldRule | src/pages/Graph/GraphToolbar/GraphFind.tsx:681-710 | the same node-type rule, stated on the node-type field before the operand lookup |
| Expression.StringFieldRule | src/pages/Graph/GraphToolbar/GraphFind.tsx:649-802 | a string field always compiles, to `[attr op "val"]` on its target, asking for its display option when off |
| Expression.NumericFieldRule | src/pages/Graph/GraphToolbar/GraphFind.tsx:654-818 | a numeric field follows the numeric rule and asks for its display option even when the value is refused |
| Expression.FieldNeedsOption | src/pages/Graph/GraphToolbar/GraphFind.tsx:717-815 | only `rank`, `destprincipal`, `sourceprincipal`, `rt`/`responsetime` and `throughput` need a display option, and each the one the source switches on |
| Expression.Enable | src/pages/Graph/GraphToolbar/GraphFind.tsx:717-721 | at most one request, and none exactly when no option is needed or it is already on |
| Expression.EnableSwitchesOn | src/pages/Graph/GraphToolbar/GraphFind.tsx:784-795 | applying the request switches the option on and changes no other setting; an edge-label request appends the group and mode to the labels shown |
| Expression.ParseUnary | src/pages/Graph/GraphToolbar/GraphFind.tsx:855-951 | a flag compiles exactly when its lower-case name is in the flag table, to that flag's target and fragment, asking for its option when off; otherwise it fails with "Invalid Node or Edge operand" and asks for nothing |
| Expression.UnarySelector | src/pages/Graph/GraphToolbar/GraphFind.tsx:855-951 | an attribute flag gives `[?attr]`, negated `[^attr]`; the sidecar flag the reverse; negated `healthy` is FAILURE or DEGRADED; `mtls` is `> 0` or `<= 0` |
| Expression.NegationChangesSelector | src/pages/Graph/GraphToolbar/GraphFind.tsx:855-951 | negating any flag operand changes its fragment |
| Expression.SpecialFlags | src/pages/Graph/GraphToolbar/GraphFind.tsx:873-944 | exactly `sc`/`sidecar` are inverted, exactly `healthy` tests health values, exactly `mtls` tests the mTLS value |
| Expression.UnaryTargets | src/pages/Graph/GraphToolbar/GraphFind.tsx:855-951 | every flag is about nodes except `mtls` and `traffic`, which are about edges |
| Expression.UnaryNeedsOption | src/pages/Graph/GraphToolbar/GraphFind.tsx:880-944 | only `idle` (idle nodes) and `mtls` (security) need a display option |
| Expression.EnableRequestsOff | src/pages/Graph/GraphToolbar/GraphFind.tsx:880-884 | what an operand asks for is at most one request, which switches on an option that is off |
| Expression.ExpressionRequestsOnlyOffOptions | src/pages/Graph/GraphToolbar/GraphFind.tsx:595-822 | every expression asks for at most one display change, for an option that is off |
| Expression.UnaryRequestsOff | src/pages/Graph/GraphToolbar/GraphFind.tsx:855-951 | a flag lookup asks only for an option that is off |
| Expression.BinaryRequestsOff | src/pages/Graph/GraphToolbar/GraphFind.tsx:646-821 | a field condition asks only for an option that is off |
| Expression.AppendSelector | src/pages/Graph/GraphToolbar/GraphFind.tsx:953-965 | the first fragment is prefixed with its target; a later one is appended exactly when the selector so far begins with its target, and otherwise fails with "Can not AND node and edge criteria"; a result always begins with the fragment's target |
| Expression.AppendKeepsTarget | src/pages/Graph/GraphToolbar/GraphFind.tsx:953-965 | a selector begun with one target accepts a fragment exactly when the fragment is about that target |
| Expression.FieldMessages | src/pages/Graph/GraphToolbar/GraphFind.tsx:646-853 | every failing field condition fails with a message (non-empty, starting with `I`, `N` or `C`) |
| Expression.ExpressionMessages | src/pages/Graph/GraphToolbar/GraphFind.tsx:595-822 | every failing expression fails with such a message |
| Expression.UnaryMessages | src/pages/Graph/GraphToolbar/GraphFind.tsx:633-640 | a failing flag lookup fails with such a message |
| Expression.BinaryMessages | src/pages/Graph/GraphToolbar/GraphFind.tsx:646-821 | a failing field condition, known or not, fails with such a message |
| Expression.OfferedOperandsAreKnown | src/pages/Graph/GraphToolbar/GraphFind.tsx:73-120 | every operand offered for completion is in one of the two tables, except `grpcerr` |
| Expression.GrpcErrIsUnknown | src/pages/Graph/GraphToolbar/GraphFind.tsx:759-760 | `grpcerr` is in neither table |
| Expression.OfferedOperandsFirstHalf | src/pages/Graph/GraphToolbar/GraphFind.tsx:73-96 | each of the first 23 offered operands but `grpcerr` is known |
| Expression.OfferedOperandsSecondHalf | src/pages/Graph/GraphToolbar/GraphFind.tsx:96-120 | each of the remaining offered operands is known |
| Compiler.ClauseCompiles | src/pages/Graph/GraphToolbar/GraphFind.tsx:546-556 | a clause compiles exactly when every expression compiles to a fragment about the first one's target; its selector is that target followed by the fragments in order |
| Compiler.ClauseContinued | src/pages/Graph/GraphToolbar/GraphFind.tsx:549-556 | a clause continued from a selector about `t` compiles exactly when every further fragment is about `t`, to the fragments appended |
| Compiler.ClauseFirstStep | src/pages/Graph/GraphToolbar/GraphFind.tsx:549-556 | a clause whose first expression compiles goes on from that target and fragment |
| Compiler.ClauseSelectorNonEmpty | src/pages/Graph/GraphToolbar/GraphFind.tsx:546-561 | a compiled clause selector is never empty: it begins with its four-letter target |
| Compiler.AllAboutFirst | src/pages/Graph/GraphToolbar/GraphFind.tsx:548-556 | all expressions are about `t` exactly when the first is and all the rest are |
| Compiler.ClausesJoin | src/pages/Graph/GraphToolbar/GraphFind.tsx:542-565 | the clauses compile exactly when each does, to the accumulated selector and the clause selectors joined with `,`; a compiled query clears once per clause; a failing one clears and then reports |
| Compiler.CompileSelector | src/pages/Graph/GraphToolbar/GraphFind.tsx:534-566 | a query compiles exactly when it normalises to something and each OR clause compiles, to the clause selectors joined with `,`; it clears once per clause; a failing query clears for each earlier clause and then reports the failure |
| Compiler.CompileWithSelector | src/pages/Graph/GraphToolbar/GraphFind.tsx:534-566 | the same, for any expression compiler |
| Compiler.CompileReports | src/pages/Graph/GraphToolbar/GraphFind.tsx:534-566 | a blank query reports nothing; a compiled one only clears; a failing one reports a message last |
| Compiler.CompileReportsMessages | src/pages/Graph/GraphToolbar/GraphFind.tsx:534-566 | every report that is not a clearing carries a message |
| Compiler.ClauseMessage | src/pages/Graph/GraphToolbar/GraphFind.tsx:548-556 | a failing clause fails with a message |
| Compiler.ClausesMessages | src/pages/Graph/GraphToolbar/GraphFind.tsx:545-562 | all reports of the clauses are clearings or messages |
| Compiler.CompileRequestsOnlyOffOptions | src/pages/Graph/GraphToolbar/GraphFind.tsx:534-566 | a query asks only for options that are off in the settings it was compiled against |
| Compiler.ClauseRequestsOff | src/pages/Graph/GraphToolbar/GraphFind.tsx:548-556 | a clause asks only for options that are off |
| Compiler.ClausesRequestsOff | src/pages/Graph/GraphToolbar/GraphFind.tsx:545-562 | the clauses ask only for options that are off |
| Compiler.Clears | src/pages/Graph/GraphToolbar/GraphFind.tsx:559 | `n` clearings, in order |
| Compiler.Expressions | src/pages/Graph/GraphToolbar/GraphFind.tsx:546 | a clause has at least one expression |
| Compiler.Clauses | src/pages/Graph/GraphToolbar/GraphFind.tsx:542 | a query has at least one clause |
| Errors.Displayed | src/pages/Graph/GraphToolbar/GraphFind.tsx:524-531 | an undefined or empty error clears the channel; any other is shown behind its channel's prefix, which removed gives the error back |
| Errors.FindSuccessClearsHideError | src/pages/Graph/GraphToolbar/GraphFind.tsx:524-530 | as written, a succeeding find with no find error shown clears the hide error, unlike the intended `setError` |
| Errors.HideReportsAsWritten | src/pages/Graph/GraphToolbar/GraphFind.tsx:523-532 | hide reports are applied by the written `setError` exactly as by the intended one |
| Errors.FindReportsAsWritten | src/pages/Graph/GraphToolbar/GraphFind.tsx:523-532 | as written, find reports end the find channel as intended, and clear the hide channel exactly when no find error is shown, a hide error is, and some report clears; otherwise the hide channel is untouched |
| Errors.OwnChannelAsWritten | src/pages/Graph/GraphToolbar/GraphFind.tsx:523-532 | as written, the channel reported to ends as the intended `setError` leaves it |
| Errors.OtherChannelAsWritten | src/pages/Graph/GraphToolbar/GraphFind.tsx:523-532 | as written, hide reports leave the find channel alone, and find reports clear the hide channel exactly in the case above |
| Errors.SetErrorAgreesElsewhere | src/pages/Graph/GraphToolbar/GraphFind.tsx:523-532 | the written and intended `setError` agree on every call but a find equal to the find error shown |
| Errors.ReportedKeepsOtherChannel | src/pages/Graph/GraphToolbar/GraphFind.tsx:523-532 | reports to one channel never change the other |
| Errors.MessageIsNew | src/pages/Graph/GraphToolbar/GraphFind.tsx:523-532 | a message never equals a shown, prefixed error, so reporting it always writes |
| Errors.ReportedMessage | src/pages/Graph/GraphToolbar/GraphFind.tsx:523-532 | when the last report is a message, the channel shows it behind the prefix |
| Errors.ReportedClears | src/pages/Graph/GraphToolbar/GraphFind.tsx:523-559 | reports that only clear leave the channel clear |
| Errors.ReportedLabelled | src/pages/Graph/GraphToolbar/GraphFind.tsx:523-532 | whatever the reports, each channel is clear or shows its own prefix |
| Graph.ConnectedEdges | src/pages/Graph/GraphToolbar/GraphFind.tsx:473 | the present edges with an endpoint in the set |
| Graph.ConnectedNodes | src/pages/Graph/GraphToolbar/GraphFind.tsx:476 | the endpoints of the edges |
| Graph.Removal | src/pages/Graph/GraphToolbar/GraphFind.tsx:485-488 | `cy.remove` removes only present elements |
| Graph.ParentsOf | src/pages/Graph/GraphToolbar/GraphFind.tsx:487-494 | the boxes with a child in the set |
| Graph.RemovableBoxes | src/pages/Graph/GraphToolbar/GraphFind.tsx:487 | exactly the present boxes with no present child |
| Graph.HideableBoxes | src/pages/Graph/GraphToolbar/GraphFind.tsx:494 | exactly the present boxes with no child both present and not hidden |
| Graph.HideHitsAre | src/pages/Graph/GraphToolbar/GraphFind.tsx:469-481 | the hide hits are exactly the present non-boxes that are matched, or are edges with a matched endpoint, or are non-idle nodes all of whose present edges are direct hits |
| Graph.HideHitsTakeTheirEdges | src/pages/Graph/GraphToolbar/GraphFind.tsx:469-481 | every present edge of a node among the hide hits is a hide hit |
| Graph.UnhitNodesKeepAnEdge | src/pages/Graph/GraphToolbar/GraphFind.tsx:474-478 | a present non-idle node that is not a box and not a hit keeps a visible edge |
| Graph.RemovingHitsRemovesHits | src/pages/Graph/GraphToolbar/GraphFind.tsx:484-485 | removing the hide hits removes nothing else |
| Graph.HideHitsWithin | src/pages/Graph/GraphToolbar/GraphFind.tsx:469-481 | the hide hits are present elements |
| Graph.FindMarks | src/pages/Graph/GraphToolbar/GraphFind.tsx:509-521 | after a find, the marked present elements are exactly the matched ones; elements not present keep their mark |
| Graph.FindIdempotent | src/pages/Graph/GraphToolbar/GraphFind.tsx:509-521 | finding twice marks what finding once does |
| Graph.FindNothingClears | src/pages/Graph/GraphToolbar/GraphFind.tsx:513-518 | a find with no selector leaves no present element marked |
| Graph.Cy.constructor | src/pages/Graph/GraphToolbar/GraphFind.tsx:445-521 | a graph starts with every element present, none hidden, none marked |
| Graph.Cy.Select | src/pages/Graph/GraphToolbar/GraphFind.tsx:471-517 | `cy.$`: the matched elements present |
| Graph.Cy.Remove | src/pages/Graph/GraphToolbar/GraphFind.tsx:485-488 | the elements and their present edges leave the graph and are returned; visibility and marks are unchanged |
| Graph.Cy.Restore | src/pages/Graph/GraphToolbar/GraphFind.tsx:464-466 | the elements come back; nothing else changes |
| Graph.Cy.SetVisible | src/pages/Graph/GraphToolbar/GraphFind.tsx:458-495 | the style change adds or removes the elements from the hidden set, and changes nothing else |
| Graph.Cy.MarkFound | src/pages/Graph/GraphToolbar/GraphFind.tsx:514-519 | the marks become `FindMarks` of the matched set, or of none |
| Toolbar.HideUpdateRuns | src/pages/Graph/GraphToolbar/GraphFind.tsx:237-244 | when the hide half runs, it hides afresh the restored view and lays out as `handleHide` decides |
| Toolbar.FindErrorAfterRecompile | src/pages/Graph/GraphToolbar/GraphFind.tsx:228-235 | after recompiling the find value, the find channel is as aligned for a blank query, clear for one that compiles, and otherwise shows the first failure behind `Find: `; the hide channel is cleared when no find error was shown, a hide error was and some clause compiled (so always when the query compiles and no find error was shown), and is otherwise untouched |
| Toolbar.UpdateClearsHideError | src/pages/Graph/GraphToolbar/GraphFind.tsx:198-245 | as written, an update whose find compiles while no find error but a hide error is shown, and whose hide does not run, ends with both channels clear |
| Toolbar.HideErrorAfterRecompile | src/pages/Graph/GraphToolbar/GraphFind.tsx:237-244 | the same for the hide value and channel, whether the find half left the hide channel as shown or cleared it; the find channel keeps what the find half queued |
| Toolbar.ChannelAfterRecompile | src/pages/Graph/GraphToolbar/GraphFind.tsx:523-566 | for any expression compiler that reports as it compiles: the channel recompiled is as aligned, clear, or shows the failure; the other channel is kept, except that a find recompilation clears the hide channel when no find error is shown, a hide error is, and some report clears |
| Toolbar.ChannelAfterReports | src/pages/Graph/GraphToolbar/GraphFind.tsx:523-566 | the same, for the reports of such a compilation applied by the written `setError` |
| Toolbar.RestoreUndoesHide | src/pages/Graph/GraphToolbar/GraphFind.tsx:457-498 | on the same graph, the next update's restore undoes a hide exactly, when the view hid nothing present before |
| Toolbar.CompressRemoves | src/pages/Graph/GraphToolbar/GraphFind.tsx:469-489 | compressing removes exactly the hide hits and then the boxes left with no child, and every box that stays keeps a child |
| Toolbar.SoftHides | src/pages/Graph/GraphToolbar/GraphFind.tsx:469-497 | hiding softly changes no membership and removes nothing; the handle holds exactly the hits and the present boxes with no child left visible by them, and exactly these are added to the hidden elements |
| Toolbar.GraphFind.constructor | src/pages/Graph/GraphToolbar/GraphFind.tsx:134-169 | the inputs start with the given values, no error is shown and there are no handles |
| Toolbar.GraphFind.SetError | src/pages/Graph/GraphToolbar/GraphFind.tsx:523-532 | `setError` compares with the state read and queues the change as written: the find branch when a find's error differs from the shown find error, otherwise the hide branch when the error differs from the shown hide error |
| Toolbar.GraphFind.SetInput | src/pages/Graph/GraphToolbar/GraphFind.tsx:370-443 | `setFind`/`setHide` queue the input text and clear the channel |
| Toolbar.GraphFind.ParseValue | src/pages/Graph/GraphToolbar/GraphFind.tsx:534-566 | the method returns the compiled selector and requests and queues the compilation's reports |
| Toolbar.GraphFind.ParseClauses | src/pages/Graph/GraphToolbar/GraphFind.tsx:542-565 | the OR loop computes the clauses' compilation and queues its reports |
| Toolbar.GraphFind.ParseClause | src/pages/Graph/GraphToolbar/GraphFind.tsx:546-556 | the AND loop computes the clause's compilation |
| Toolbar.GraphFind.HandleFind | src/pages/Graph/GraphToolbar/GraphFind.tsx:509-521 | the marks become `FindMarks` of the compiled selector's matches; membership and visibility are unchanged |
| Toolbar.GraphFind.HandleHide | src/pages/Graph/GraphToolbar/GraphFind.tsx:445-507 | the previous hide is undone on the same graph, the compiled hide's hits are hidden or removed, the handles hold what was done, and the layout runs as `LayoutNeeded` says |
| Toolbar.GraphFind.ReleaseHandles | src/pages/Graph/GraphToolbar/GraphFind.tsx:457-467 | the previous hide is undone on the same graph only; both handles are dropped either way |
| Toolbar.GraphFind.HideMatched | src/pages/Graph/GraphToolbar/GraphFind.tsx:469-498 | the hits and the boxes they leave empty are removed or hidden as `HiddenBy` says |
| Toolbar.GraphFind.UpdateFind | src/pages/Graph/GraphToolbar/GraphFind.tsx:228-235 | the find runs exactly when its value changed or the graph changed under a non-empty value, after aligning the input |
| Toolbar.GraphFind.UpdateHide | src/pages/Graph/GraphToolbar/GraphFind.tsx:237-244 | the hide runs exactly when its value changed or the graph changed under a non-empty value, after aligning the input |
| Toolbar.GraphFind.DidUpdate | src/pages/Graph/GraphToolbar/GraphFind.tsx:198-245 | with no graph both handles are dropped and nothing else happens; otherwise the find half, then the hide half, and the queued state is applied at the end |
| Text.TrimIsSlice | src/pages/Graph/GraphToolbar/GraphFind.tsx:592-644 | `trim` is the slice left between a whitespace prefix and a whitespace suffix |
| Text.Trim | src/pages/Graph/GraphToolbar/GraphFind.tsx:592-644 | the trim is no longer than the text and has no whitespace at either end |
| Text.TrimTrimmed | src/pages/Graph/GraphToolbar/GraphFind.tsx:592 | text with no whitespace at either end is its own trim |
| Text.Split | src/pages/Graph/GraphToolbar/GraphFind.tsx:542-637 | `split` gives at least one part, several exactly when the separator occurs, and no part contains it |
| Text.JoinSplit | src/pages/Graph/GraphToolbar/GraphFind.tsx:542-637 | joining the parts with the separator gives the text back |
| Text.IndexOf | src/pages/Graph/GraphToolbar/GraphFind.tsx:542-637 | the first occurrence of the separator, or none exactly when it does not occur |
| Text.ToLower | src/pages/Graph/GraphToolbar/GraphFind.tsx:646 | `toLowerCase` lowers each character, keeping the length |
| JsNumber.DecimalDigitsAreNumeric | src/pages/Graph/GraphToolbar/GraphFind.tsx:836-846 | a string of decimal digits converts to the number those digits spell |
| JsNumber.DigitsAreUnsignedDecimal | src/pages/Graph/GraphToolbar/GraphFind.tsx:836-846 | decimal digits alone are an unsigned decimal literal of their value |
| JsNumber.DigitsAreTrimmed | src/pages/Graph/GraphToolbar/GraphFind.tsx:836-846 | decimal digits have no whitespace to trim |
| JsNumber.DigitsAreDigits | src/pages/Graph/GraphToolbar/GraphFind.tsx:836-846 | every character of a string with a decimal value is a decimal digit |

The table leaves out the proof helpers, which state no property of the program by themselves. They are the
one-step unfoldings `Compiler.CompileClausesStep`, `Compiler.JoinedToStep`, `Errors.ReportedStep` and
`Errors.ReportedAsWrittenStep`, and the small sequence facts `Compiler.AfterAfter`, `Compiler.ClearThenFailsOneMore`
and `Compiler.RequestsOffAppend`.

## Left out

- Rendering and UI glue: `render`, the key handlers, `shouldComponentUpdate`, `toggleFindHelp`, the option and
  submit handlers, and the `AutoComplete` objects. They are user interface, not query processing.
- URL and store synchronisation: `HistoryManager`/`URLSearchParams` in the constructor and in
  `componentDidUpdate`, the `setFindValue`/`setHideValue` dispatches, and the store mappings. These are I/O.
  The constructor starts from the find and hide values it settled on.
- The writes to the DOM input elements in `setFind`/`setHide`. They are I/O; only the component state is kept.
- Alerts, `console.debug`, `cy.emit` and the `runLayout` promise. Only the decision to run the layout is kept,
  as a returned boolean.
- Display-option side effects are returned as `Request` values, not applied. All are computed against the
  settings at the start of the update, as the source reads them from props that do not change during it.
- `cy.startBatch`/`endBatch`: each find or hide is one atomic change of the graph.
- Cytoscape selector semantics. They are a parameter (`matches`), restricted to the elements present.
  `:visible` is modelled as present and not hidden by style; inherited invisibility is not modelled.
- Rewrites.QualifierDropped, Rewrites.NegatedQualifierDropped, Rewrites.BangQualifierDropped, Rewrites.NotNegates,
  Rewrites.NotOperatorSpelled, Rewrites.BangOperatorSpelled, Rewrites.OperatorSpelled, Rewrites.ConjunctionSpelled:
  each states one rewrite in a single-spaced query whose other words are quiet. A quiet word is not a
  normaliser word in any case, and not `!` glued to one; every other lone `!` in the query is followed by such a
  word. Queries in which several rewritten words interact are covered only by the definition of `Prepared`.
  Examples are `not is`, `not and`, `! not w`, a lone `!` in last position, or a rewritten word in last
  position. Stating every interaction would need a theorem per pair of patterns.
- JsNumber.ToNumber: values are exact reals; IEEE-754 rounding and overflow to infinity are not modelled.
  Only whether a value is NaN, and how it compares with 1 and 100, are used.
- Text.ToLower: only characters that lowercase to ASCII are modelled. Other characters keep their code, which
  can matter only in the text of an error message.
- src/pages/Overview/NamespaceInfo.ts is not part of this model: it declares types and has no behaviour.

## Findings

| source | as written | input that shows it | evidently intended | confidence | as-written member | corrected member |
|---|---|---|---|---|---|---|
| src/pages/Graph/GraphToolbar/GraphFind.tsx:524-530 | `if (isFind && error !== findError) … else if (error !== hideError) …`: a find call whose error equals the shown find error falls through to the hide branch | the find value compiles, so `setError(undefined, true)` runs, while no find error is shown and a hide error is: the hide error is cleared | each call changes only its own channel | not executed | Errors.FindSuccessClearsHideError, Errors.FindReportsAsWritten, Toolbar.UpdateClearsHideError | Errors.SetErrorIntended, Errors.SetErrorAgreesElsewhere, Errors.ReportedKeepsOtherChannel |
