/**
 * The find/hide toolbar component (`GraphFind`): on each update it recompiles the find and hide values
 * when they or the graph changed, marks the find hits, hides or removes the hide hits, reports errors
 * to its two channels and asks for display changes and a new layout.
 */
module Toolbar {
  import opened Wrappers
  import opened Text
  import opened Normalise
  import opened Expression
  import opened Compiler
  import opened Errors
  import opened Graph

  /** The properties the component reads. */
  datatype Props = Props(
    findValue: string,
    hideValue: string,
    updateTime: int,
    elementsChanged: bool,
    compressOnHide: bool,
    flags: Flags)

  /** The component state: the text in the two inputs and the two error channels. */
  datatype FindState = FindState(findInputValue: string, hideInputValue: string, errors: ErrorState)

  /** The elements present in the graph and those hidden by style. */
  datatype View = View(present: set<Id>, hidden: set<Id>)

  /** The graph after a hide, with the handles kept to undo it. */
  datatype HideOutcome = HideOutcome(view: View, hiddenElements: Option<set<Id>>, removedElements: Option<set<Id>>)

  // ---------------------------------------------------------------------------------------------------------
  // Specification of one update

  /** The compiled selector's matches, or nothing. */
  function Matched(matches: string -> set<Id>, selector: Option<string>): set<Id> {
    if selector.Some? then matches(selector.value) else {}
  }

  /** Undoing the previous hide, which happens only on the same graph. */
  function Restored(v: View, hiddenElements: Option<set<Id>>, removedElements: Option<set<Id>>, graphChanged: bool): View {
    View(
      if removedElements.Some? && !graphChanged then v.present + removedElements.value else v.present,
      if hiddenElements.Some? && !graphChanged then v.hidden - hiddenElements.value else v.hidden)
  }

  /**
   * A hide with a selector: compressing removes the hits and then the boxes left with no child; otherwise
   * the hits and the boxes left with no visible child are hidden.
   */
  function Hidden(g: Topology, v: View, selector: Option<string>, matches: string -> set<Id>, compress: bool): HideOutcome {
    if selector.None? then HideOutcome(v, None, None) else HiddenBy(g, v, matches(selector.value), compress)
  }

  /** The hide of the elements a selector matched. */
  function HiddenBy(g: Topology, v: View, matched: set<Id>, compress: bool): HideOutcome {
    var hits := HideHits(g, v.present, matched);
    if compress then
      var first := Removal(g, v.present, hits);
      var rest := v.present - first;
      var boxes := Removal(g, rest, RemovableBoxes(g, rest));
      HideOutcome(View(rest - boxes, v.hidden), None, Some(first + boxes))
    else
      var hidden := v.hidden + hits;
      var boxes := HideableBoxes(g, v.present, hidden);
      HideOutcome(View(v.present, hidden + boxes), Some(hits + boxes), None)
  }

  /** The layout runs when the hide value changed, when compression was switched with a hide in force, or when
   * elements stay removed from a graph whose elements changed. */
  predicate LayoutNeeded(hideChanged: bool, compressOnHideChanged: bool, selector: Option<string>,
                         removedElements: Option<set<Id>>, graphElementsChanged: bool) {
    || hideChanged
    || (compressOnHideChanged && selector.Some?)
    || (removedElements.Some? && removedElements.value != {} && graphElementsChanged)
  }

  /** Aligning an input with its property (`setFind`/`setHide`): the text is set and the channel cleared. */
  function Aligned(state: FindState, pending: FindState, value: string, isFind: bool): FindState {
    if isFind then
      if state.findInputValue != value then pending.(findInputValue := value, errors := pending.errors.(findError := None))
      else pending
    else
      if state.hideInputValue != value then pending.(hideInputValue := value, errors := pending.errors.(hideError := None))
      else pending
  }

  /** The state queued by one recompilation of the find (`isFind`) or the hide value. */
  function Recompiled(state: FindState, pending: FindState, value: string, parse: Parser, isFind: bool): FindState {
    var aligned := Aligned(state, pending, value, isFind);
    aligned.(errors := ReportedAsWritten(state.errors, aligned.errors, CompileWith(parse, value).reports, isFind))
  }

  predicate FindRuns(prev: Props, props: Props) {
    props.findValue != prev.findValue || (props.updateTime != prev.updateTime && props.findValue != "")
  }

  predicate HideRuns(prev: Props, props: Props) {
    props.hideValue != prev.hideValue || (props.updateTime != prev.updateTime && props.hideValue != "")
  }

  /** The state once an update's queued changes are applied. */
  function Updated(state: FindState, prev: Props, props: Props): FindState {
    var afterFind := if FindRuns(prev, props) then Recompiled(state, state, props.findValue, ExpressionParser(props.flags), true) else state;
    if HideRuns(prev, props) then Recompiled(state, afterFind, props.hideValue, ExpressionParser(props.flags), false) else afterFind
  }

  /** The graph and handles after an update's hide half. */
  function HideUpdate(g: Topology, v: View, hiddenElements: Option<set<Id>>, removedElements: Option<set<Id>>,
                      prev: Props, props: Props, parse: Parser, matches: string -> set<Id>): HideOutcome {
    if !HideRuns(prev, props) then HideOutcome(v, hiddenElements, removedElements)
    else
      var restored := Restored(v, hiddenElements, removedElements, props.updateTime != prev.updateTime);
      Hidden(g, restored, CompileWith(parse, props.hideValue).selector, matches, props.compressOnHide)
  }

  /** Whether an update's hide half runs the layout. */
  predicate HideUpdateLays(g: Topology, v: View, hiddenElements: Option<set<Id>>, removedElements: Option<set<Id>>,
                           prev: Props, props: Props, parse: Parser, matches: string -> set<Id>) {
    && HideRuns(prev, props)
    && LayoutNeeded(props.hideValue != prev.hideValue, props.compressOnHide != prev.compressOnHide,
                    CompileWith(parse, props.hideValue).selector,
                    HideUpdate(g, v, hiddenElements, removedElements, prev, props, parse, matches).removedElements,
                    props.updateTime != prev.updateTime && props.elementsChanged)
  }

  /** When the hide half runs, it hides afresh what the restored view gives. */
  lemma HideUpdateRuns(g: Topology, v: View, hiddenElements: Option<set<Id>>, removedElements: Option<set<Id>>,
                       prev: Props, props: Props, parse: Parser, matches: string -> set<Id>)
    requires HideRuns(prev, props)
    ensures var c := CompileWith(parse, props.hideValue);
      var o := Hidden(g, Restored(v, hiddenElements, removedElements, props.updateTime != prev.updateTime), c.selector, matches, props.compressOnHide);
      && HideUpdate(g, v, hiddenElements, removedElements, prev, props, parse, matches) == o
      && (HideUpdateLays(g, v, hiddenElements, removedElements, prev, props, parse, matches) <==>
          LayoutNeeded(props.hideValue != prev.hideValue, props.compressOnHide != prev.compressOnHide, c.selector,
                       o.removedElements, props.updateTime != prev.updateTime && props.elementsChanged))
  {
  }

  // ---------------------------------------------------------------------------------------------------------
  // Properties of an update

  /**
   * After a recompilation of the find value from a settled state, the find channel is clear when the query
   * compiles, shows the first failure's message when it does not, and is as aligned when the query is blank.
   * The hide channel is cleared when no find error was shown, a hide error was, and an OR clause compiled;
   * otherwise it is untouched.
   */
  lemma FindErrorAfterRecompile(state: FindState, value: string, flags: Flags)
    requires Labelled(state.errors)
    ensures var after := Recompiled(state, state, value, ExpressionParser(flags), true).errors;
      var c := Compile(value, flags);
      && after.hideError ==
           (if state.errors.findError.None? && state.errors.hideError.Some? && None in c.reports then None else state.errors.hideError)
      && (Prepared(value) == "" ==> after.findError == (if state.findInputValue != value then None else state.errors.findError))
      && (Prepared(value) == "" ==> after.hideError == state.errors.hideError)
      && (Prepared(value) != "" && c.selector.Some? ==> after.findError.None? && (state.errors.findError.None? ==> after.hideError.None?))
      && (Prepared(value) != "" && c.selector.None? ==>
            c.reports != [] && c.reports[|c.reports| - 1].Some?
            && after.findError == Some(FindPrefix + c.reports[|c.reports| - 1].value))
  {
    CompileReports(value, flags);
    ChannelAfterRecompile(state, state, value, ExpressionParser(flags), true);
    var c := Compile(value, flags);
    if Prepared(value) != "" && c.selector.Some? {
      assert c.reports[0] == None;
    }
  }

  /** The same for the hide value: the hide channel follows the hide query, the find channel is untouched. */
  lemma HideErrorAfterRecompile(state: FindState, pending: FindState, value: string, flags: Flags)
    requires Labelled(state.errors)
    requires pending.errors.hideError == state.errors.hideError || pending.errors.hideError.None?
    ensures var after := Recompiled(state, pending, value, ExpressionParser(flags), false).errors;
      var c := Compile(value, flags);
      && after.findError == pending.errors.findError
      && (Prepared(value) == "" ==> after.hideError == (if state.hideInputValue != value then None else pending.errors.hideError))
      && (Prepared(value) != "" && c.selector.Some? ==> after.hideError.None?)
      && (Prepared(value) != "" && c.selector.None? ==>
            c.reports != [] && c.reports[|c.reports| - 1].Some?
            && after.hideError == Some(HidePrefix + c.reports[|c.reports| - 1].value))
  {
    CompileReports(value, flags);
    ChannelAfterRecompile(state, pending, value, ExpressionParser(flags), false);
  }

  /**
   * A recompilation with any parser that reports as it compiles. The channel recompiled is left as aligned
   * for a blank query, cleared for one that compiles, and shows the failure otherwise. The hide
   * recompilation leaves the find channel alone; the find recompilation clears the hide channel when no
   * find error is shown, a hide error is, and some report clears, and otherwise leaves it alone.
   */
  lemma ChannelAfterRecompile(state: FindState, pending: FindState, value: string, parse: Parser, isFind: bool)
    requires Labelled(state.errors)
    requires Channel(pending.errors, isFind) == Channel(state.errors, isFind) || Channel(pending.errors, isFind).None?
    requires ReportsAsCompiled(value, CompileWith(parse, value))
    ensures var after := Recompiled(state, pending, value, parse, isFind).errors;
      var aligned := Aligned(state, pending, value, isFind).errors;
      var c := CompileWith(parse, value);
      && Channel(after, !isFind) ==
           (if isFind && state.errors.findError.None? && state.errors.hideError.Some? && None in c.reports then None
            else Channel(pending.errors, !isFind))
      && (Prepared(value) == "" ==> Channel(after, isFind) == Channel(aligned, isFind))
      && (Prepared(value) != "" && c.selector.Some? ==> Channel(after, isFind).None?)
      && (Prepared(value) != "" && c.selector.None? ==>
            c.reports != [] && c.reports[|c.reports| - 1].Some?
            && Channel(after, isFind) == Some(Prefix(isFind) + c.reports[|c.reports| - 1].value))
  {
    ChannelAfterReports(state.errors, Aligned(state, pending, value, isFind).errors, value, CompileWith(parse, value), isFind);
  }

  /** The channels after the reports, applied as written, of a compilation that reports as it compiles. */
  lemma ChannelAfterReports(shown: ErrorState, aligned: ErrorState, value: string, c: Compilation, isFind: bool)
    requires Labelled(shown)
    requires Channel(aligned, isFind) == Channel(shown, isFind) || Channel(aligned, isFind).None?
    requires ReportsAsCompiled(value, c)
    ensures var after := ReportedAsWritten(shown, aligned, c.reports, isFind);
      && Channel(after, !isFind) ==
           (if isFind && shown.findError.None? && shown.hideError.Some? && None in c.reports then None else Channel(aligned, !isFind))
      && (Prepared(value) == "" ==> Channel(after, isFind) == Channel(aligned, isFind))
      && (Prepared(value) != "" && c.selector.Some? ==> Channel(after, isFind).None?)
      && (Prepared(value) != "" && c.selector.None? ==>
            c.reports != [] && c.reports[|c.reports| - 1].Some?
            && Channel(after, isFind) == Some(Prefix(isFind) + c.reports[|c.reports| - 1].value))
  {
    OtherChannelAsWritten(shown, aligned, c.reports, isFind);
    OwnChannelAsWritten(shown, aligned, c.reports, isFind);
    if Prepared(value) != "" {
      if c.selector.Some? {
        ReportedClears(shown, aligned, c.reports, isFind);
      } else {
        ReportedMessage(shown, aligned, c.reports, isFind);
      }
    }
  }

  /**
   * As written, an update whose find compiles, while no find error is shown and a hide error is, ends with
   * the hide error cleared when the hide does not run.
   */
  lemma UpdateClearsHideError(state: FindState, prev: Props, props: Props)
    requires Labelled(state.errors) && state.errors.findError.None? && state.errors.hideError.Some?
    requires FindRuns(prev, props) && !HideRuns(prev, props)
    requires Prepared(props.findValue) != "" && Compile(props.findValue, props.flags).selector.Some?
    ensures Updated(state, prev, props).errors.hideError.None?
    ensures Updated(state, prev, props).errors.findError.None?
  {
    FindErrorAfterRecompile(state, props.findValue, props.flags);
  }

  /** A hide on the same graph is undone by the next update's restore, when nothing it hid was hidden before. */
  lemma RestoreUndoesHide(g: Topology, v: View, selector: Option<string>, matches: string -> set<Id>, compress: bool)
    requires WellFormed(g)
    requires v.hidden !! v.present
    ensures var o := Hidden(g, v, selector, matches, compress);
      Restored(o.view, o.hiddenElements, o.removedElements, false) == v
  {
    var o := Hidden(g, v, selector, matches, compress);
    if selector.Some? {
      var hits := HideHits(g, v.present, matches(selector.value));
      HideHitsWithin(g, v.present, matches(selector.value));
      if !compress {
        var boxes := HideableBoxes(g, v.present, v.hidden + hits);
        assert (v.hidden + hits + boxes) - (hits + boxes) == v.hidden;
      }
    }
  }

  /**
   * Compressing removes exactly the hide hits and then the boxes those removals left with no child, and
   * every box that stays had a child left.
   */
  lemma CompressRemoves(g: Topology, v: View, selector: string, matches: string -> set<Id>)
    requires WellFormed(g)
    ensures var hits := HideHits(g, v.present, matches(selector));
      var o := Hidden(g, v, Some(selector), matches, true);
      var rest := v.present - hits;
      && o.removedElements == Some(hits + Removal(g, rest, RemovableBoxes(g, rest)))
      && o.view.present == v.present - o.removedElements.value
      && o.view.hidden == v.hidden && o.hiddenElements.None?
      && forall b :: b in g.boxes && b in o.view.present ==> exists c :: c in g.parent && g.parent[c] == b && c in rest
  {
    RemovingHitsRemovesHits(g, v.present, matches(selector));
  }

  /**
   * Hiding softly changes no membership; it hides the hide hits and every box with no child left visible
   * by them, and keeps exactly those in the handle.
   */
  lemma SoftHides(g: Topology, v: View, selector: string, matches: string -> set<Id>)
    requires WellFormed(g)
    ensures var hits := HideHits(g, v.present, matches(selector));
      var o := Hidden(g, v, Some(selector), matches, false);
      && o.view.present == v.present && o.removedElements.None?
      && o.hiddenElements.Some? && o.hiddenElements.value == hits + HideableBoxes(g, v.present, v.hidden + hits)
      && o.view.hidden == v.hidden + o.hiddenElements.value
      && forall b :: b in o.hiddenElements.value && b in g.boxes ==>
           forall c :: c in g.parent && g.parent[c] == b ==> c !in v.present || c in v.hidden + hits
  {
  }

  // ---------------------------------------------------------------------------------------------------------
  // The component

  class GraphFind {
    /** The state as the component reads it during an update. */
    var state: FindState
    /** The state once the `setState` calls queued during the update are applied. */
    var pending: FindState
    var hiddenElements: Option<set<Id>>
    var removedElements: Option<set<Id>>

    constructor (findValue: string, hideValue: string)
      ensures state == FindState(findValue, hideValue, ErrorState(None, None)) && pending == state
      ensures hiddenElements.None? && removedElements.None?
    {
      state := FindState(findValue, hideValue, ErrorState(None, None));
      pending := FindState(findValue, hideValue, ErrorState(None, None));
      hiddenElements := None;
      removedElements := None;
    }

    /**
     * `setError`, compared against the state read, written to the queued state. A find error equal to the
     * one shown falls through to the hide branch.
     */
    method SetError(error: Option<string>, isFind: bool)
      modifies this
      ensures pending == old(pending).(errors := SetErrorAsWritten(state.errors, old(pending).errors, error, isFind))
      ensures state == old(state) && hiddenElements == old(hiddenElements) && removedElements == old(removedElements)
    {
      if isFind && error != state.errors.findError {
        pending := pending.(errors := pending.errors.(findError := Displayed(error, true)));
      } else if error != state.errors.hideError {
        pending := pending.(errors := pending.errors.(hideError := Displayed(error, false)));
      }
    }

    /** `setFind`/`setHide`: the input shows the value and its channel is cleared. */
    method SetInput(val: string, isFind: bool)
      modifies this
      ensures pending == (if isFind then old(pending).(findInputValue := val, errors := old(pending).errors.(findError := None))
                          else old(pending).(hideInputValue := val, errors := old(pending).errors.(hideError := None)))
      ensures state == old(state) && hiddenElements == old(hiddenElements) && removedElements == old(removedElements)
    {
      if isFind {
        pending := pending.(findInputValue := val, errors := pending.errors.(findError := None));
      } else {
        pending := pending.(hideInputValue := val, errors := pending.errors.(hideError := None));
      }
    }

    /**
     * `parseValue`: the OR clauses in turn; the first failure is reported and ends the compilation, and each
     * compiled clause clears the channel.
     */
    method ParseValue(val: string, isFind: bool, parse: Parser) returns (selector: Option<string>, requests: seq<Request>)
      modifies this
      ensures selector == CompileWith(parse, val).selector && requests == CompileWith(parse, val).requests
      ensures pending == old(pending).(errors := ReportedAsWritten(state.errors, old(pending).errors, CompileWith(parse, val).reports, isFind))
      ensures state == old(state) && hiddenElements == old(hiddenElements) && removedElements == old(removedElements)
    {
      var prepared := PrepareValue(val);
      if prepared == "" {
        assert CompileWith(parse, val) == Compilation(None, [], []);
        return None, [];
      }
      selector, requests := ParseClauses(Split(prepared, OrSeparator), isFind, parse);
    }

    /** The OR clauses in turn, each compiled clause joined to the selector with `,`. */
    method ParseClauses(clauses: seq<string>, isFind: bool, parse: Parser) returns (selector: Option<string>, requests: seq<Request>)
      modifies this
      ensures var c := CompileClauses(parse, clauses, None); selector == c.selector && requests == c.requests
      ensures pending == old(pending).(errors := ReportedAsWritten(state.errors, old(pending).errors, CompileClauses(parse, clauses, None).reports, isFind))
      ensures state == old(state) && hiddenElements == old(hiddenElements) && removedElements == old(removedElements)
    {
      ghost var total := CompileClauses(parse, clauses, None);
      assert clauses[0..] == clauses;
      ghost var reports: seq<Option<string>> := [];
      var orSelector: Option<string> := None;
      requests := [];
      assert total == After(requests, reports, total);
      var i := 0;
      while i < |clauses|
        invariant 0 <= i <= |clauses|
        invariant total == After(requests, reports, CompileClauses(parse, clauses[i..], orSelector))
        invariant pending == old(pending).(errors := ReportedAsWritten(state.errors, old(pending).errors, reports, isFind))
        invariant state == old(state) && hiddenElements == old(hiddenElements) && removedElements == old(removedElements)
      {
        ghost var rest := CompileClauses(parse, clauses[i..], orSelector);
        var c := ParseClause(clauses[i], parse);
        CompileClausesStep(parse, clauses[i..], orSelector);
        assert clauses[i..][0] == clauses[i];
        if c.result.Fail? {
          AfterAfter(requests, reports, c.requests, [Some(c.result.message)], Compilation(None, [], []));
          ReportedAsWrittenStep(state.errors, old(pending).errors, reports, Some(c.result.message), isFind);
          SetError(Some(c.result.message), isFind);
          requests := requests + c.requests;
          return None, requests;
        }
        var sel := c.result.value;
        var joined := if orSelector.None? || orSelector.value == "" then sel else orSelector.value + "," + sel;
        assert clauses[i..][1..] == clauses[i + 1..];
        ghost var next := CompileClauses(parse, clauses[i + 1..], Some(joined));
        AfterAfter(requests, reports, c.requests, [None], next);
        ReportedAsWrittenStep(state.errors, old(pending).errors, reports, None, isFind);
        SetError(None, isFind);
        requests := requests + c.requests;
        reports := reports + [None];
        orSelector := Some(joined);
        i := i + 1;
      }
      assert CompileClauses(parse, clauses[i..], orSelector) == Compilation(orSelector, [], []);
      assert requests + [] == requests && reports + [] == reports;
      return orSelector, requests;
    }

    /** The AND expressions of one OR clause in turn, each appended to the clause's selector. */
    static method ParseClause(clause: string, parse: Parser) returns (c: ClauseOutcome)
      ensures c == ClauseOf(parse, clause)
    {
      var exprs := Split(clause, AndSeparator);
      var conjunctive := |exprs| > 1;
      ghost var total := CompileClause(parse, exprs, conjunctive, None);
      assert exprs[0..] == exprs;
      var requests := [];
      var selector: Option<string> := None;
      var j := 0;
      while j < |exprs|
        invariant 0 <= j <= |exprs|
        invariant j > 0 ==> selector.Some?
        invariant var rest := CompileClause(parse, exprs[j..], conjunctive, selector);
          total.result == rest.result && total.requests == requests + rest.requests
      {
        ghost var rest := CompileClause(parse, exprs[j..], conjunctive, selector);
        var o := parse(exprs[j], conjunctive);
        requests := requests + o.requests;
        if o.result.Fail? {
          return ClauseOutcome(Fail(o.result.message), requests);
        }
        var next := AppendSelector(selector, o.result.value);
        if next.Fail? {
          return ClauseOutcome(Fail(next.message), requests);
        }
        assert exprs[j..][1..] == exprs[j + 1..];
        selector := Some(next.value);
        j := j + 1;
      }
      return ClauseOutcome(Ok(selector.value), requests);
    }

    /** `handleFind`: the old marks are cleared and the matches of the compiled find value marked. */
    method HandleFind(cy: Cy, findValue: string, parse: Parser, matches: string -> set<Id>) returns (requests: seq<Request>)
      modifies this, cy
      ensures var c := CompileWith(parse, findValue);
        && requests == c.requests
        && cy.found == FindMarks(old(cy.found), old(cy.present), Matched(matches, c.selector))
        && cy.present == old(cy.present) && cy.hidden == old(cy.hidden)
        && pending == old(pending).(errors := ReportedAsWritten(state.errors, old(pending).errors, c.reports, true))
      ensures state == old(state) && hiddenElements == old(hiddenElements) && removedElements == old(removedElements)
    {
      var selector;
      selector, requests := ParseValue(findValue, true, parse);
      cy.MarkFound(if selector.Some? then Some(matches(selector.value)) else None);
    }

    /**
     * `handleHide`: the previous hide is undone on the same graph and its handles dropped; the hits of the
     * compiled hide value are then removed or hidden with the boxes they leave empty.
     */
    method HandleHide(cy: Cy, props: Props, parse: Parser, hideChanged: bool, graphChanged: bool, graphElementsChanged: bool,
                      compressOnHideChanged: bool, matches: string -> set<Id>) returns (requests: seq<Request>, layout: bool)
      modifies this, cy
      ensures var c := CompileWith(parse, props.hideValue);
        var v := Restored(View(old(cy.present), old(cy.hidden)), old(hiddenElements), old(removedElements), graphChanged);
        var o := Hidden(cy.topology, v, c.selector, matches, props.compressOnHide);
        && View(cy.present, cy.hidden) == o.view && cy.found == old(cy.found)
        && hiddenElements == o.hiddenElements && removedElements == o.removedElements
        && requests == c.requests
        && layout == LayoutNeeded(hideChanged, compressOnHideChanged, c.selector, o.removedElements, graphElementsChanged)
        && pending == old(pending).(errors := ReportedAsWritten(state.errors, old(pending).errors, c.reports, false))
      ensures state == old(state)
    {
      var selector;
      selector, requests := ParseValue(props.hideValue, false, parse);
      ReleaseHandles(cy, graphChanged);
      if selector.Some? {
        HideMatched(cy, matches(selector.value), props.compressOnHide);
      }
      layout := LayoutNeeded(hideChanged, compressOnHideChanged, selector, removedElements, graphElementsChanged);
    }

    /** The previous hide is undone on the same graph; either way its handles are dropped. */
    method ReleaseHandles(cy: Cy, graphChanged: bool)
      modifies this, cy
      ensures View(cy.present, cy.hidden) ==
        Restored(View(old(cy.present), old(cy.hidden)), old(hiddenElements), old(removedElements), graphChanged)
      ensures hiddenElements.None? && removedElements.None? && cy.found == old(cy.found)
      ensures state == old(state) && pending == old(pending)
    {
      if hiddenElements.Some? && !graphChanged {
        cy.SetVisible(hiddenElements.value, true);
      }
      hiddenElements := None;
      if removedElements.Some? && !graphChanged {
        cy.Restore(removedElements.value);
      }
      removedElements := None;
    }

    /**
     * The hide hits, closed over connected edges and orphaned nodes and less the boxes, are removed or
     * hidden, then the boxes they leave empty likewise.
     */
    method HideMatched(cy: Cy, matched: set<Id>, compress: bool)
      modifies this, cy
      ensures HideOutcome(View(cy.present, cy.hidden), hiddenElements, removedElements) ==
        HiddenBy(cy.topology, View(old(cy.present), old(cy.hidden)), matched, compress)
      ensures cy.found == old(cy.found) && state == old(state) && pending == old(pending)
    {
      var g := cy.topology;
      var hits := cy.Select(matched);
      hits := hits + ConnectedEdges(g, cy.present, hits);
      hits := hits + Orphans(g, cy.present, hits);
      hits := hits - g.boxes;
      if compress {
        var removed := cy.Remove(hits);
        var emptyBoxes := cy.Select(g.boxes) - ParentsOf(g, cy.present);
        var removedBoxes := cy.Remove(emptyBoxes);
        hiddenElements := None;
        removedElements := Some(removed + removedBoxes);
      } else {
        cy.SetVisible(hits, false);
        var emptyBoxes := cy.Select(g.boxes) - ParentsOf(g, cy.present - cy.hidden);
        cy.SetVisible(emptyBoxes, false);
        hiddenElements := Some(hits + emptyBoxes);
        removedElements := None;
      }
    }

    /**
     * The find half of an update: when the find value or the graph changed, the find input is aligned with
     * its property and the find runs.
     */
    method UpdateFind(cy: Cy, prev: Props, props: Props, parse: Parser, matches: string -> set<Id>) returns (requests: seq<Request>)
      modifies this, cy
      ensures pending == if FindRuns(prev, props) then Recompiled(state, old(pending), props.findValue, parse, true) else old(pending)
      ensures requests == if FindRuns(prev, props) then CompileWith(parse, props.findValue).requests else []
      ensures cy.found == if FindRuns(prev, props)
        then FindMarks(old(cy.found), old(cy.present), Matched(matches, CompileWith(parse, props.findValue).selector))
        else old(cy.found)
      ensures cy.present == old(cy.present) && cy.hidden == old(cy.hidden)
      ensures state == old(state) && hiddenElements == old(hiddenElements) && removedElements == old(removedElements)
    {
      requests := [];
      if props.findValue != prev.findValue || (props.updateTime != prev.updateTime && props.findValue != "") {
        if state.findInputValue != props.findValue {
          SetInput(props.findValue, true);
        }
        requests := HandleFind(cy, props.findValue, parse, matches);
      }
    }

    /**
     * The hide half of an update: when the hide value or the graph changed, the hide input is aligned with
     * its property and the hide runs.
     */
    method UpdateHide(cy: Cy, prev: Props, props: Props, parse: Parser, matches: string -> set<Id>) returns (requests: seq<Request>, layout: bool)
      modifies this, cy
      ensures pending == if HideRuns(prev, props) then Recompiled(state, old(pending), props.hideValue, parse, false) else old(pending)
      ensures requests == if HideRuns(prev, props) then CompileWith(parse, props.hideValue).requests else []
      ensures var o := HideUpdate(cy.topology, View(old(cy.present), old(cy.hidden)), old(hiddenElements), old(removedElements), prev, props, parse, matches);
        && View(cy.present, cy.hidden) == o.view
        && hiddenElements == o.hiddenElements && removedElements == o.removedElements
      ensures layout == HideUpdateLays(cy.topology, View(old(cy.present), old(cy.hidden)), old(hiddenElements), old(removedElements), prev, props, parse, matches)
      ensures cy.found == old(cy.found) && state == old(state)
    {
      requests := [];
      layout := false;
      var graphChanged := props.updateTime != prev.updateTime;
      if props.hideValue != prev.hideValue || (graphChanged && props.hideValue != "") {
        ghost var before := View(cy.present, cy.hidden);
        ghost var handles := (hiddenElements, removedElements);
        if state.hideInputValue != props.hideValue {
          SetInput(props.hideValue, false);
        }
        requests, layout := HandleHide(cy, props, parse, props.hideValue != prev.hideValue, graphChanged,
                                       graphChanged && props.elementsChanged, props.compressOnHide != prev.compressOnHide, matches);
        HideUpdateRuns(cy.topology, before, handles.0, handles.1, prev, props, parse, matches);
      }
    }

    /**
     * `componentDidUpdate`: with no graph both handles are dropped. Otherwise the find value is recompiled
     * when it or the graph changed, then the hide value likewise, each input first aligned with its
     * property; the queued state changes are applied when the update ends.
     */
    method DidUpdate(cy: Cy?, prev: Props, props: Props, matches: string -> set<Id>) returns (requests: seq<Request>, layout: bool)
      requires pending == state
      modifies this, cy
      ensures cy == null ==> hiddenElements.None? && removedElements.None? && state == old(state) && requests == [] && !layout
      ensures state == pending
      ensures cy != null ==> state == Updated(old(state), prev, props)
      ensures cy != null ==> cy.found == if FindRuns(prev, props)
        then FindMarks(old(cy.found), old(cy.present), Matched(matches, Compile(props.findValue, props.flags).selector))
        else old(cy.found)
      ensures cy != null ==>
        var o := HideUpdate(cy.topology, View(old(cy.present), old(cy.hidden)), old(hiddenElements), old(removedElements), prev, props, ExpressionParser(props.flags), matches);
        && View(cy.present, cy.hidden) == o.view
        && hiddenElements == o.hiddenElements && removedElements == o.removedElements
        && layout == HideUpdateLays(cy.topology, View(old(cy.present), old(cy.hidden)), old(hiddenElements), old(removedElements), prev, props, ExpressionParser(props.flags), matches)
      ensures cy != null ==>
        requests == (if FindRuns(prev, props) then Compile(props.findValue, props.flags).requests else []) +
                    (if HideRuns(prev, props) then Compile(props.hideValue, props.flags).requests else [])
    {
      if cy == null {
        hiddenElements := None;
        removedElements := None;
        return [], false;
      }
      var parse := ExpressionParser(props.flags);
      var findRequests := UpdateFind(cy, prev, props, parse, matches);
      var hideRequests;
      hideRequests, layout := UpdateHide(cy, prev, props, parse, matches);
      requests := findRequests + hideRequests;
      state := pending;
    }
  }
}
