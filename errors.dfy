/**
 * The two error channels of the find/hide toolbar (`setError`). An error is shown with a `Find: ` or
 * `Hide: ` prefix; an undefined or empty error clears the channel.
 *
 * The component updates its state through React's `setState`, which inside a lifecycle method is
 * batched: `shown` is the state the component reads (`this.state`), unchanged until the batch is
 * applied, and `queued` is the state the batch will produce, where the last write to a field wins.
 */
module Errors {
  import opened Wrappers
  import opened Text
  import opened Expression

  datatype ErrorState = ErrorState(findError: Option<string>, hideError: Option<string>)

  const FindPrefix := "Find: "
  const HidePrefix := "Hide: "

  function Prefix(isFind: bool): string {
    if isFind then FindPrefix else HidePrefix
  }

  /** The find channel or the hide channel. */
  function Channel(s: ErrorState, isFind: bool): Option<string> {
    if isFind then s.findError else s.hideError
  }

  /** Each channel is clear or shows an error with its own prefix. */
  predicate Labelled(s: ErrorState) {
    (s.findError.Some? ==> StartsWith(s.findError.value, FindPrefix))
    && (s.hideError.Some? ==> StartsWith(s.hideError.value, HidePrefix))
  }

  /** The text a channel shows for an error: nothing for an undefined or empty error, else the prefixed error. */
  function Displayed(error: Option<string>, isFind: bool): (r: Option<string>)
    ensures r.None? <==> error.None? || error.value == ""
    ensures r.Some? ==> StartsWith(r.value, Prefix(isFind)) && r.value[|Prefix(isFind)|..] == error.value
  {
    if error.None? || error.value == "" then None else Some(Prefix(isFind) + error.value)
  }

  /**
   * `setError` as written: the find branch is taken only when the error differs from the shown find
   * error, and otherwise control falls through to the hide branch, even for a find.
   */
  function SetErrorAsWritten(shown: ErrorState, queued: ErrorState, error: Option<string>, isFind: bool): ErrorState {
    if isFind && error != shown.findError then queued.(findError := Displayed(error, true))
    else if error != shown.hideError then queued.(hideError := Displayed(error, false))
    else queued
  }

  /**
   * As written, a find that succeeds while no find error is shown clears the hide error: the
   * successful clause reports `undefined`, equal to the shown find error, so the hide branch runs.
   */
  lemma FindSuccessClearsHideError(shown: ErrorState, queued: ErrorState)
    requires shown.findError.None? && shown.hideError.Some?
    ensures SetErrorAsWritten(shown, queued, None, true).hideError.None?
    ensures queued.hideError.Some? ==> SetErrorAsWritten(shown, queued, None, true) != SetErrorIntended(shown, queued, None, true)
  {
  }

  /** `setError` as intended: each call writes, if anything, only its own channel. */
  function SetErrorIntended(shown: ErrorState, queued: ErrorState, error: Option<string>, isFind: bool): ErrorState {
    if isFind then
      if error != shown.findError then queued.(findError := Displayed(error, true)) else queued
    else
      if error != shown.hideError then queued.(hideError := Displayed(error, false)) else queued
  }

  /** The two readings agree on every call but a find equal to the shown find error. */
  lemma SetErrorAgreesElsewhere(shown: ErrorState, queued: ErrorState, error: Option<string>, isFind: bool)
    requires !isFind || error != shown.findError
    ensures SetErrorAsWritten(shown, queued, error, isFind) == SetErrorIntended(shown, queued, error, isFind)
  {
  }

  /** The state queued after a sequence of reports to one channel, the last applied last. */
  function Reported(shown: ErrorState, queued: ErrorState, reports: seq<Option<string>>, isFind: bool): ErrorState
    decreases |reports|
  {
    if reports == [] then queued
    else SetErrorIntended(shown, Reported(shown, queued, reports[..|reports| - 1], isFind), reports[|reports| - 1], isFind)
  }

  /** One more report is one more `setError` on what the reports before it queued. */
  lemma ReportedStep(shown: ErrorState, queued: ErrorState, reports: seq<Option<string>>, r: Option<string>, isFind: bool)
    ensures Reported(shown, queued, reports + [r], isFind) == SetErrorIntended(shown, Reported(shown, queued, reports, isFind), r, isFind)
  {
    assert (reports + [r])[..|reports|] == reports;
  }

  /** Reports to one channel never change the other. */
  lemma {:induction false} ReportedKeepsOtherChannel(shown: ErrorState, queued: ErrorState, reports: seq<Option<string>>, isFind: bool)
    ensures Channel(Reported(shown, queued, reports, isFind), !isFind) == Channel(queued, !isFind)
    decreases |reports|
  {
    if reports != [] {
      ReportedKeepsOtherChannel(shown, queued, reports[..|reports| - 1], isFind);
    }
  }

  /** A message differs from any error the channel shows, so reporting it always writes the channel. */
  lemma MessageIsNew(shown: ErrorState, m: string, isFind: bool)
    requires Labelled(shown) && IsMessage(m)
    ensures Some(m) != Channel(shown, isFind)
  {
  }

  /** When the last report carries a message, the channel shows that message. */
  lemma ReportedMessage(shown: ErrorState, queued: ErrorState, reports: seq<Option<string>>, isFind: bool)
    requires Labelled(shown)
    requires reports != [] && reports[|reports| - 1].Some? && IsMessage(reports[|reports| - 1].value)
    ensures Channel(Reported(shown, queued, reports, isFind), isFind) == Some(Prefix(isFind) + reports[|reports| - 1].value)
  {
    MessageIsNew(shown, reports[|reports| - 1].value, isFind);
  }

  /**
   * Reports that only clear leave the channel clear, provided nothing but a clearing is queued for it
   * beyond what it shows.
   */
  lemma {:induction false} ReportedClears(shown: ErrorState, queued: ErrorState, reports: seq<Option<string>>, isFind: bool)
    requires reports != [] && forall i :: 0 <= i < |reports| ==> reports[i].None?
    requires Channel(queued, isFind) == Channel(shown, isFind) || Channel(queued, isFind).None?
    ensures Channel(Reported(shown, queued, reports, isFind), isFind).None?
    decreases |reports|
  {
    var prefix := reports[..|reports| - 1];
    if prefix != [] {
      ReportedClears(shown, queued, prefix, isFind);
    }
  }

  /** Whatever the reports, the channels stay labelled. */
  lemma {:induction false} ReportedLabelled(shown: ErrorState, queued: ErrorState, reports: seq<Option<string>>, isFind: bool)
    requires Labelled(queued)
    ensures Labelled(Reported(shown, queued, reports, isFind))
    decreases |reports|
  {
    if reports != [] {
      ReportedLabelled(shown, queued, reports[..|reports| - 1], isFind);
      var before := Reported(shown, queued, reports[..|reports| - 1], isFind);
      var d := Displayed(reports[|reports| - 1], isFind);
      if d.Some? {
        assert StartsWith(d.value, Prefix(isFind));
      }
    }
  }

  // ---------------------------------------------------------------------------------------------------------
  // Reports as the component writes them

  /** The state queued after a sequence of reports to one channel, each applied by `setError` as written. */
  function ReportedAsWritten(shown: ErrorState, queued: ErrorState, reports: seq<Option<string>>, isFind: bool): ErrorState
    decreases |reports|
  {
    if reports == [] then queued
    else SetErrorAsWritten(shown, ReportedAsWritten(shown, queued, reports[..|reports| - 1], isFind), reports[|reports| - 1], isFind)
  }

  lemma ReportedAsWrittenStep(shown: ErrorState, queued: ErrorState, reports: seq<Option<string>>, r: Option<string>, isFind: bool)
    ensures ReportedAsWritten(shown, queued, reports + [r], isFind)
         == SetErrorAsWritten(shown, ReportedAsWritten(shown, queued, reports, isFind), r, isFind)
  {
    assert (reports + [r])[..|reports|] == reports;
  }

  /** Reports to the hide channel are applied the same way by both readings of `setError`. */
  lemma {:induction false} HideReportsAsWritten(shown: ErrorState, queued: ErrorState, reports: seq<Option<string>>)
    ensures ReportedAsWritten(shown, queued, reports, false) == Reported(shown, queued, reports, false)
    decreases |reports|
  {
    if reports != [] {
      var prefix := reports[..|reports| - 1];
      HideReportsAsWritten(shown, queued, prefix);
      SetErrorAgreesElsewhere(shown, Reported(shown, queued, prefix, false), reports[|reports| - 1], false);
    }
  }

  /**
   * Reports to the find channel, as written: the find channel ends as intended, and the hide channel is
   * cleared exactly when no find error is shown, a hide error is, and some report clears.
   */
  lemma {:induction false} FindReportsAsWritten(shown: ErrorState, queued: ErrorState, reports: seq<Option<string>>)
    requires Labelled(shown)
    requires forall i :: 0 <= i < |reports| && reports[i].Some? ==> IsMessage(reports[i].value)
    ensures ReportedAsWritten(shown, queued, reports, true).findError == Reported(shown, queued, reports, true).findError
    ensures ReportedAsWritten(shown, queued, reports, true).hideError ==
      if shown.findError.None? && shown.hideError.Some? && None in reports then None else queued.hideError
    decreases |reports|
  {
    if reports != [] {
      var prefix := reports[..|reports| - 1];
      var r := reports[|reports| - 1];
      assert forall i :: 0 <= i < |prefix| ==> prefix[i] == reports[i];
      FindReportsAsWritten(shown, queued, prefix);
      assert reports == prefix + [r];
      assert (None in reports) <==> (None in prefix || r.None?);
      if r.Some? {
        MessageIsNew(shown, r.value, true);
      }
    }
  }

  /** As written, a report to one channel keeps that channel as intended, for reports that carry messages. */
  lemma OwnChannelAsWritten(shown: ErrorState, queued: ErrorState, reports: seq<Option<string>>, isFind: bool)
    requires Labelled(shown)
    requires forall i :: 0 <= i < |reports| && reports[i].Some? ==> IsMessage(reports[i].value)
    ensures Channel(ReportedAsWritten(shown, queued, reports, isFind), isFind) == Channel(Reported(shown, queued, reports, isFind), isFind)
  {
    if isFind {
      FindReportsAsWritten(shown, queued, reports);
    } else {
      HideReportsAsWritten(shown, queued, reports);
    }
  }

  /**
   * As written, the hide reports leave the find channel alone, but the find reports clear the hide channel
   * when no find error is shown, a hide error is, and some report clears.
   */
  lemma OtherChannelAsWritten(shown: ErrorState, queued: ErrorState, reports: seq<Option<string>>, isFind: bool)
    requires Labelled(shown)
    requires forall i :: 0 <= i < |reports| && reports[i].Some? ==> IsMessage(reports[i].value)
    ensures Channel(ReportedAsWritten(shown, queued, reports, isFind), !isFind) ==
      if isFind && shown.findError.None? && shown.hideError.Some? && None in reports then None else Channel(queued, !isFind)
  {
    if isFind {
      FindReportsAsWritten(shown, queued, reports);
    } else {
      HideReportsAsWritten(shown, queued, reports);
      ReportedKeepsOtherChannel(shown, queued, reports, false);
    }
  }
}
