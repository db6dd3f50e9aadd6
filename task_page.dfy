/*
 * The browser side of the voice task creator: the candidate-selection
 * toggle, the request body the page posts, how it reads the backend's
 * reply, and the component state its handlers update.
 */
module TaskPage {
  import opened Wrappers
  import opened JsString
  import opened Directory
  import opened VoiceController
  import opened ResolutionProofs

  // ------------------------------------------------------------- selection

  /** No email is selected twice. */
  predicate Distinct(s: seq<string>) {
    forall i, j :: 0 <= i < j < |s| ==> s[i] != s[j]
  }

  /**
   * Clicking a candidate: deselect it when it is selected, otherwise
   * select it last. Only the clicked email changes membership.
   */
  function ToggleEmail(selected: seq<string>, email: string): (r: seq<string>)
    ensures email in r <==> email !in selected
    ensures forall x :: x != email ==> (x in r <==> x in selected)
  {
    if email in selected then
      var r := Without(selected, email);
      assert forall x :: x != email ==> (x in r <==> x in selected) by {
        WithoutCounts(selected, email);
        forall x | x != email ensures x in r <==> x in selected {
          assert x in r <==> x in multiset(r);
          assert x in selected <==> x in multiset(selected);
        }
      }
      r
    else selected + [email]
  }

  lemma {:induction false} WithoutKeepsDistinct(s: seq<string>, e: string)
    requires Distinct(s)
    ensures Distinct(Without(s, e))
  {
    if s != [] {
      WithoutKeepsDistinct(s[1..], e);
      var rest := Without(s[1..], e);
      WithoutCounts(s[1..], e);
      assert s[0] !in s[1..];
      assert multiset(rest)[s[0]] == 0;
    }
  }

  /** Deselecting removes every copy of the email and keeps the other emails, with their counts and their order. */
  lemma ToggleSelected(selected: seq<string>, email: string)
    requires email in selected
    ensures email !in ToggleEmail(selected, email)
    ensures multiset(ToggleEmail(selected, email)) == multiset(selected)[email := 0]
    ensures forall a, b :: selected == a + b ==> ToggleEmail(selected, email) == Without(a, email) + Without(b, email)
  {
    WithoutCounts(selected, email);
    forall a, b | selected == a + b
      ensures ToggleEmail(selected, email) == Without(a, email) + Without(b, email)
    {
      WithoutAppend(a, b, email);
    }
  }

  /** Selecting appends the email at the end and grows the list by one. */
  lemma ToggleUnselected(selected: seq<string>, email: string)
    requires email !in selected
    ensures |ToggleEmail(selected, email)| == |selected| + 1
    ensures ToggleEmail(selected, email)[..|selected|] == selected
    ensures ToggleEmail(selected, email)[|selected|] == email
  {
  }

  /** Clicking an unselected candidate twice restores the selection. */
  lemma ToggleTwice(selected: seq<string>, email: string)
    requires email !in selected
    ensures ToggleEmail(ToggleEmail(selected, email), email) == selected
  {
    WithoutAppend(selected, [email], email);
    WithoutAbsent(selected, email);
  }

  /** A selection without repeats never gets one by a click. */
  lemma ToggleKeepsDistinct(selected: seq<string>, email: string)
    requires Distinct(selected)
    ensures Distinct(ToggleEmail(selected, email))
  {
    if email in selected {
      WithoutKeepsDistinct(selected, email);
    }
  }

  /** The selection after a series of clicks, in any order: it holds only emails already selected or clicked. */
  function ApplyClicks(selected: seq<string>, clicks: seq<string>): (r: seq<string>)
    ensures forall x :: x in r ==> x in selected || x in clicks
    decreases |clicks|
  {
    if clicks == [] then selected
    else ToggleEmail(ApplyClicks(selected, clicks[..|clicks| - 1]), clicks[|clicks| - 1])
  }

  /** Clicking distinct candidates from an empty selection selects exactly them, in click order. */
  lemma {:induction false} ClicksBuildSelection(clicks: seq<string>)
    requires Distinct(clicks)
    ensures ApplyClicks([], clicks) == clicks
    decreases |clicks|
  {
    if clicks != [] {
      var front := clicks[..|clicks| - 1];
      var c := clicks[|clicks| - 1];
      assert Distinct(front);
      ClicksBuildSelection(front);
      assert c !in front by {
        forall i | 0 <= i < |front| ensures front[i] != c {
          assert front[i] == clicks[i];
        }
      }
      assert ApplyClicks([], clicks) == ToggleEmail(front, c) == front + [c];
      assert front + [c] == clicks;
    }
  }

  // ---------------------------------------------------------- request body

  /** The body posted to the backend: `email` only when the page passes one. */
  function RequestBodyFor(text: string, email: Option<seq<string>>): (r: Request)
    ensures r.text == text
    ensures r.email == Absent <==> email.None?
    ensures email.Some? ==> EmailList(r.email) == email.value
  {
    match email
    case None => Request(text, Absent)
    case Some(list) => Request(text, Many(list))
  }

  // -------------------------------------------------------------- dispatch

  /** The task form; `None` is the empty-string default of a field. */
  datatype FormData = FormData(title: string, assignTo: Option<seq<Contact>>, startDate: Option<Date>, endDate: Option<Date>)

  const EmptyForm := FormData("", None, None, None)

  /** The chat messages the page shows. */
  datatype Message =
    | Greeting
    | Processing
    | InvalidRequest
    | ProcessingFailed
    | ChooseUsers
    | TaskCreated(taskName: Option<string>, names: Option<seq<string>>, dates: Option<(Option<Date>, Option<Date>)>)
    | SelectedUsers(emails: seq<string>)

  /** What one reply does to the page. */
  datatype Outcome =
    | RequestFailed
    | StatusError
    | ShowChoices(groups: seq<Group>)
    | FillForm(form: FormData, summary: Message)

  function Names(contacts: seq<Contact>): (r: seq<string>)
    ensures |r| == |contacts| && forall i :: 0 <= i < |r| ==> r[i] == contacts[i].name
  {
    seq(|contacts|, i requires 0 <= i < |contacts| => contacts[i].name)
  }

  /** Reading a reply body the status let through. */
  function Handle(body: Body): (o: Outcome)
    ensures o.ShowChoices? <==> body.ambiguous.Some?
    ensures body.ambiguous.None? <==> o.FillForm?
    ensures o.ShowChoices? ==> o.groups == body.ambiguous.value
    ensures o.FillForm? ==> o.form.assignTo == body.assignTo && o.form.startDate == body.startDate
                            && o.form.endDate == body.endDate
                            && (o.form.title == "" <==> body.taskName.None? || body.taskName.value == "")
                            && (body.taskName.Some? ==> o.form.title == body.taskName.value)
    ensures o.FillForm? ==> o.summary.TaskCreated? && o.summary.taskName == body.taskName
                            && (o.summary.names.Some? <==> body.assignTo.Some?)
                            && (body.assignTo.Some? ==> o.summary.names.value == Names(body.assignTo.value))
                            && (o.summary.dates.Some? <==> body.startDate.Some? || body.endDate.Some?)
                            && (o.summary.dates.Some? ==> o.summary.dates.value == (body.startDate, body.endDate))
  {
    if body.ambiguous.Some? then ShowChoices(body.ambiguous.value)
    else
      var names := if body.assignTo.Some? then Some(Names(body.assignTo.value)) else None;
      var dates := if body.startDate.Some? || body.endDate.Some? then Some((body.startDate, body.endDate)) else None;
      FillForm(FormData(body.taskName.GetOr(""), body.assignTo, body.startDate, body.endDate),
               TaskCreated(body.taskName, names, dates))
  }

  /** The page's check as written: only status 200 reaches the body. `None` is a failed fetch. */
  function DispatchAsWritten(reply: Option<Reply>): (o: Outcome)
    ensures reply.None? ==> o == RequestFailed
    ensures reply.Some? && reply.value.status != 200 ==> o == StatusError
    ensures reply.Some? && reply.value.status == 200 ==> o == Handle(reply.value.body)
  {
    match reply
    case None => RequestFailed
    case Some(r) => if r.status != 200 then StatusError else Handle(r.body)
  }

  /** The status test the page evidently means: the 2xx range and 300 reach the body, the backend's error statuses do not. */
  function Dispatch(reply: Option<Reply>): (o: Outcome)
    ensures reply.None? ==> o == RequestFailed
    ensures reply.Some? ==> (o == StatusError <==> !(200 <= reply.value.status <= 300))
    ensures reply.Some? && 200 <= reply.value.status <= 300 ==> o == Handle(reply.value.body)
  {
    match reply
    case None => RequestFailed
    case Some(r) => if 200 <= r.status <= 300 then Handle(r.body) else StatusError
  }

  /** Which status test the page applies: the one it is written with, or the one it evidently means. */
  datatype StatusCheck = AsWritten | Intended

  function Read(check: StatusCheck, reply: Option<Reply>): Outcome {
    match check
    case AsWritten => DispatchAsWritten(reply)
    case Intended => Dispatch(reply)
  }

  /**
   * As written, no reply the backend can send gets past the status check:
   * the ambiguity popup never opens and the form is never filled.
   */
  lemma AsWrittenRejectsEveryReply(r: Response)
    ensures DispatchAsWritten(Some(Encode(r))) == StatusError
  {
  }

  /** As written, the page reads any reply that came from the backend as an error. */
  lemma AsWrittenReadsError(reply: Option<Reply>)
    ensures (exists r :: reply == Some(Encode(r))) ==> Read(AsWritten, reply) == StatusError
  {
    if exists r :: reply == Some(Encode(r)) {
      var r :| reply == Some(Encode(r));
      AsWrittenRejectsEveryReply(r);
    }
  }

  /**
   * With the intended check, a 300 opens the popup with the backend's
   * groups, a 201 fills the form with the created task, and the 400, 404
   * and 500 replies show the error message.
   */
  lemma DispatchHandlesBackend(r: Response)
    ensures r.Ambiguous? ==> Dispatch(Some(Encode(r))) == ShowChoices(r.groups)
    ensures r.Created? ==> Dispatch(Some(Encode(r))).FillForm?
    ensures r.Created? ==> Dispatch(Some(Encode(r))).form
                             == FormData(r.task.taskName, Some(r.assignees), Some(r.task.startDate), Some(r.task.endDate))
    ensures !r.Ambiguous? && !r.Created? ==> Dispatch(Some(Encode(r))) == StatusError
  {
  }

  /**
   * The page's reading of the reply to `text`, sent with `email` when
   * given, with the intended status test: the popup opens only with
   * candidates to show, and a filled form always has a title and at
   * least one assignee.
   */
  function PageReading(text: string, email: Option<seq<string>>, complete: string -> string,
                       parse: string -> Option<Extraction>, dir: seq<User>): (o: Outcome)
    ensures !o.RequestFailed?
    ensures o.ShowChoices? ==> o.groups != []
    ensures o.FillForm? ==> o.form.title != "" && o.form.assignTo.Some? && o.form.assignTo.value != []
  {
    Dispatch(Some(Encode(Respond(RequestBodyFor(text, email), complete, parse, dir))))
  }

  /** Once the model's reply to `text` parses, the page's reading is that of the controller's assembly for the email sent. */
  lemma PageReadingAfterParse(text: string, email: Option<seq<string>>, complete: string -> string,
                              parse: string -> Option<Extraction>, dir: seq<User>)
    requires parse(CleanReply(complete(text))).Some?
    ensures PageReading(text, email, complete, parse, dir)
            == Dispatch(Some(Encode(Assemble(parse(CleanReply(complete(text))).value, RequestBodyFor(text, email).email, dir))))
  {
  }

  /** A 300 to a request without emails means the model's reply parsed and the extraction itself was ambiguous. */
  lemma AmbiguousReplyParsed(text: string, complete: string -> string, parse: string -> Option<Extraction>,
                             dir: seq<User>, groups: seq<Group>)
    requires Respond(RequestBodyFor(text, None), complete, parse, dir) == Ambiguous(groups)
    ensures parse(CleanReply(complete(text))).Some?
    ensures Assemble(parse(CleanReply(complete(text))).value, Absent, dir) == Ambiguous(groups)
  {
  }

  /**
   * The whole clarification, page and backend together: when an utterance
   * sent without emails comes back ambiguous and the user's clicks, in any
   * order, leave a selection holding a candidate of every group, confirming
   * resends the same utterance with that selection. The language model is
   * asked again (`complete2`) and may answer differently; as long as its
   * second reply parses and names the same people, the page fills the form
   * with the selected users first, in selection order, unless the second
   * reply has no title, in which case it shows the error message.
   */
  lemma ConfirmedChoiceFillsForm(text: string, complete: string -> string, complete2: string -> string,
                                 parse: string -> Option<Extraction>,
                                 dir: seq<User>, groups: seq<Group>, clicks: seq<string>)
    requires EmailsNormalisedAndUnique(dir)
    requires Respond(RequestBodyFor(text, None), complete, parse, dir) == Ambiguous(groups)
    requires parse(CleanReply(complete2(text))).Some?
    requires parse(CleanReply(complete2(text))).value.assignTo == parse(CleanReply(complete(text))).value.assignTo
    requires DirectoryEmails(dir, clicks)
    requires PicksCover(groups, ApplyClicks([], clicks))
    ensures parse(CleanReply(complete(text))).Some?
    ensures var sel := ApplyClicks([], clicks);
            var o := PageReading(text, Some(sel), complete2, parse, dir);
            && (o.FillForm? <==> parse(CleanReply(complete2(text))).value.title != "")
            && (!o.FillForm? ==> o == StatusError)
            && (o.FillForm? ==> o.form.assignTo.Some? && |sel| <= |o.form.assignTo.value|
                                && forall i :: 0 <= i < |sel| ==> o.form.assignTo.value[i].email == sel[i])
  {
    AmbiguousReplyParsed(text, complete, parse, dir, groups);
    var ex := parse(CleanReply(complete(text))).value;
    var ex2 := parse(CleanReply(complete2(text))).value;
    var sel := ApplyClicks([], clicks);
    assert DirectoryEmails(dir, sel);
    PageReadingAfterParse(text, Some(sel), complete2, parse, dir);
    ClarifiedReplyDispatch(ex, ex2, dir, groups, sel);
  }

  /**
   * The page's reading of the backend's answer to a clarified request,
   * for any second extraction that names the same people as the first.
   */
  lemma ClarifiedReplyDispatch(ex: Extraction, ex2: Extraction, dir: seq<User>, groups: seq<Group>, picks: seq<string>)
    requires EmailsNormalisedAndUnique(dir)
    requires Assemble(ex, Absent, dir) == Ambiguous(groups)
    requires ex2.assignTo == ex.assignTo
    requires DirectoryEmails(dir, picks) && PicksCover(groups, picks)
    ensures var o := Dispatch(Some(Encode(Assemble(ex2, Many(picks), dir))));
            && (o.FillForm? <==> ex2.title != "")
            && (!o.FillForm? ==> o == StatusError)
            && (o.FillForm? ==> o.form.assignTo.Some? && |picks| <= |o.form.assignTo.value|
                                && forall i :: 0 <= i < |picks| ==> o.form.assignTo.value[i].email == picks[i])
  {
    ClarificationRoundTrip(ex, ex2, dir, groups, picks);
    var r := Assemble(ex2, Many(picks), dir);
    DispatchHandlesBackend(r);
    if r.Created? {
      ClarificationAssignsPicks(ex2, dir, picks);
    }
  }

  /** The chat message each outcome appends. */
  function OutcomeMessage(o: Outcome): Message {
    match o
    case RequestFailed => ProcessingFailed
    case StatusError => InvalidRequest
    case ShowChoices(_) => ChooseUsers
    case FillForm(_, summary) => summary
  }

  // ------------------------------------------------------------- component

  /** The component state the handlers below update. */
  class VoiceTaskCreator {
    var speechText: string
    var formData: FormData
    var userOptions: seq<Group>
    var showPopup: bool
    var selectedEmails: seq<string>
    var isLoading: bool
    var messages: seq<Message>

    constructor()
      ensures speechText == "" && formData == EmptyForm && userOptions == [] && !showPopup
      ensures selectedEmails == [] && !isLoading && messages == [Greeting]
    {
      speechText := "";
      formData := EmptyForm;
      userOptions := [];
      showPopup := false;
      selectedEmails := [];
      isLoading := false;
      messages := [Greeting];
    }

    /** A click on a candidate in the popup. */
    method HandleUserClick(email: string)
      modifies this
      ensures selectedEmails == ToggleEmail(old(selectedEmails), email)
      ensures speechText == old(speechText) && formData == old(formData) && userOptions == old(userOptions)
      ensures showPopup == old(showPopup) && isLoading == old(isLoading) && messages == old(messages)
    {
      if email in selectedEmails {
        selectedEmails := Without(selectedEmails, email);
      } else {
        selectedEmails := selectedEmails + [email];
      }
    }

    /**
     * Posts `text` (and `email`, when given) and applies the reply;
     * `network` is the fetch, `None` when it fails, and `check` the status
     * test applied to the reply. With the test as written, every reply the
     * controller can send only shows the error message.
     */
    method SendToGemini(check: StatusCheck, text: string, email: Option<seq<string>>, network: Request -> Option<Reply>)
      modifies this
      ensures var o := Read(check, network(RequestBodyFor(text, email)));
              && messages == old(messages) + [Processing, OutcomeMessage(o)]
              && formData == (if o.FillForm? then o.form else old(formData))
              && userOptions == (if o.ShowChoices? then o.groups else old(userOptions))
              && showPopup == (o.ShowChoices? || old(showPopup))
      ensures !isLoading
      ensures speechText == old(speechText) && selectedEmails == old(selectedEmails)
      ensures check == AsWritten && (exists r :: network(RequestBodyFor(text, email)) == Some(Encode(r))) ==>
                messages == old(messages) + [Processing, InvalidRequest]
                && formData == old(formData) && userOptions == old(userOptions) && showPopup == old(showPopup)
    {
      isLoading := true;
      messages := messages + [Processing];
      var reply := network(RequestBodyFor(text, email));
      AsWrittenReadsError(reply);
      var o := Read(check, reply);
      match o {
        case RequestFailed =>
        case StatusError =>
        case ShowChoices(groups) =>
          userOptions := groups;
          showPopup := true;
        case FillForm(form, _) =>
          formData := form;
      }
      messages := messages + [OutcomeMessage(o)];
      isLoading := false;
    }

    /**
     * Confirming the popup: nothing happens without a selection; otherwise
     * the popup closes, the selection is echoed, the original utterance is
     * sent again with the selected emails, and the selection is cleared.
     */
    method HandleConfirmSelection(check: StatusCheck, network: Request -> Option<Reply>)
      modifies this
      ensures old(selectedEmails) == [] ==>
                speechText == old(speechText) && formData == old(formData) && userOptions == old(userOptions)
                && showPopup == old(showPopup) && selectedEmails == old(selectedEmails)
                && isLoading == old(isLoading) && messages == old(messages)
      ensures old(selectedEmails) != [] ==>
                var o := Read(check, network(Request(old(speechText), Many(old(selectedEmails)))));
                && messages == old(messages) + [SelectedUsers(old(selectedEmails)), Processing, OutcomeMessage(o)]
                && formData == (if o.FillForm? then o.form else old(formData))
                && userOptions == (if o.ShowChoices? then o.groups else old(userOptions))
                && showPopup == o.ShowChoices?
                && selectedEmails == [] && !isLoading && speechText == old(speechText)
      ensures old(selectedEmails) != [] && check == AsWritten
              && (exists r :: network(Request(old(speechText), Many(old(selectedEmails)))) == Some(Encode(r))) ==>
                messages == old(messages) + [SelectedUsers(old(selectedEmails)), Processing, InvalidRequest]
                && formData == old(formData) && userOptions == old(userOptions) && !showPopup
                && selectedEmails == []
    {
      if selectedEmails == [] {
        return;
      }
      isLoading := true;
      showPopup := false;
      messages := messages + [SelectedUsers(selectedEmails)];
      SendToGemini(check, speechText, Some(selectedEmails), network);
      selectedEmails := [];
      isLoading := false;
    }
  }
}
