# Voice task creator: parsing controller and page handlers

The voice task creator turns a spoken sentence into a task assignment. The
browser page (`frontend/app/page.tsx`) posts the utterance, and optionally
the emails of users picked in an earlier round, to `POST /api/parse`. The
backend's `parseTextController` (`backend/controllers/voiceController.js`)
asks a language model for a JSON record `{ title, assignTo, startdate,
enddate }` and cleans and parses the reply. It then resolves the caller's
emails and the extracted names against the user directory. The outcome is
one of:

- a 404 naming the first unknown email or name;
- a 300 listing each ambiguous name with all its candidates;
- a 400 when the title or the assignees are missing;
- a 201 with the created task.

The page is meant to open a popup of candidates on a 300, where clicking
toggles an email in the selection and confirming resends the same utterance
with the selected emails, and to fill the task form on a 201. As written,
its status test admits only a 200, which the controller never sends, so
every reply shows the invalid-request message instead (see "## Findings").
The model keeps both readings.

The project has these modules:

- `Wrappers`: `Option` and `Result`.
- `JsString`: the JavaScript string built-ins the controller uses. These are
  `trim`, ASCII `toLowerCase`, `replace` with a non-global pattern (first
  occurrence only), `split(' ')` and `filter` on a list of strings.
- `Directory`: the user directory as a sequence of `User(id, name, email)`
  in the database's natural order. It has `findOne` by exact email and
  `find` by a case-insensitive whole-name pattern.
- `VoiceController`: the controller after the language model call.
  - The specification functions are `ResolveEmails` (the email loop),
    `ScanNames` (the name loop), `Assemble` (everything after `JSON.parse`)
    and `Respond` (the whole controller).
  - `Encode` gives each outcome its status and JSON body.
  - The methods `FindEmailUsers`, `MatchNames` and `ParseText` run the
    loops and early returns as the source does. Each is proved equal to
    its specification function.
- `ResolutionProofs`: what the controller guarantees. It covers fence
  cleaning, name splitting, when each status is returned, what a created
  task holds, and the two-round clarification.
- `TaskPage`: the page.
  - The selection toggle.
  - The request body.
  - The status and ambiguity dispatch of `sendToGemini`.
  - The component state as a class whose handlers update it in place.
  - End-to-end lemmas that join the page to the controller.

The language model, `JSON.parse` and the fetch are parameters of the model:
`complete`, `parse` and `network`.

## Model

| member | source | states |
|---|---|---|
| JsString.TrimStartSpec | backend/controllers/voiceController.js:37 | leading trim keeps a suffix of the string and removes only whitespace |
| JsString.TrimEndSpec | backend/controllers/voiceController.js:37 | trailing trim keeps a prefix of the string and removes only whitespace |
| JsString.TrimStart | backend/controllers/voiceController.js:37 | leading trim never lengthens the string and leaves no leading whitespace |
| JsString.TrimEnd | backend/controllers/voiceController.js:37 | trailing trim never lengthens the string and leaves no trailing whitespace |
| JsString.Trim | backend/controllers/voiceController.js:37 | `trim` never lengthens the string, and its result neither starts nor ends with whitespace |
| JsString.TrimIdempotent | backend/controllers/voiceController.js:55 | trimming an already trimmed string changes nothing |
| JsString.LowerChar | backend/controllers/voiceController.js:67 | `toLowerCase` on one character: a capital A-Z becomes the small letter at the same place in the alphabet, and any other character is kept |
| JsString.Lower | backend/controllers/voiceController.js:67 | `toLowerCase` keeps the length and lower-cases each character in place, by `LowerChar` |
| JsString.LowerIsLowercase | backend/controllers/voiceController.js:67 | `toLowerCase` leaves no ASCII capital, and applying it twice equals applying it once |
| JsString.IndexOfFrom | backend/controllers/voiceController.js:37 | the index found is an occurrence of the pattern with none before it; None means the pattern occurs nowhere |
| JsString.ReplaceFirstSpec | backend/controllers/voiceController.js:37 | `replace` with a non-global pattern changes nothing when the pattern is absent, and otherwise replaces the first occurrence only |
| JsString.SplitOnSpace | backend/controllers/voiceController.js:43 | `split(' ')` gives at least one piece, no piece holds a space, and joining the pieces with spaces gives back the string |
| JsString.SplitJoin | backend/controllers/voiceController.js:43 | splitting undoes joining: space-free pieces joined with spaces split back into the same pieces |
| JsString.SplitAtFirstSpace | backend/controllers/voiceController.js:43 | after a space-free word and a space, `split(' ')` yields that word and then the pieces of the rest |
| JsString.SplitKeepsLetters | backend/controllers/voiceController.js:43 | the pieces of `split(' ')` hold exactly the string's non-space characters, in order |
| JsString.Without | frontend/app/page.tsx:185 | `filter(x => x !== e)` leaves no copy of `e` and never lengthens the list |
| JsString.WithoutCounts | backend/controllers/voiceController.js:43 | the filter keeps every other element with its count and drops every copy of `e` |
| JsString.WithoutAppend | backend/controllers/voiceController.js:43 | the filter works piecewise over a concatenation |
| JsString.WithoutAbsent | frontend/app/page.tsx:185 | filtering out an element that is not there changes nothing |
| Directory.FindByEmail | backend/controllers/voiceController.js:55 | `findOne` returns the first user whose email equals the key; None exactly when no user has that email |
| Directory.Matches | backend/controllers/voiceController.js:69 | `find` by name returns exactly the directory users whose name equals the given one ignoring case, and no more users than the directory has |
| Directory.MatchesIgnoreCase | backend/controllers/voiceController.js:69 | names that agree after lower-casing find the same users |
| Directory.MatchesInOrder | backend/controllers/voiceController.js:78-82 | candidates come out in directory order: matching over a concatenated directory concatenates the matches |
| VoiceController.CleanReply | backend/controllers/voiceController.js:37 | the cleaned model reply handed to `JSON.parse` neither starts nor ends with whitespace |
| VoiceController.SplitNames | backend/controllers/voiceController.js:43 | every name token after `flatMap`/`split`/`filter` is non-empty and holds no space |
| VoiceController.DefaultDates | backend/controllers/voiceController.js:45-47 | the start date is the extracted one when there is one, and today exactly when none was extracted; the end date is the extracted one, else the start date; it is today exactly when neither date was extracted |
| VoiceController.EmailList | backend/controllers/voiceController.js:52 | an array is taken as it is, and a non-empty string as the one-element list of that string, as written; only an array supplies more than one email; no email is supplied exactly when the field is absent, the empty string or the empty array |
| VoiceController.Normalize | backend/controllers/voiceController.js:55 | the lookup key is the email trimmed and then lower-cased (`Trim` and `Lower`, each specified on its own); it is no longer than the email and holds no ASCII capital |
| VoiceController.Lookup | backend/controllers/voiceController.js:55 | a found user is a directory user holding exactly the normalised email; nobody is found exactly when no user holds it |
| VoiceController.ResolveEmails | backend/controllers/voiceController.js:54-60 | success exactly when every supplied email finds a user by its trimmed lower-cased form, with the users in email order; otherwise the error is the first email, as written, that finds nobody |
| VoiceController.EmailFailureSticks | backend/controllers/voiceController.js:56-58 | once an email fails, later emails do not change the outcome (the early return) |
| VoiceController.EmailStep | backend/controllers/voiceController.js:55-59 | one more email either fails with that email or appends its user |
| VoiceController.ScanStep | backend/controllers/voiceController.js:65-86 | one turn of the name loop stops only at a name nobody has, and otherwise either adds at most one group or appends exactly one user, never both, keeping what was there |
| VoiceController.ScanNames | backend/controllers/voiceController.js:63-87 | a name loop that completes keeps the email-found users as the prefix of the matched list |
| VoiceController.MissingSticks | backend/controllers/voiceController.js:71-73 | once a name finds nobody, later names do not change the outcome (the early return) |
| VoiceController.Ids | backend/controllers/voiceController.js:99 | one id per matched user, in order |
| VoiceController.Contacts | backend/controllers/voiceController.js:114-117 | one name-and-email record per matched user, in order |
| VoiceController.Assemble | backend/controllers/voiceController.js:40-125 | the 500 comes exactly from a missing `assignTo` array and the email 404 exactly from an email that finds nobody; a 300 carries at least one group; a created task has the extracted non-empty title, the defaulted dates and at least one assignee, with one id per contact |
| VoiceController.Respond | backend/controllers/voiceController.js:37-129 | the answer is a 500 exactly when the model reply does not parse or carries no `assignTo` array; a created task has a title and an assignee |
| VoiceController.Encode | backend/controllers/voiceController.js:57-128 | each outcome gets its own status: 404 exactly for an unknown email or name, with the error text naming it; 300 exactly for ambiguity, carrying the groups; 400 exactly for the validation error; 201 exactly for a created task, carrying its title, assignees and dates; 500 exactly for the server error |
| VoiceController.FindEmailUsers | backend/controllers/voiceController.js:54-60 | the email loop with its early return computes `ResolveEmails` |
| VoiceController.MatchNames | backend/controllers/voiceController.js:63-87 | the name loop with its `continue` and early return computes `ScanNames` |
| VoiceController.ParseText | backend/controllers/voiceController.js:37-129 | the controller's sequence of early returns computes `Respond` |
| ResolutionProofs.NoFenceWithoutBacktick | backend/controllers/voiceController.js:37 | a pattern starting with a backtick is not found in a string without backticks |
| ResolutionProofs.CleanReplyPlain | backend/controllers/voiceController.js:37 | a reply without backticks is only trimmed |
| ResolutionProofs.FenceAfter | backend/controllers/voiceController.js:37 | the first fence is found right after a backtick-free prefix |
| ResolutionProofs.DropFenceAfter | backend/controllers/voiceController.js:37 | the second `replace` removes exactly that first fence |
| ResolutionProofs.DropOpeningFence | backend/controllers/voiceController.js:37 | the first `replace` removes a leading json fence |
| ResolutionProofs.CleanReplyUnwrapsFence | backend/controllers/voiceController.js:37 | a reply fenced as json with a backtick-free body cleans to the trimmed body |
| ResolutionProofs.CleanReplyKeepsLaterFences | backend/controllers/voiceController.js:37 | the replaces are not global: a third fence survives cleaning |
| ResolutionProofs.ConcatWithoutEmpty | backend/controllers/voiceController.js:43 | dropping the empty pieces loses no character |
| ResolutionProofs.SplitNamesKeepsLetters | backend/controllers/voiceController.js:43 | the name tokens hold exactly the non-space characters of the extracted names, in order |
| ResolutionProofs.SplitNamesAppend | backend/controllers/voiceController.js:43 | splitting works entry by entry: the tokens of concatenated lists are the concatenated tokens |
| ResolutionProofs.SplitNamesKeepsWords | backend/controllers/voiceController.js:43 | names that are already single non-empty words are kept unchanged |
| ResolutionProofs.SplitNamesIdempotent | backend/controllers/voiceController.js:43 | splitting the tokens again changes nothing |
| ResolutionProofs.AmbiguousGroups | backend/controllers/voiceController.js:75-83 | the loop-free description of the ambiguity report: each group names a token, carries all its matches, has more than one match, and the token is carried by no email-found user |
| ResolutionProofs.NoAmbiguousGroups | backend/controllers/voiceController.js:89 | no group is reported exactly when every token shared by several users is carried by an email-found user |
| ResolutionProofs.AmbiguousGroupsComplete | backend/controllers/voiceController.js:75-83 | every token shared by several users and not carried by an email-found user has a group |
| ResolutionProofs.ResolvedForOneMore | backend/controllers/voiceController.js:65-87 | the resolved-list invariant extends to one more token whose sole user is already listed |
| ResolutionProofs.SoleMatchesForOneMore | backend/controllers/voiceController.js:84-86 | "every token with one user has that user listed" extends to one more token |
| ResolutionProofs.SkipKeepsResolved | backend/controllers/voiceController.js:67 | skipping a token a listed user already carries keeps the invariant |
| ResolutionProofs.SkippedAmbiguousIsEmailed | backend/controllers/voiceController.js:67 | a skipped token shared by several users is carried by an email-found user |
| ResolutionProofs.AmbiguousKeepsResolved | backend/controllers/voiceController.js:75-83 | recording an ambiguous token keeps the invariant; that token is carried by no email-found user |
| ResolutionProofs.AddKeepsResolved | backend/controllers/voiceController.js:84-86 | pushing the sole match of an uncovered token keeps the invariant |
| ResolutionProofs.SoleMatchesAfterAdd | backend/controllers/voiceController.js:84-86 | after pushing a token's sole match, every token with one user still has it listed |
| ResolutionProofs.StepKeepsResolved | backend/controllers/voiceController.js:65-87 | one turn of the name loop keeps the invariant, and its groups are the groups of the tokens so far |
| ResolutionProofs.ScanResolves | backend/controllers/voiceController.js:63-87 | a completed name loop resolves every token (email-found users first, then single-match users named by tokens, no name repeated after them) and reports exactly `AmbiguousGroups` |
| ResolutionProofs.FirstNaming | backend/controllers/voiceController.js:65 | the position of the first token naming a user: no earlier token names it, and that token does |
| ResolutionProofs.FirstNamingInPrefix | backend/controllers/voiceController.js:65 | one more token does not move the first naming of a name an earlier token already names |
| ResolutionProofs.OrderKeptOnSkip | backend/controllers/voiceController.js:67-83 | a token that leaves the matched list unchanged keeps it in token order |
| ResolutionProofs.OrderKeptOnAdd | backend/controllers/voiceController.js:84-86 | the user appended for a token is named by no earlier token, so the list stays in token order |
| ResolutionProofs.ScanInTokenOrder | backend/controllers/voiceController.js:63-87 | after the email users, a completed name loop lists its users in the order of the tokens that first name them |
| ResolutionProofs.ScanMatchedInDirectory | backend/controllers/voiceController.js:84-86 | every matched user is a directory user |
| ResolutionProofs.KnownTokenContinues | backend/controllers/voiceController.js:65-87 | a token that names somebody never stops the loop |
| ResolutionProofs.UnknownTokenStops | backend/controllers/voiceController.js:71-73 | a token that names nobody stops the loop with that token |
| ResolutionProofs.ScanStopsAtFirstUnknown | backend/controllers/voiceController.js:71-73 | the loop stops exactly when some token names nobody, and it names the first such token |
| ResolutionProofs.EveryTokenCovered | backend/controllers/voiceController.js:63-87 | without ambiguity, every token is carried by some matched user |
| ResolutionProofs.EmailUsersInDirectory | backend/controllers/voiceController.js:55 | every user the emails find is a directory user |
| ResolutionProofs.LowerKeepsSpaces | backend/controllers/voiceController.js:55 | lower-casing neither creates nor removes whitespace |
| ResolutionProofs.NormalizeIdempotent | backend/controllers/voiceController.js:55 | the email key is stable: normalising twice equals once, and looking up a normalised email finds the same user |
| ResolutionProofs.UnknownEmailAborts | backend/controllers/voiceController.js:56-58 | the answer is a 404 for an email exactly when some supplied email finds nobody, and it names the first such email as written |
| ResolutionProofs.UnknownNameAborts | backend/controllers/voiceController.js:71-73 | once the emails resolve, the answer is a 404 for a name exactly when some token names nobody, and it names the first such token |
| ResolutionProofs.NameStepDecides | backend/controllers/voiceController.js:71-73 | once the emails resolve, the answer is a name 404 exactly when the name loop stops, naming the token it stopped at |
| ResolutionProofs.AmbiguityReported | backend/controllers/voiceController.js:89-94 | with every email and token known, the answer is a 300 exactly when `AmbiguousGroups` is non-empty, and it carries those groups |
| ResolutionProofs.ValidationOutcome | backend/controllers/voiceController.js:105-110 | with everything known and nothing ambiguous, the answer is a 400 exactly when the title is empty or there were neither emails nor tokens; otherwise a task is created |
| ResolutionProofs.ScanSettled | backend/controllers/voiceController.js:63-87 | with every token known and none ambiguous, the loop completes without groups, and ends empty exactly when it had neither users nor tokens |
| ResolutionProofs.CreatedShape | backend/controllers/voiceController.js:114-117 | a created task's ids and contacts are those of the completed name loop's matched users |
| ResolutionProofs.LeadingRecords | backend/controllers/voiceController.js:99 | the leading ids and contacts are those of the users the emails found |
| ResolutionProofs.CreatedTaskEmailUsersFirst | backend/controllers/voiceController.js:59 | a created task lists first, in email order, the id, name and email of the user each supplied email finds |
| ResolutionProofs.CreatedFromScan | backend/controllers/voiceController.js:63-94 | a created task comes from a completed loop with no groups, where every token names somebody |
| ResolutionProofs.CreatedTaskNoSecondUser | backend/controllers/voiceController.js:67 | after the email-found users, no assignee shares a name with an assignee before it |
| ResolutionProofs.CreatedTaskCoversTokens | backend/controllers/voiceController.js:65-87 | every name token is carried by some assignee of a created task |
| ResolutionProofs.ContactsCarryNames | backend/controllers/voiceController.js:114-117 | a token carried by a matched user is carried by that user's name-and-email record |
| ResolutionProofs.CreatedTaskHasEverySoleMatch | backend/controllers/voiceController.js:84-86 | every token that names exactly one user has that user among the assignees |
| ResolutionProofs.CreatedTaskInTokenOrder | backend/controllers/voiceController.js:65-87 | after the email users, a created task lists its assignees in the order of the tokens that first name them |
| ResolutionProofs.PickedEmailsResolve | backend/controllers/voiceController.js:54-60 | directory emails picked in any order all resolve, each to the directory user holding exactly that email |
| ResolutionProofs.SameEmailSameUser | backend/controllers/voiceController.js:55 | with unique emails, two directory users with the same email are the same user |
| ResolutionProofs.AmbiguousFirstRound | backend/controllers/voiceController.js:89-94 | a 300 to a request without emails means every token named somebody, and the groups are `AmbiguousGroups` of the tokens |
| ResolutionProofs.PicksSettleAmbiguity | backend/controllers/voiceController.js:65-83 | resending with directory emails that include a candidate of every group, in any order and with extra users, resolves and leaves no ambiguous token |
| ResolutionProofs.PicksNormalised | backend/controllers/voiceController.js:55 | picked directory emails are already in their normalised form |
| ResolutionProofs.ClarificationRoundTrip | backend/controllers/voiceController.js:52-125 | after a 300, resending with directory emails that include a candidate of every group creates the task when the title is non-empty and gives a 400 otherwise; the second extraction may differ from the first (the language model is asked again) as long as it names the same people, and it is its title that decides |
| ResolutionProofs.SettledRequestValidates | backend/controllers/voiceController.js:105-110 | a resend whose picks resolve and leave nothing ambiguous creates the task or, without a title, gives a 400 |
| ResolutionProofs.ClarificationAssignsPicks | backend/controllers/voiceController.js:54-60 | the task created for picked directory emails lists the picked users first, in pick order |
| TaskPage.ToggleEmail | frontend/app/page.tsx:182-188 | a click changes the membership of the clicked email and of no other email |
| TaskPage.WithoutKeepsDistinct | frontend/app/page.tsx:185 | removal keeps a selection without repeats |
| TaskPage.ToggleSelected | frontend/app/page.tsx:184-185 | clicking a selected email removes every copy of it and keeps the other emails in order |
| TaskPage.ToggleUnselected | frontend/app/page.tsx:186 | clicking an unselected email appends it at the end |
| TaskPage.ToggleTwice | frontend/app/page.tsx:182-188 | two clicks on an unselected email restore the selection |
| TaskPage.ToggleKeepsDistinct | frontend/app/page.tsx:182-188 | a click never introduces a repeated email |
| TaskPage.ApplyClicks | frontend/app/page.tsx:182-188 | after any clicks, in any order, the selection holds only emails selected before or clicked |
| TaskPage.ClicksBuildSelection | frontend/app/page.tsx:182-188 | clicking distinct emails from an empty selection selects exactly them, in click order |
| TaskPage.RequestBodyFor | frontend/app/page.tsx:131 | the body always carries the text, and carries `email` exactly when the page passes one (an empty array included), as that list |
| TaskPage.Names | frontend/app/page.tsx:156 | the summary lists each assignee's name, in order |
| TaskPage.Handle | frontend/app/page.tsx:140-162 | a body with `ambiguous` shows exactly those choices; a body without it fills the form with the title (empty when absent), assignees and dates, and a task-created summary naming the title, the assignees' names when present and the dates when either is present |
| TaskPage.DispatchAsWritten | frontend/app/page.tsx:134-138 | as written: a failed fetch is the error message, every status other than 200 is the invalid-request message, and 200 reaches the body |
| TaskPage.Dispatch | frontend/app/page.tsx:134-138 | as intended: statuses 200 to 300 reach the body and all others are the invalid-request message |
| TaskPage.AsWrittenRejectsEveryReply | frontend/app/page.tsx:134 | as written, every reply the controller can send is rejected by the status check |
| TaskPage.AsWrittenReadsError | frontend/app/page.tsx:134-138 | as written, any reply the controller can send is read as the invalid-request error |
| TaskPage.DispatchHandlesBackend | frontend/app/page.tsx:142-152 | with the intended check, a 300 opens the choices with the controller's groups, a 201 fills the form with the created task, and 400, 404 and 500 show the error |
| TaskPage.PageReading | frontend/app/page.tsx:123-163 | with the intended check, the page never reads a failed fetch from the controller, opens the popup only with candidates, and fills the form only with a title and at least one assignee |
| TaskPage.PageReadingAfterParse | frontend/app/page.tsx:128-132 | once the model reply parses, the page reads the controller's assembly for the body it sent |
| TaskPage.AmbiguousReplyParsed | frontend/app/page.tsx:142-145 | a 300 to a request without emails means the reply parsed and its extraction was ambiguous |
| TaskPage.ConfirmedChoiceFillsForm | frontend/app/page.tsx:172-180 | after a 300, clicks in any order that leave a candidate of every group selected, then confirming, fill the form with the selected users first, in selection order, when the second reply has a title, and show the error otherwise; the second language-model reply (`complete2`) may differ from the first, provided it parses and names the same people |
| TaskPage.ClarifiedReplyDispatch | frontend/app/page.tsx:134-152 | the page's reading of a resend whose picks cover every group, for any second extraction naming the same people: the form is filled exactly when its title is non-empty, with the picks first, and the error is shown otherwise |
| TaskPage.VoiceTaskCreator.constructor | frontend/app/page.tsx:4-21 | the initial state: empty text and form, no options, popup closed, nothing selected, not loading, the greeting shown |
| TaskPage.VoiceTaskCreator.HandleUserClick | frontend/app/page.tsx:182-188 | the selection becomes the toggled selection and nothing else changes |
| TaskPage.VoiceTaskCreator.SendToGemini | frontend/app/page.tsx:123-170 | for either status test: appends the processing message and the outcome's message, fills the form only on a form outcome, opens the popup with the groups only on a choices outcome, and ends not loading; with the test as written, any controller reply only appends the error message and leaves form, options and popup unchanged |
| TaskPage.VoiceTaskCreator.HandleConfirmSelection | frontend/app/page.tsx:172-180 | does nothing without a selection; otherwise echoes the selection, resends the utterance with it, closes the popup unless new choices arrive, and clears the selection; with the status test as written, any controller reply leaves the form and options unchanged and the popup closed |

## Left out

- The language model call and its prompt (voiceController.js:9-35) are the parameter `complete`. The environment, the model client and its failures are not part of this model.
- `JSON.parse` and the reading of the four fields are the parameter `parse`. A reply that does not parse is its `None` and leads to the 500. Fields that are present but not strings (a non-string title, a string `assignTo`, non-string names or emails) are not represented. The source throws on most of them, which ends in the same 500.
- Directory.Matches: the name is put into `new RegExp` unescaped. The model treats it as a literal whole-name comparison that ignores case, so a name holding regular-expression metacharacters is not modelled.
- JsString.Lower: lower-cases ASCII letters only. The Unicode case mapping of `toLowerCase` and the regex `i` flag is not modelled.
- Dates are opaque. `new Date(...)`, `moment().startOf('day')` and the page's `formatDate` (page.tsx:190-198) are not modelled. The model keeps only which date each field takes.
- The database is not modelled: persistence, `Task.create` failing, the generated `_id`, and the `_id` in the 201 body and in each ambiguous option. Contacts and groups carry the user records themselves.
- ResolutionProofs.ValidationOutcome: follows the code, where the 400 checks that the title is non-empty, not that it is non-empty after trimming. A title made only of spaces therefore passes voiceController.js:105 and is modelled as created. The task schema's `trim: true` with `required` (backend/models/task.js:8) would make `Task.create` reject it, which the source reports as a 500. Schema validation and its trimming of the stored title are not modelled.
- ResolutionProofs.ClarificationRoundTrip, TaskPage.ClarifiedReplyDispatch, TaskPage.ConfirmedChoiceFillsForm: the resend asks the language model again (voiceController.js:9-35), and its second reply may differ from the first. These lemmas hold for any second reply that parses and names the same people (`assignTo` unchanged); a second reply that drops a name, adds one or fails to parse is not covered.
- The clarification lemmas (`PickedEmailsResolve`, `PicksSettleAmbiguity`, `ClarificationRoundTrip`, `ClarificationAssignsPicks`, `ConfirmedChoiceFillsForm`) require that directory emails are stored trimmed, lower-cased and unique (`EmailsNormalisedAndUnique`). Nothing in the source guarantees this. Registration (userController.js:9-14) rejects only an exact duplicate and stores the email as sent, and the user schema is not part of this model. A stored email that is not lower-case is never found by the controller's lower-cased lookup, so picking that user does not complete the round trip.
- The user controller, the routes and the server setup are not part of this model.
- Speech recognition, rendering, scrolling and form editing on the page are not modelled. React's asynchronous state batching is replaced by sequential updates: `HandleConfirmSelection` reads the current selection and utterance.
- A failing `res.json` or `console` call is not modelled.
- TaskPage.VoiceTaskCreator.SendToGemini: a reply that passes the status check but whose body fails to parse, and a failed fetch, are both the `None` of `network`. Both show the error message.

## Findings

| source | as written | input that shows it | evidently intended | confidence | as-written member | corrected member |
|---|---|---|---|---|---|---|
| frontend/app/page.tsx:134 | only status 200 reaches the reply body; any other status shows "Please provide a valid task description." | any controller reply, e.g. the 201 for a created task or the 300 for an ambiguous name: the controller never answers 200 | a 201 fills the form and a 300 opens the candidate popup, as the code after the status test expects | high, not executed | TaskPage.AsWrittenRejectsEveryReply | TaskPage.DispatchHandlesBackend |

`SendToGemini` and `HandleConfirmSelection` take the status test as a parameter (`StatusCheck`). With the test as written they prove that every controller reply only shows the error message. The end-to-end lemmas (`PageReading`, `ConfirmedChoiceFillsForm`, `ClarifiedReplyDispatch`) use the corrected `Dispatch`.
