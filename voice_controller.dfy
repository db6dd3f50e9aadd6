/**
 * `parseTextController`: everything the voice controller does after the
 * language model has answered. The reply text is cleaned of its code
 * fence and parsed (the parser is a parameter), the assignee names are
 * re-split, the dates defaulted, the caller's emails and then the names
 * resolved against the user directory, and the outcome is one of: 404
 * naming the first unknown email or name, 300 with the ambiguous names,
 * 400 when the title or the assignees are missing, or 201 with the task.
 */
module VoiceController {
  import opened Wrappers
  import opened JsString
  import opened Directory

  /** The parsed model reply; an absent or empty string field is "". */
  datatype Extraction = Extraction(title: string, assignTo: Option<seq<string>>, startdate: string, enddate: string)

  /** The request body's `email`: absent (or falsy), one address, or an array of them. */
  datatype EmailField = Absent | Single(address: string) | Many(addresses: seq<string>)

  /** The request body `{ text, email }`. */
  datatype Request = Request(text: string, email: EmailField)

  /** A calendar date, opaque: the `Date` built from a model-supplied string, or the start of today. */
  datatype Date = Parsed(text: string) | StartOfToday

  /** One ambiguous name with every directory user it matched. */
  datatype Group = Group(name: string, options: seq<User>)

  datatype Contact = Contact(name: string, email: string)

  /** The record handed to `Task.create`. */
  datatype Task = Task(taskName: string, assignTo: seq<nat>, startDate: Date, endDate: Date)

  /** How one request ends. */
  datatype Response =
    | EmailNotFound(email: string)                   // 404
    | NameNotFound(name: string)                     // 404
    | Ambiguous(groups: seq<Group>)                  // 300
    | ValidationError                                // 400
    | Created(task: Task, assignees: seq<Contact>)   // 201
    | ServerError                                    // 500: unparseable reply, or no `assignTo` array

  /** The JSON body of an HTTP reply, field by field; None is a field the body does not carry. */
  datatype Body = Body(
    error: Option<string>, message: Option<string>, ambiguous: Option<seq<Group>>,
    taskName: Option<string>, assignTo: Option<seq<Contact>>,
    startDate: Option<Date>, endDate: Option<Date>)

  datatype Reply = Reply(status: int, body: Body)

  /**
   * Removes the first "```json", then the first remaining "```", then
   * surrounding whitespace: what reaches the parser neither starts nor
   * ends with whitespace.
   */
  function CleanReply(reply: string): (r: string)
    ensures r == [] || (!IsJsSpace(r[0]) && !IsJsSpace(r[|r| - 1]))
  {
    Trim(ReplaceFirst(ReplaceFirst(reply, "```json", ""), "```", ""))
  }

  /**
   * `assignTo.flatMap(name => name.split(' ')).filter(Boolean)`; on
   * strings `filter(Boolean)` drops exactly the empty ones.
   */
  function SplitNames(entries: seq<string>): (r: seq<string>)
    ensures forall k :: 0 <= k < |r| ==> r[k] != "" && ' ' !in r[k]
  {
    if entries == [] then []
    else
      var pieces := SplitOnSpace(entries[0]);
      var kept := Without(pieces, "");
      assert forall k :: 0 <= k < |kept| ==> ' ' !in kept[k] by {
        forall k | 0 <= k < |kept| ensures ' ' !in kept[k] {
          WithoutCounts(pieces, "");
          assert kept[k] in multiset(kept);
          assert kept[k] in multiset(pieces);
          var j :| 0 <= j < |pieces| && pieces[j] == kept[k];
        }
      }
      kept + SplitNames(entries[1..])
  }

  /**
   * The start date is the extracted one, else today; the end date is the
   * extracted one, else the start date.
   */
  function DefaultDates(startdate: string, enddate: string): (r: (Date, Date))
    ensures r.0 == StartOfToday <==> startdate == ""
    ensures startdate != "" ==> r.0 == Parsed(startdate)
    ensures r.1 == StartOfToday <==> startdate == "" && enddate == ""
    ensures enddate == "" ==> r.1 == r.0
    ensures enddate != "" ==> r.1 == Parsed(enddate)
  {
    var now := StartOfToday;
    var startDate: Option<Date> := if startdate != "" then Some(Parsed(startdate)) else None;
    var endDate := if enddate != "" then Parsed(enddate) else startDate.GetOr(now);
    (startDate.GetOr(now), endDate)
  }

  /**
   * `Array.isArray(email) ? email : email ? [email] : []`: only an array
   * supplies more than one email, and none is supplied exactly when the
   * field is absent, the empty string or the empty array.
   */
  function EmailList(email: EmailField): (r: seq<string>)
    ensures email.Many? || |r| <= 1
    ensures r == [] <==> email == Absent || email == Single("") || email == Many([])
    ensures email.Single? && email.address != "" ==> r == [email.address]
    ensures email.Many? ==> r == email.addresses
  {
    match email
    case Absent => []
    case Single(a) => if a == "" then [] else [a]
    case Many(list) => list
  }

  /**
   * The lookup key for a supplied email, `trim()` and then `toLowerCase()`:
   * no longer, and without ASCII capitals.
   */
  function Normalize(email: string): (r: string)
    ensures r == Lower(Trim(email))
    ensures |r| <= |email|
    ensures forall i :: 0 <= i < |r| ==> !('A' <= r[i] <= 'Z')
  {
    LowerIsLowercase(Trim(email));
    Lower(Trim(email))
  }

  /**
   * `User.findOne` for a supplied email: a directory user holding exactly
   * its normalised form, found exactly when some user holds it.
   */
  function Lookup(dir: seq<User>, email: string): (r: Option<User>)
    ensures r.Some? ==> r.value in dir && r.value.email == Normalize(email)
    ensures r.None? <==> forall u :: u in dir ==> u.email != Normalize(email)
  {
    FindByEmail(dir, Normalize(email))
  }

  /**
   * The email loop: each supplied email, in order, is looked up by its
   * normalised form; the first that finds no user ends the loop with that
   * email as written.
   */
  function ResolveEmails(dir: seq<User>, emails: seq<string>): (r: Result<seq<User>, string>)
    ensures r.Success? <==> forall i :: 0 <= i < |emails| ==> Lookup(dir, emails[i]).Some?
    ensures r.Success? ==> |r.value| == |emails|
    ensures r.Success? ==> forall i :: 0 <= i < |emails| ==> Lookup(dir, emails[i]) == Some(r.value[i])
    ensures r.Failure? ==> exists k :: 0 <= k < |emails| && r.error == emails[k]
                             && Lookup(dir, emails[k]).None?
                             && forall i :: 0 <= i < k ==> Lookup(dir, emails[i]).Some?
    decreases |emails|
  {
    if emails == [] then Success([])
    else
      var front := emails[..|emails| - 1];
      var last := emails[|emails| - 1];
      assert forall i :: 0 <= i < |front| ==> front[i] == emails[i];
      var prior := ResolveEmails(dir, front);
      var found := Lookup(dir, last);
      if prior.Failure? then prior
      else if found.None? then
        assert Lookup(dir, emails[|emails| - 1]).None?;
        Failure(last)
      else
        LookupsExtend(dir, emails, prior.value, found.value);
        Success(prior.value + [found.value])
  }

  /** The users found for all emails but the last, and the user found for the last, are the users found for all of them. */
  lemma LookupsExtend(dir: seq<User>, emails: seq<string>, users: seq<User>, u: User)
    requires emails != [] && |users| == |emails| - 1
    requires forall i :: 0 <= i < |emails| - 1 ==> Lookup(dir, emails[..|emails| - 1][i]) == Some(users[i])
    requires Lookup(dir, emails[|emails| - 1]) == Some(u)
    ensures forall i :: 0 <= i < |emails| ==> Lookup(dir, emails[i]) == Some((users + [u])[i])
  {
    forall i | 0 <= i < |emails| ensures Lookup(dir, emails[i]) == Some((users + [u])[i]) {
      if i < |emails| - 1 {
        assert emails[..|emails| - 1][i] == emails[i] && (users + [u])[i] == users[i];
      } else {
        assert (users + [u])[i] == u;
      }
    }
  }

  /** A Failure of the email loop on a prefix is the Failure of the whole loop. */
  lemma {:induction false} EmailFailureSticks(dir: seq<User>, emails: seq<string>, n: nat)
    requires n <= |emails| && ResolveEmails(dir, emails[..n]).Failure?
    ensures ResolveEmails(dir, emails) == ResolveEmails(dir, emails[..n])
    decreases |emails| - n
  {
    if n < |emails| {
      var front := emails[..|emails| - 1];
      assert front[..n] == emails[..n];
      EmailFailureSticks(dir, front, n);
    } else {
      assert emails[..n] == emails;
    }
  }

  /** One more turn of the email loop, from a prefix that found everybody. */
  lemma EmailStep(dir: seq<User>, emails: seq<string>, i: nat, matched: seq<User>)
    requires i < |emails| && ResolveEmails(dir, emails[..i]) == Success(matched)
    ensures Lookup(dir, emails[i]).None? ==> ResolveEmails(dir, emails[..i + 1]) == Failure(emails[i])
    ensures Lookup(dir, emails[i]).Some? ==>
              ResolveEmails(dir, emails[..i + 1]) == Success(matched + [Lookup(dir, emails[i]).value])
  {
    assert emails[..i + 1][..i] == emails[..i];
  }

  /** `matchedUsers.find(u => u.name.toLowerCase() === name.toLowerCase())` finds a user. */
  predicate Covered(matched: seq<User>, name: string) {
    exists u :: u in matched && SameName(u.name, name)
  }

  /** The state of the name loop: still going, or stopped at a name nobody has. */
  datatype NameScan = Scanning(matched: seq<User>, groups: seq<Group>) | Missing(name: string)

  /**
   * One turn of the name loop: it stops only at a name nobody has, and
   * otherwise either records one more group or appends at most one user,
   * never both.
   */
  function ScanStep(dir: seq<User>, matched: seq<User>, groups: seq<Group>, name: string): (r: NameScan)
    ensures r.Missing? ==> r.name == name && Matches(dir, name) == []
    ensures r.Scanning? ==> || (r.matched == matched && groups <= r.groups && |r.groups| <= |groups| + 1)
                            || (r.groups == groups && matched <= r.matched && |r.matched| == |matched| + 1)
  {
    if Covered(matched, name) then Scanning(matched, groups)
    else
      var users := Matches(dir, name);
      if |users| == 0 then Missing(name)
      else if |users| > 1 then Scanning(matched, groups + [Group(name, users)])
      else Scanning(matched + [users[0]], groups)
  }

  /** The name loop over `names`, starting from the users the emails found. */
  function ScanNames(dir: seq<User>, emailUsers: seq<User>, names: seq<string>): (r: NameScan)
    ensures r.Scanning? ==> |emailUsers| <= |r.matched| && r.matched[..|emailUsers|] == emailUsers
    decreases |names|
  {
    if names == [] then Scanning(emailUsers, [])
    else
      match ScanNames(dir, emailUsers, names[..|names| - 1])
      case Missing(n) => Missing(n)
      case Scanning(m, g) => ScanStep(dir, m, g, names[|names| - 1])
  }

  /** A name loop that stopped on a prefix stops the whole loop at the same name. */
  lemma {:induction false} MissingSticks(dir: seq<User>, emailUsers: seq<User>, names: seq<string>, n: nat)
    requires n <= |names| && ScanNames(dir, emailUsers, names[..n]).Missing?
    ensures ScanNames(dir, emailUsers, names) == ScanNames(dir, emailUsers, names[..n])
    decreases |names| - n
  {
    if n < |names| {
      var front := names[..|names| - 1];
      assert front[..n] == names[..n];
      MissingSticks(dir, emailUsers, front, n);
    } else {
      assert names[..n] == names;
    }
  }

  /** `matchedUsers.map(u => u._id)`: one id per user, in order. */
  function Ids(users: seq<User>): (r: seq<nat>)
    ensures |r| == |users| && forall i :: 0 <= i < |r| ==> r[i] == users[i].id
  {
    seq(|users|, i requires 0 <= i < |users| => users[i].id)
  }

  /** `matchedUsers.map(user => ({ name: user.name, email: user.email }))`. */
  function Contacts(users: seq<User>): (r: seq<Contact>)
    ensures |r| == |users| && forall i :: 0 <= i < |r| ==> r[i] == Contact(users[i].name, users[i].email)
  {
    seq(|users|, i requires 0 <= i < |users| => Contact(users[i].name, users[i].email))
  }

  /**
   * Everything after `JSON.parse`, for the parsed record `ex` and the
   * request's `email`. A 500 here means no `assignTo` array and an email
   * 404 means some email finds nobody; a 300 carries at least one group;
   * a created task has the extracted, non-empty title, the defaulted
   * dates and at least one assignee, with one id per contact.
   */
  function Assemble(ex: Extraction, email: EmailField, dir: seq<User>): (r: Response)
    ensures r.ServerError? <==> ex.assignTo.None?
    ensures r.EmailNotFound? <==> ex.assignTo.Some? && ResolveEmails(dir, EmailList(email)).Failure?
    ensures r.Ambiguous? ==> r.groups != []
    ensures r.Created? ==> && r.task.taskName == ex.title && ex.title != ""
                           && (r.task.startDate, r.task.endDate) == DefaultDates(ex.startdate, ex.enddate)
                           && |r.assignees| == |r.task.assignTo| > 0
  {
    if ex.assignTo.None? then ServerError
    else
      var names := SplitNames(ex.assignTo.value);
      var dates := DefaultDates(ex.startdate, ex.enddate);
      match ResolveEmails(dir, EmailList(email))
      case Failure(e) => EmailNotFound(e)
      case Success(emailUsers) =>
        match ScanNames(dir, emailUsers, names)
        case Missing(n) => NameNotFound(n)
        case Scanning(matched, groups) =>
          if |groups| > 0 then Ambiguous(groups)
          else if ex.title == "" || |matched| == 0 then ValidationError
          else Created(Task(ex.title, Ids(matched), dates.0, dates.1), Contacts(matched))
  }

  /**
   * The whole controller: `complete` is the language model, turning the
   * utterance into reply text, and `parse` is `JSON.parse` followed by
   * reading the four fields (None when it throws).
   */
  function Respond(req: Request, complete: string -> string, parse: string -> Option<Extraction>, dir: seq<User>): (r: Response)
    ensures var parsed := parse(CleanReply(complete(req.text)));
            r.ServerError? <==> parsed.None? || parsed.value.assignTo.None?
    ensures r.Created? ==> r.task.taskName != "" && r.assignees != []
  {
    match parse(CleanReply(complete(req.text)))
    case None => ServerError
    case Some(ex) => Assemble(ex, req.email, dir)
  }

  /** `res.status(...).json(...)` for each outcome. */
  function Encode(r: Response): (rep: Reply)
    ensures rep.status in {201, 300, 400, 404, 500}
    ensures rep.status == 404 <==> r.EmailNotFound? || r.NameNotFound?
    ensures rep.status == 300 <==> r.Ambiguous?
    ensures rep.status == 400 <==> r.ValidationError?
    ensures rep.status == 201 <==> r.Created?
    ensures rep.status == 500 <==> r.ServerError?
    ensures r.EmailNotFound? ==> rep.body.error == Some("User with email '" + r.email + "' not found.")
    ensures r.NameNotFound? ==> rep.body.error == Some("User '" + r.name + "' not found.")
    ensures rep.body.ambiguous.Some? <==> rep.status == 300
    ensures r.Ambiguous? ==> rep.body.ambiguous == Some(r.groups)
    ensures rep.body.taskName.Some? <==> rep.status == 201
    ensures r.Created? ==> rep.body.taskName == Some(r.task.taskName) && rep.body.assignTo == Some(r.assignees)
                           && rep.body.startDate == Some(r.task.startDate) && rep.body.endDate == Some(r.task.endDate)
  {
    var none := Body(None, None, None, None, None, None, None);
    match r
    case EmailNotFound(e) => Reply(404, none.(error := Some("User with email '" + e + "' not found.")))
    case NameNotFound(n) => Reply(404, none.(error := Some("User '" + n + "' not found.")))
    case Ambiguous(g) =>
      Reply(300, none.(message := Some("Multiple users found for some names. Please clarify."), ambiguous := Some(g)))
    case ValidationError =>
      Reply(400, none.(error := Some("Validation Error"),
                       message := Some("Both \"title\" and at least one assigned user are required.")))
    case Created(task, assignees) =>
      Reply(201, none.(taskName := Some(task.taskName), startDate := Some(task.startDate),
                       endDate := Some(task.endDate), assignTo := Some(assignees)))
    case ServerError => Reply(500, none.(error := Some("Failed to parse and save task.")))
  }

  /** The email loop as the source runs it, pushing each user it finds and stopping at the first miss. */
  method FindEmailUsers(dir: seq<User>, emails: seq<string>) returns (r: Result<seq<User>, string>)
    ensures r == ResolveEmails(dir, emails)
  {
    var matched: seq<User> := [];
    var i := 0;
    while i < |emails|
      invariant 0 <= i <= |emails|
      invariant ResolveEmails(dir, emails[..i]) == Success(matched)
    {
      var user := Lookup(dir, emails[i]);
      EmailStep(dir, emails, i, matched);
      if user.None? {
        EmailFailureSticks(dir, emails, i + 1);
        return Failure(emails[i]);
      }
      matched := matched + [user.value];
      i := i + 1;
    }
    assert emails[..i] == emails;
    r := Success(matched);
  }

  /**
   * The name loop as the source runs it: skip a name some matched user
   * already has, stop at a name nobody has, collect a group for a name
   * several users have, and push the one user otherwise.
   */
  method MatchNames(dir: seq<User>, emailUsers: seq<User>, names: seq<string>) returns (r: NameScan)
    ensures r == ScanNames(dir, emailUsers, names)
  {
    var matched := emailUsers;
    var ambiguous: seq<Group> := [];
    var j := 0;
    while j < |names|
      invariant 0 <= j <= |names|
      invariant ScanNames(dir, emailUsers, names[..j]) == Scanning(matched, ambiguous)
    {
      var name := names[j];
      assert names[..j + 1][..j] == names[..j];
      if Covered(matched, name) {
        j := j + 1;
        continue;
      }
      var users := Matches(dir, name);
      if |users| == 0 {
        MissingSticks(dir, emailUsers, names, j + 1);
        return Missing(name);
      }
      if |users| > 1 {
        ambiguous := ambiguous + [Group(name, users)];
      } else {
        matched := matched + [users[0]];
      }
      j := j + 1;
    }
    assert names[..j] == names;
    r := Scanning(matched, ambiguous);
  }

  /** The controller as the source runs it, step by step with its early returns. */
  method ParseText(req: Request, complete: string -> string, parse: string -> Option<Extraction>, dir: seq<User>)
    returns (r: Response)
    ensures r == Respond(req, complete, parse, dir)
  {
    var cleaned := CleanReply(complete(req.text));
    var parsed := parse(cleaned);
    if parsed.None? {
      return ServerError;
    }
    var ex := parsed.value;
    if ex.assignTo.None? {
      return ServerError;
    }
    var names := SplitNames(ex.assignTo.value);
    var dates := DefaultDates(ex.startdate, ex.enddate);

    var byEmail := FindEmailUsers(dir, EmailList(req.email));
    if byEmail.Failure? {
      return EmailNotFound(byEmail.error);
    }
    var scan := MatchNames(dir, byEmail.value, names);
    if scan.Missing? {
      return NameNotFound(scan.name);
    }
    if |scan.groups| > 0 {
      return Ambiguous(scan.groups);
    }
    if ex.title == "" || |scan.matched| == 0 {
      return ValidationError;
    }
    r := Created(Task(ex.title, Ids(scan.matched), dates.0, dates.1), Contacts(scan.matched));
  }
}
