/**
 * What the voice controller promises, proved about its specification
 * functions: how the reply is cleaned and the names re-split, which
 * email or name aborts a request, which names come back as ambiguous,
 * what a created task holds, and that answering every ambiguity with
 * one of its candidates' emails leads to a created task.
 */
module ResolutionProofs {
  import opened Wrappers
  import opened JsString
  import opened Directory
  import opened VoiceController

  // ---------------------------------------------------------------- cleaning

  /** A pattern that starts with a backtick occurs nowhere in a text without backticks. */
  lemma NoFenceWithoutBacktick(s: string, pat: string)
    requires '`' !in s && |pat| > 0 && pat[0] == '`'
    ensures IndexOfFrom(s, pat, 0) == None
  {
  }

  /** A reply without backticks is only trimmed. */
  lemma CleanReplyPlain(reply: string)
    requires '`' !in reply
    ensures CleanReply(reply) == Trim(reply)
  {
    NoFenceWithoutBacktick(reply, "```json");
    NoFenceWithoutBacktick(reply, "```");
  }

  /** The first "```" in `a + "```" + rest` is the one after `a`, when `a` has no backtick. */
  lemma FenceAfter(a: string, rest: string)
    requires '`' !in a
    ensures IndexOfFrom(a + "```" + rest, "```", 0) == Some(|a|)
  {
    var fence := "```";
    var s := a + fence + rest;
    assert s[|a|..|a| + 3] == fence;
    assert OccursAt(s, fence, |a|);
    forall j | 0 <= j < |a| ensures !OccursAt(s, fence, j) {
      assert s[j] == a[j];
    }
  }

  /** Removing the first "```" when it follows a backtick-free prefix. */
  lemma DropFenceAfter(a: string, rest: string)
    requires '`' !in a
    ensures ReplaceFirst(a + "```" + rest, "```", "") == a + rest
  {
    var s := a + "```" + rest;
    FenceAfter(a, rest);
    assert s[..|a|] == a && s[|a| + 3..] == rest;
  }

  /** Removing the fence "```json" at the very start of a reply. */
  lemma DropOpeningFence(rest: string)
    ensures ReplaceFirst("```json" + rest, "```json", "") == rest
  {
    var s := "```json" + rest;
    assert OccursAt(s, "```json", 0);
    assert s[7..] == rest;
  }

  /** A reply wrapped in one "```json" fence loses the fence and the surrounding whitespace. */
  lemma CleanReplyUnwrapsFence(body: string)
    requires '`' !in body
    ensures CleanReply("```json" + body + "```") == Trim(body)
  {
    var s1 := body + "```" + "";
    assert "```json" + body + "```" == "```json" + s1;
    DropOpeningFence(s1);
    DropFenceAfter(body, "");
    assert body + "" == body;
  }

  /** Only the first closing fence goes: a second "```" stays in the cleaned text. */
  lemma CleanReplyKeepsLaterFences(a: string, b: string)
    requires '`' !in a && '`' !in b
    ensures CleanReply("```json" + a + "```" + b + "```") == Trim(a + b + "```")
  {
    var s1 := a + "```" + (b + "```");
    assert "```json" + a + "```" + b + "```" == "```json" + s1;
    DropOpeningFence(s1);
    DropFenceAfter(a, b + "```");
    assert a + (b + "```") == a + b + "```";
  }

  // ------------------------------------------------------------- name tokens

  /** Dropping the empty pieces loses no character. */
  lemma {:induction false} ConcatWithoutEmpty(pieces: seq<string>)
    ensures Concat(Without(pieces, "")) == Concat(pieces)
  {
    if pieces != [] {
      ConcatWithoutEmpty(pieces[1..]);
      var head := if pieces[0] == "" then [] else [pieces[0]];
      ConcatAppend(head, Without(pieces[1..], ""));
    }
  }

  /** Re-splitting loses nothing but spaces: the tokens spell out the entries, in order, without their spaces. */
  lemma {:induction false} SplitNamesKeepsLetters(entries: seq<string>)
    ensures Concat(SplitNames(entries)) == RemoveSpaces(Concat(entries))
  {
    if entries != [] {
      var pieces := SplitOnSpace(entries[0]);
      SplitNamesKeepsLetters(entries[1..]);
      ConcatAppend(Without(pieces, ""), SplitNames(entries[1..]));
      ConcatWithoutEmpty(pieces);
      SplitKeepsLetters(entries[0]);
      RemoveSpacesAppend(entries[0], Concat(entries[1..]));
    }
  }

  /** Re-splitting is the in-order concatenation of each entry's tokens. */
  lemma {:induction false} SplitNamesAppend(a: seq<string>, b: seq<string>)
    ensures SplitNames(a + b) == SplitNames(a) + SplitNames(b)
  {
    if a == [] {
      assert a + b == b;
    } else {
      assert (a + b)[1..] == a[1..] + b;
      SplitNamesAppend(a[1..], b);
    }
  }

  /** Entries that are already single, non-empty words pass through unchanged. */
  lemma {:induction false} SplitNamesKeepsWords(entries: seq<string>)
    requires forall k :: 0 <= k < |entries| ==> entries[k] != "" && ' ' !in entries[k]
    ensures SplitNames(entries) == entries
  {
    if entries != [] {
      assert SplitOnSpace(entries[0]) == [entries[0]];
      assert Without([entries[0]], "") == [entries[0]] by {
        assert [entries[0]][1..] == [];
      }
      SplitNamesKeepsWords(entries[1..]);
      assert entries == [entries[0]] + entries[1..];
    }
  }

  /** Re-splitting twice is re-splitting once. */
  lemma SplitNamesIdempotent(entries: seq<string>)
    ensures SplitNames(SplitNames(entries)) == SplitNames(entries)
  {
    SplitNamesKeepsWords(SplitNames(entries));
  }

  // --------------------------------------------------------- name resolution

  /**
   * The groups the name loop reports, described without the loop: one per
   * token, in token order, that several users share and that no
   * email-supplied user already carries.
   */
  function AmbiguousGroups(dir: seq<User>, emailUsers: seq<User>, names: seq<string>): (r: seq<Group>)
    ensures forall i :: 0 <= i < |r| ==> r[i].name in names && r[i].options == Matches(dir, r[i].name)
    ensures forall i :: 0 <= i < |r| ==> |r[i].options| > 1 && !Covered(emailUsers, r[i].name)
    decreases |names|
  {
    if names == [] then []
    else
      var t := names[|names| - 1];
      var front := names[..|names| - 1];
      assert forall x :: x in front ==> x in names;
      AmbiguousGroups(dir, emailUsers, front)
        + (if |Matches(dir, t)| > 1 && !Covered(emailUsers, t) then [Group(t, Matches(dir, t))] else [])
  }

  /** No group is reported exactly when every token several users share is carried by an email-supplied user. */
  lemma {:induction false} NoAmbiguousGroups(dir: seq<User>, emailUsers: seq<User>, names: seq<string>)
    ensures AmbiguousGroups(dir, emailUsers, names) == []
            <==> forall k :: 0 <= k < |names| && |Matches(dir, names[k])| > 1 ==> Covered(emailUsers, names[k])
  {
    var g := AmbiguousGroups(dir, emailUsers, names);
    if g == [] {
      forall k | 0 <= k < |names| && |Matches(dir, names[k])| > 1 ensures Covered(emailUsers, names[k]) {
        if !Covered(emailUsers, names[k]) {
          AmbiguousGroupsComplete(dir, emailUsers, names, k);
        }
      }
    } else {
      var k :| 0 <= k < |names| && names[k] == g[0].name;
      assert |Matches(dir, names[k])| > 1 && !Covered(emailUsers, names[k]);
    }
  }

  /** Some token names `name`, ignoring case. */
  ghost predicate NamedBy(names: seq<string>, name: string) {
    exists k :: 0 <= k < |names| && SameName(name, names[k])
  }

  /**
   * The matched list after the name loop: the email-supplied users first;
   * after them only users that are the one user with their name, carry the
   * name of some token and share their name with no user before them; and
   * every token that names exactly one user has that user in the list.
   */
  ghost predicate NameResolved(dir: seq<User>, emailUsers: seq<User>, names: seq<string>, matched: seq<User>) {
    && |emailUsers| <= |matched| && matched[..|emailUsers|] == emailUsers
    && (forall i :: 0 <= i < |matched| ==> matched[i] in dir)
    && (forall i :: |emailUsers| <= i < |matched| ==> Matches(dir, matched[i].name) == [matched[i]])
    && (forall i :: |emailUsers| <= i < |matched| ==> NamedBy(names, matched[i].name))
    && (forall i, j :: 0 <= i < j < |matched| && |emailUsers| <= j ==> !SameName(matched[i].name, matched[j].name))
    && (forall k :: 0 <= k < |names| && |Matches(dir, names[k])| == 1 ==> Matches(dir, names[k])[0] in matched)
  }

  /**
   * A resolved list stays resolved for one more token when the token's
   * one user, if it has exactly one, is already in the list.
   */
  lemma ResolvedForOneMore(dir: seq<User>, emailUsers: seq<User>, names: seq<string>, m: seq<User>)
    requires |names| > 0
    requires NameResolved(dir, emailUsers, names[..|names| - 1], m)
    requires |Matches(dir, names[|names| - 1])| == 1 ==> Matches(dir, names[|names| - 1])[0] in m
    ensures NameResolved(dir, emailUsers, names, m)
  {
    var front := names[..|names| - 1];
    SoleMatchesForOneMore(dir, front, names, m);
    forall i | |emailUsers| <= i < |m|
      ensures NamedBy(names, m[i].name)
    {
      var k := NamingToken(dir, emailUsers, front, m, i);
      assert names[k] == front[k];
    }
  }

  /** A token naming a user after the email users of a resolved list. */
  lemma NamingToken(dir: seq<User>, emailUsers: seq<User>, names: seq<string>, m: seq<User>, i: int) returns (k: nat)
    requires NameResolved(dir, emailUsers, names, m)
    requires |emailUsers| <= i < |m|
    ensures k < |names| && SameName(m[i].name, names[k])
  {
    assert NamedBy(names, m[i].name);
    k :| 0 <= k < |names| && SameName(m[i].name, names[k]);
  }

  /** The sole matches of a prefix's tokens and of the one token after it are all in the list. */
  lemma SoleMatchesForOneMore(dir: seq<User>, front: seq<string>, names: seq<string>, m: seq<User>)
    requires |names| == |front| + 1 && forall k :: 0 <= k < |front| ==> front[k] == names[k]
    requires forall k :: 0 <= k < |front| && |Matches(dir, front[k])| == 1 ==> Matches(dir, front[k])[0] in m
    requires |Matches(dir, names[|front|])| == 1 ==> Matches(dir, names[|front|])[0] in m
    ensures forall k :: 0 <= k < |names| && |Matches(dir, names[k])| == 1 ==> Matches(dir, names[k])[0] in m
  {
    forall k | 0 <= k < |names| && |Matches(dir, names[k])| == 1
      ensures Matches(dir, names[k])[0] in m
    {
      if k < |front| {
        assert names[k] == front[k];
      }
    }
  }

  /** A token some matched user already carries leaves the matched list resolved. */
  lemma SkipKeepsResolved(dir: seq<User>, emailUsers: seq<User>, names: seq<string>, m: seq<User>)
    requires |names| > 0
    requires NameResolved(dir, emailUsers, names[..|names| - 1], m)
    requires Covered(m, names[|names| - 1])
    ensures NameResolved(dir, emailUsers, names, m)
  {
    var t := names[|names| - 1];
    var u :| u in m && SameName(u.name, t);
    var i :| 0 <= i < |m| && m[i] == u;
    assert u in dir;
    var ms := Matches(dir, t);
    assert u in ms;
    var j :| 0 <= j < |ms| && ms[j] == u;
    assert |ms| == 1 ==> j == 0;
    ResolvedForOneMore(dir, emailUsers, names, m);
  }

  /** A token some matched user already carries is shared by several users only if an email user carries it. */
  lemma SkippedAmbiguousIsEmailed(dir: seq<User>, emailUsers: seq<User>, names: seq<string>, m: seq<User>)
    requires |names| > 0
    requires NameResolved(dir, emailUsers, names[..|names| - 1], m)
    requires Covered(m, names[|names| - 1])
    ensures |Matches(dir, names[|names| - 1])| > 1 ==> Covered(emailUsers, names[|names| - 1])
  {
    var t := names[|names| - 1];
    var u :| u in m && SameName(u.name, t);
    var i :| 0 <= i < |m| && m[i] == u;
    if i >= |emailUsers| {
      MatchesIgnoreCase(dir, u.name, t);
    } else {
      assert u == emailUsers[i];
    }
  }

  /** A token several users share and nobody matched yet leaves the matched list as it is. */
  lemma AmbiguousKeepsResolved(dir: seq<User>, emailUsers: seq<User>, names: seq<string>, m: seq<User>)
    requires |names| > 0
    requires NameResolved(dir, emailUsers, names[..|names| - 1], m)
    requires !Covered(m, names[|names| - 1]) && |Matches(dir, names[|names| - 1])| > 1
    ensures NameResolved(dir, emailUsers, names, m)
    ensures !Covered(emailUsers, names[|names| - 1])
  {
    ResolvedForOneMore(dir, emailUsers, names, m);
    var t := names[|names| - 1];
    forall u | u in emailUsers ensures !SameName(u.name, t) {
      var i :| 0 <= i < |emailUsers| && emailUsers[i] == u;
      assert m[i] == u;
    }
  }

  /** A token exactly one user has, and nobody matched yet, appends that user. */
  lemma AddKeepsResolved(dir: seq<User>, emailUsers: seq<User>, names: seq<string>, m: seq<User>)
    requires |names| > 0
    requires NameResolved(dir, emailUsers, names[..|names| - 1], m)
    requires !Covered(m, names[|names| - 1]) && |Matches(dir, names[|names| - 1])| == 1
    ensures NameResolved(dir, emailUsers, names, m + [Matches(dir, names[|names| - 1])[0]])
  {
    var front := names[..|names| - 1];
    var t := names[|names| - 1];
    var v := Matches(dir, t)[0];
    assert v in Matches(dir, t);
    MatchesIgnoreCase(dir, v.name, t);
    assert Matches(dir, v.name) == [v];
    var m' := m + [v];
    assert m'[..|emailUsers|] == emailUsers;
    forall i | 0 <= i < |m'| ensures m'[i] in dir {
      if i < |m| { assert m'[i] == m[i]; }
    }
    forall i | |emailUsers| <= i < |m'| ensures Matches(dir, m'[i].name) == [m'[i]] {
      if i < |m| { assert m'[i] == m[i]; }
    }
    forall i | |emailUsers| <= i < |m'| ensures NamedBy(names, m'[i].name) {
      if i < |m| {
        assert m'[i] == m[i];
        var k := NamingToken(dir, emailUsers, front, m, i);
        assert front[k] == names[k];
      } else {
        assert m'[i] == v && names[|names| - 1] == t;
        assert SameName(v.name, t);
      }
    }
    forall i, j | 0 <= i < j < |m'| && |emailUsers| <= j ensures !SameName(m'[i].name, m'[j].name) {
      assert m'[i] == m[i];
      if j < |m| {
        assert m'[j] == m[j];
      } else {
        assert m[i] in m;
        assert !SameName(m[i].name, t);
        assert SameName(v.name, t);
      }
    }
    SoleMatchesAfterAdd(dir, front, t, m, v);
    assert front + [t] == names;
  }

  /** Appending the one user of a new token keeps every sole match of the tokens, old and new, in the list. */
  lemma SoleMatchesAfterAdd(dir: seq<User>, front: seq<string>, t: string, m: seq<User>, v: User)
    requires forall k :: 0 <= k < |front| && |Matches(dir, front[k])| == 1 ==> Matches(dir, front[k])[0] in m
    requires Matches(dir, t) == [v]
    ensures forall k :: 0 <= k < |front + [t]| && |Matches(dir, (front + [t])[k])| == 1 ==>
                          Matches(dir, (front + [t])[k])[0] in m + [v]
  {
    var names := front + [t];
    forall k | 0 <= k < |names| && |Matches(dir, names[k])| == 1 ensures Matches(dir, names[k])[0] in m + [v] {
      if k < |front| {
        assert names[k] == front[k];
      } else {
        assert names[k] == t;
      }
    }
  }

  /** One turn of the name loop keeps the matched list resolved and the groups those of `AmbiguousGroups`. */
  lemma StepKeepsResolved(dir: seq<User>, emailUsers: seq<User>, names: seq<string>, m: seq<User>, g: seq<Group>)
    requires |names| > 0
    requires NameResolved(dir, emailUsers, names[..|names| - 1], m)
    requires g == AmbiguousGroups(dir, emailUsers, names[..|names| - 1])
    requires ScanStep(dir, m, g, names[|names| - 1]).Scanning?
    ensures NameResolved(dir, emailUsers, names, ScanStep(dir, m, g, names[|names| - 1]).matched)
    ensures ScanStep(dir, m, g, names[|names| - 1]).groups == AmbiguousGroups(dir, emailUsers, names)
  {
    var t := names[|names| - 1];
    if Covered(m, t) {
      SkipKeepsResolved(dir, emailUsers, names, m);
      SkippedAmbiguousIsEmailed(dir, emailUsers, names, m);
    } else if |Matches(dir, t)| > 1 {
      AmbiguousKeepsResolved(dir, emailUsers, names, m);
    } else {
      AddKeepsResolved(dir, emailUsers, names, m);
    }
  }

  /** Whenever the name loop runs to the end, its matched list is resolved and its groups are `AmbiguousGroups`. */
  lemma {:induction false} ScanResolves(dir: seq<User>, emailUsers: seq<User>, names: seq<string>)
    requires forall u :: u in emailUsers ==> u in dir
    requires ScanNames(dir, emailUsers, names).Scanning?
    ensures NameResolved(dir, emailUsers, names, ScanNames(dir, emailUsers, names).matched)
    ensures ScanNames(dir, emailUsers, names).groups == AmbiguousGroups(dir, emailUsers, names)
    decreases |names|
  {
    if names == [] {
      assert emailUsers[..|emailUsers|] == emailUsers;
    } else {
      var front := names[..|names| - 1];
      ScanResolves(dir, emailUsers, front);
      var prev := ScanNames(dir, emailUsers, front);
      StepKeepsResolved(dir, emailUsers, names, prev.matched, prev.groups);
    }
  }

  /** The position of the first token that names `name`, or `|names|` when none does. */
  function FirstNaming(names: seq<string>, name: string): (r: nat)
    ensures r <= |names|
    ensures forall k :: 0 <= k < r ==> !SameName(name, names[k])
    ensures r < |names| ==> SameName(name, names[r])
  {
    if names == [] then 0
    else if SameName(name, names[0]) then 0
    else
      var r := FirstNaming(names[1..], name);
      assert forall k :: 1 <= k < r + 1 ==> names[k] == names[1..][k - 1];
      r + 1
  }

  /** A name some token of a prefix names is first named where the prefix first names it. */
  lemma FirstNamingInPrefix(front: seq<string>, t: string, name: string, k: nat)
    requires k < |front| && SameName(name, front[k])
    ensures FirstNaming(front + [t], name) == FirstNaming(front, name) < |front|
  {
    var names := front + [t];
    var r := FirstNaming(front, name);
    var r' := FirstNaming(names, name);
    assert r < |front| && names[r] == front[r];
  }

  /**
   * The users after the email users come in the order of the tokens that
   * first name them: a user matched by an earlier token precedes one
   * matched only by a later token.
   */
  ghost predicate InTokenOrder(emailUsers: seq<User>, names: seq<string>, matched: seq<User>) {
    forall i, j :: |emailUsers| <= i < j < |matched| ==>
      FirstNaming(names, matched[i].name) < FirstNaming(names, matched[j].name)
  }

  /** A token that leaves the matched list as it was keeps it in token order. */
  lemma OrderKeptOnSkip(dir: seq<User>, emailUsers: seq<User>, names: seq<string>, m: seq<User>)
    requires |names| > 0
    requires NameResolved(dir, emailUsers, names[..|names| - 1], m)
    requires InTokenOrder(emailUsers, names[..|names| - 1], m)
    ensures InTokenOrder(emailUsers, names, m)
  {
    var front := names[..|names| - 1];
    var t := names[|names| - 1];
    assert names == front + [t];
    forall i | |emailUsers| <= i < |m|
      ensures FirstNaming(names, m[i].name) == FirstNaming(front, m[i].name) < |front|
    {
      var k := NamingToken(dir, emailUsers, front, m, i);
      FirstNamingInPrefix(front, t, m[i].name, k);
    }
  }

  /** The one user of a token nobody matched yet is named by no earlier token, so appending it keeps token order. */
  lemma OrderKeptOnAdd(dir: seq<User>, emailUsers: seq<User>, names: seq<string>, m: seq<User>)
    requires |names| > 0
    requires NameResolved(dir, emailUsers, names[..|names| - 1], m)
    requires InTokenOrder(emailUsers, names[..|names| - 1], m)
    requires !Covered(m, names[|names| - 1]) && |Matches(dir, names[|names| - 1])| == 1
    ensures InTokenOrder(emailUsers, names, m + [Matches(dir, names[|names| - 1])[0]])
  {
    var front := names[..|names| - 1];
    var t := names[|names| - 1];
    var v := Matches(dir, t)[0];
    assert v in Matches(dir, t);
    OrderKeptOnSkip(dir, emailUsers, names, m);
    MatchesIgnoreCase(dir, v.name, t);
    // a front token naming `v` would have `v` as its sole match, so `v` would be matched and `t` covered
    forall k | 0 <= k < |front| ensures !SameName(v.name, front[k]) {
      if SameName(v.name, front[k]) {
        MatchesIgnoreCase(dir, v.name, front[k]);
      }
    }
    assert names == front + [t];
    assert names[|front|] == t;
    assert FirstNaming(names, v.name) == |front|;
    var m' := m + [v];
    forall i, j | |emailUsers| <= i < j < |m'|
      ensures FirstNaming(names, m'[i].name) < FirstNaming(names, m'[j].name)
    {
      assert m'[i] == m[i];
      if j < |m| { assert m'[j] == m[j]; }
    }
  }

  /** Whenever the name loop runs to the end, the users it added come in the order of the tokens. */
  lemma {:induction false} ScanInTokenOrder(dir: seq<User>, emailUsers: seq<User>, names: seq<string>)
    requires forall u :: u in emailUsers ==> u in dir
    requires ScanNames(dir, emailUsers, names).Scanning?
    ensures InTokenOrder(emailUsers, names, ScanNames(dir, emailUsers, names).matched)
    decreases |names|
  {
    if names != [] {
      var front := names[..|names| - 1];
      var t := names[|names| - 1];
      ScanInTokenOrder(dir, emailUsers, front);
      ScanResolves(dir, emailUsers, front);
      var m := ScanNames(dir, emailUsers, front).matched;
      if Covered(m, t) || |Matches(dir, t)| > 1 {
        OrderKeptOnSkip(dir, emailUsers, names, m);
      } else {
        OrderKeptOnAdd(dir, emailUsers, names, m);
      }
    }
  }

  /** The tokens several users share that no email user carries each have a group, named by the token. */
  lemma {:induction false} AmbiguousGroupsComplete(dir: seq<User>, emailUsers: seq<User>, names: seq<string>, k: nat)
    requires k < |names| && |Matches(dir, names[k])| > 1 && !Covered(emailUsers, names[k])
    ensures exists i :: 0 <= i < |AmbiguousGroups(dir, emailUsers, names)|
                        && AmbiguousGroups(dir, emailUsers, names)[i].name == names[k]
    decreases |names|
  {
    var front := names[..|names| - 1];
    var g := AmbiguousGroups(dir, emailUsers, names);
    if k == |names| - 1 {
      assert g[|g| - 1].name == names[k];
    } else {
      assert front[k] == names[k];
      AmbiguousGroupsComplete(dir, emailUsers, front, k);
      var i :| 0 <= i < |AmbiguousGroups(dir, emailUsers, front)| && AmbiguousGroups(dir, emailUsers, front)[i].name == names[k];
      assert g[i] == AmbiguousGroups(dir, emailUsers, front)[i];
    }
  }

  /** Every user the name loop has matched is a directory user. */
  lemma ScanMatchedInDirectory(dir: seq<User>, emailUsers: seq<User>, names: seq<string>)
    requires forall u :: u in emailUsers ==> u in dir
    requires ScanNames(dir, emailUsers, names).Scanning?
    ensures forall u :: u in ScanNames(dir, emailUsers, names).matched ==> u in dir
  {
    ScanResolves(dir, emailUsers, names);
  }

  /** A token somebody has never stops the loop, since a matched user carrying it is one of its users. */
  lemma KnownTokenContinues(dir: seq<User>, m: seq<User>, g: seq<Group>, t: string)
    requires forall u :: u in m ==> u in dir
    requires Matches(dir, t) != []
    ensures ScanStep(dir, m, g, t).Scanning?
  {
  }

  /** A token nobody has stops the loop, since no matched user can carry it. */
  lemma UnknownTokenStops(dir: seq<User>, m: seq<User>, g: seq<Group>, t: string)
    requires forall u :: u in m ==> u in dir
    requires Matches(dir, t) == []
    ensures ScanStep(dir, m, g, t) == Missing(t)
  {
  }

  /**
   * The name loop stops exactly when some token names nobody, and then at
   * the first such token: an unknown name is never skipped, whatever was
   * matched before it.
   */
  lemma {:induction false} ScanStopsAtFirstUnknown(dir: seq<User>, emailUsers: seq<User>, names: seq<string>)
    requires forall u :: u in emailUsers ==> u in dir
    ensures ScanNames(dir, emailUsers, names).Missing?
            <==> exists k :: 0 <= k < |names| && Matches(dir, names[k]) == []
    ensures ScanNames(dir, emailUsers, names).Missing? ==>
              exists k :: 0 <= k < |names| && ScanNames(dir, emailUsers, names).name == names[k]
                          && Matches(dir, names[k]) == []
                          && forall i :: 0 <= i < k ==> Matches(dir, names[i]) != []
    decreases |names|
  {
    if names != [] {
      ScanStopsAtFirstUnknown(dir, emailUsers, names[..|names| - 1]);
      StopsAtFirstUnknownStep(dir, emailUsers, names);
    }
  }

  /** The induction step of ScanStopsAtFirstUnknown: one more token after a prefix for which it holds. */
  lemma StopsAtFirstUnknownStep(dir: seq<User>, emailUsers: seq<User>, names: seq<string>)
    requires forall u :: u in emailUsers ==> u in dir
    requires names != []
    requires var front := names[..|names| - 1];
             && (ScanNames(dir, emailUsers, front).Missing?
                 <==> exists k :: 0 <= k < |front| && Matches(dir, front[k]) == [])
             && (ScanNames(dir, emailUsers, front).Missing? ==>
                   exists k :: 0 <= k < |front| && ScanNames(dir, emailUsers, front).name == front[k]
                               && Matches(dir, front[k]) == []
                               && forall i :: 0 <= i < k ==> Matches(dir, front[i]) != [])
    ensures ScanNames(dir, emailUsers, names).Missing?
            <==> exists k :: 0 <= k < |names| && Matches(dir, names[k]) == []
    ensures ScanNames(dir, emailUsers, names).Missing? ==>
              exists k :: 0 <= k < |names| && ScanNames(dir, emailUsers, names).name == names[k]
                          && Matches(dir, names[k]) == []
                          && forall i :: 0 <= i < k ==> Matches(dir, names[i]) != []
  {
    var front := names[..|names| - 1];
    var t := names[|names| - 1];
    assert forall k :: 0 <= k < |front| ==> front[k] == names[k];
    var prev := ScanNames(dir, emailUsers, front);
    if prev.Scanning? {
      ScanMatchedInDirectory(dir, emailUsers, front);
      if Matches(dir, t) == [] {
        UnknownTokenStops(dir, prev.matched, prev.groups, t);
      } else {
        KnownTokenContinues(dir, prev.matched, prev.groups, t);
      }
    }
  }

  /** With no unknown token and no group, every token is carried by some matched user. */
  lemma EveryTokenCovered(dir: seq<User>, emailUsers: seq<User>, names: seq<string>)
    requires forall u :: u in emailUsers ==> u in dir
    requires ScanNames(dir, emailUsers, names).Scanning?
    requires ScanNames(dir, emailUsers, names).groups == []
    requires forall k :: 0 <= k < |names| ==> Matches(dir, names[k]) != []
    ensures forall k :: 0 <= k < |names| ==> Covered(ScanNames(dir, emailUsers, names).matched, names[k])
  {
    var m := ScanNames(dir, emailUsers, names).matched;
    ScanResolves(dir, emailUsers, names);
    NoAmbiguousGroups(dir, emailUsers, names);
    forall k | 0 <= k < |names| ensures Covered(m, names[k]) {
      var ms := Matches(dir, names[k]);
      if |ms| == 1 {
        assert ms[0] in ms && ms[0] in m;
      } else {
        var u :| u in emailUsers && SameName(u.name, names[k]);
        var i :| 0 <= i < |emailUsers| && emailUsers[i] == u;
        assert m[i] == u;
      }
    }
  }

  // ---------------------------------------------------------- the controller

  /** The users the email loop finds are directory users whose email is the normalised address. */
  lemma EmailUsersInDirectory(dir: seq<User>, emails: seq<string>)
    requires ResolveEmails(dir, emails).Success?
    ensures forall i :: 0 <= i < |emails| ==> ResolveEmails(dir, emails).value[i] in dir
                                              && ResolveEmails(dir, emails).value[i].email == Normalize(emails[i])
    ensures forall u :: u in ResolveEmails(dir, emails).value ==> u in dir
  {
    var us := ResolveEmails(dir, emails).value;
    forall i | 0 <= i < |emails| ensures us[i] in dir && us[i].email == Normalize(emails[i]) {
      assert Lookup(dir, emails[i]) == Some(us[i]);
    }
  }

  /** Lower-casing neither makes nor unmakes whitespace. */
  lemma LowerKeepsSpaces(c: char)
    ensures IsJsSpace(LowerChar(c)) <==> IsJsSpace(c)
  {
  }

  /**
   * Normalising is idempotent, so an email with stray whitespace or
   * capitals finds the same user as its normalised form.
   */
  lemma NormalizeIdempotent(dir: seq<User>, email: string)
    ensures Normalize(Normalize(email)) == Normalize(email)
    ensures Lookup(dir, Normalize(email)) == Lookup(dir, email)
  {
    var t := Trim(email);
    TrimStartSpec(email);
    TrimEndSpec(TrimStart(email));
    var l := Lower(t);
    LowerIsLowercase(t);
    if l != [] {
      LowerKeepsSpaces(t[0]);
      LowerKeepsSpaces(t[|t| - 1]);
      assert t[0] == TrimStart(email)[0];
      assert TrimStart(l) == l;
      assert TrimEnd(l) == l;
    }
  }

  /** The first supplied email that finds nobody aborts the request with a 404 naming it, as written. */
  lemma UnknownEmailAborts(ex: Extraction, email: EmailField, dir: seq<User>)
    requires ex.assignTo.Some?
    ensures Assemble(ex, email, dir).EmailNotFound?
            <==> exists k :: 0 <= k < |EmailList(email)| && Lookup(dir, EmailList(email)[k]).None?
    ensures Assemble(ex, email, dir).EmailNotFound? ==>
              exists k :: 0 <= k < |EmailList(email)| && Assemble(ex, email, dir).email == EmailList(email)[k]
                          && Lookup(dir, EmailList(email)[k]).None?
                          && forall i :: 0 <= i < k ==> Lookup(dir, EmailList(email)[i]).Some?
  {
    var found := ResolveEmails(dir, EmailList(email));
    if found.Failure? {
      assert Assemble(ex, email, dir) == EmailNotFound(found.error);
    } else {
      assert !Assemble(ex, email, dir).EmailNotFound?;
    }
  }

  /**
   * Once the emails are found, the first token that names nobody aborts the
   * request with a 404 naming it, even after resolved or ambiguous tokens.
   */
  lemma UnknownNameAborts(ex: Extraction, email: EmailField, dir: seq<User>)
    requires ex.assignTo.Some? && ResolveEmails(dir, EmailList(email)).Success?
    ensures var names := SplitNames(ex.assignTo.value);
            Assemble(ex, email, dir).NameNotFound? <==> exists k :: 0 <= k < |names| && Matches(dir, names[k]) == []
    ensures var names := SplitNames(ex.assignTo.value);
            Assemble(ex, email, dir).NameNotFound? ==>
              exists k :: 0 <= k < |names| && Assemble(ex, email, dir).name == names[k]
                          && Matches(dir, names[k]) == []
                          && forall i :: 0 <= i < k ==> Matches(dir, names[i]) != []
  {
    EmailUsersInDirectory(dir, EmailList(email));
    ScanStopsAtFirstUnknown(dir, ResolveEmails(dir, EmailList(email)).value, SplitNames(ex.assignTo.value));
    NameStepDecides(ex, email, dir);
  }

  /** Once the emails are found, the 404 for a name is the name loop stopping, at the same name. */
  lemma NameStepDecides(ex: Extraction, email: EmailField, dir: seq<User>)
    requires ex.assignTo.Some? && ResolveEmails(dir, EmailList(email)).Success?
    ensures var scan := ScanNames(dir, ResolveEmails(dir, EmailList(email)).value, SplitNames(ex.assignTo.value));
            && (Assemble(ex, email, dir).NameNotFound? <==> scan.Missing?)
            && (scan.Missing? ==> Assemble(ex, email, dir) == NameNotFound(scan.name))
  {
  }

  /**
   * When every email and every token finds somebody, the answer is a 300
   * exactly when some token is shared by several users and carried by no
   * email user, and its groups are those tokens with all their users.
   */
  lemma AmbiguityReported(ex: Extraction, email: EmailField, dir: seq<User>)
    requires ex.assignTo.Some? && ResolveEmails(dir, EmailList(email)).Success?
    requires forall k :: 0 <= k < |SplitNames(ex.assignTo.value)| ==> Matches(dir, SplitNames(ex.assignTo.value)[k]) != []
    ensures var emailUsers := ResolveEmails(dir, EmailList(email)).value;
            var groups := AmbiguousGroups(dir, emailUsers, SplitNames(ex.assignTo.value));
            && (Assemble(ex, email, dir).Ambiguous? <==> groups != [])
            && (Assemble(ex, email, dir).Ambiguous? ==> Assemble(ex, email, dir).groups == groups)
  {
    var emailUsers := ResolveEmails(dir, EmailList(email)).value;
    var names := SplitNames(ex.assignTo.value);
    EmailUsersInDirectory(dir, EmailList(email));
    ScanStopsAtFirstUnknown(dir, emailUsers, names);
    ScanResolves(dir, emailUsers, names);
  }

  /**
   * With the emails and tokens all resolved and nothing ambiguous, the
   * answer is a 400 exactly when the title is empty or there was neither an
   * email nor a token; otherwise a task is created.
   */
  lemma ValidationOutcome(ex: Extraction, email: EmailField, dir: seq<User>)
    requires ex.assignTo.Some? && ResolveEmails(dir, EmailList(email)).Success?
    requires forall k :: 0 <= k < |SplitNames(ex.assignTo.value)| ==> Matches(dir, SplitNames(ex.assignTo.value)[k]) != []
    requires AmbiguousGroups(dir, ResolveEmails(dir, EmailList(email)).value, SplitNames(ex.assignTo.value)) == []
    ensures Assemble(ex, email, dir) == ValidationError
            <==> ex.title == "" || (EmailList(email) == [] && SplitNames(ex.assignTo.value) == [])
    ensures Assemble(ex, email, dir) != ValidationError ==> Assemble(ex, email, dir).Created?
  {
    var emailUsers := ResolveEmails(dir, EmailList(email)).value;
    EmailUsersInDirectory(dir, EmailList(email));
    ScanSettled(dir, emailUsers, SplitNames(ex.assignTo.value));
  }

  /** With every token known and none ambiguous, the loop ends with an empty list only when it had nothing to do. */
  lemma ScanSettled(dir: seq<User>, emailUsers: seq<User>, names: seq<string>)
    requires forall u :: u in emailUsers ==> u in dir
    requires forall k :: 0 <= k < |names| ==> Matches(dir, names[k]) != []
    requires AmbiguousGroups(dir, emailUsers, names) == []
    ensures ScanNames(dir, emailUsers, names).Scanning? && ScanNames(dir, emailUsers, names).groups == []
    ensures ScanNames(dir, emailUsers, names).matched == [] <==> emailUsers == [] && names == []
  {
    ScanStopsAtFirstUnknown(dir, emailUsers, names);
    ScanResolves(dir, emailUsers, names);
    var m := ScanNames(dir, emailUsers, names).matched;
    if names != [] {
      EveryTokenCovered(dir, emailUsers, names);
      var u :| u in m && SameName(u.name, names[0]);
    }
  }

  /** A created task is built from the matched list of the name loop. */
  lemma CreatedShape(ex: Extraction, email: EmailField, dir: seq<User>)
    requires Assemble(ex, email, dir).Created?
    ensures ex.assignTo.Some? && ResolveEmails(dir, EmailList(email)).Success?
    ensures var scan := ScanNames(dir, ResolveEmails(dir, EmailList(email)).value, SplitNames(ex.assignTo.value));
            && scan.Scanning?
            && Assemble(ex, email, dir).assignees == Contacts(scan.matched)
            && Assemble(ex, email, dir).task.assignTo == Ids(scan.matched)
  {
  }

  /** The records at the front of a list that starts with the users of `emails`. */
  lemma LeadingRecords(dir: seq<User>, emails: seq<string>, m: seq<User>)
    requires ResolveEmails(dir, emails).Success?
    requires |emails| <= |m| && m[..|emails|] == ResolveEmails(dir, emails).value
    ensures forall i :: 0 <= i < |emails| ==>
              Lookup(dir, emails[i]) == Some(User(Ids(m)[i], Contacts(m)[i].name, Contacts(m)[i].email))
  {
    forall i | 0 <= i < |emails|
      ensures Lookup(dir, emails[i]) == Some(User(Ids(m)[i], Contacts(m)[i].name, Contacts(m)[i].email))
    {
      assert m[i] == m[..|emails|][i];
    }
  }

  /** A created task's first assignees are the users of the supplied emails, in the order supplied. */
  lemma CreatedTaskEmailUsersFirst(ex: Extraction, email: EmailField, dir: seq<User>)
    requires Assemble(ex, email, dir).Created?
    ensures var r := Assemble(ex, email, dir);
            var emails := EmailList(email);
            && |emails| <= |r.assignees| == |r.task.assignTo|
            && forall i :: 0 <= i < |emails| ==>
                 Lookup(dir, emails[i]) == Some(User(r.task.assignTo[i], r.assignees[i].name, r.assignees[i].email))
  {
    CreatedShape(ex, email, dir);
    var emails := EmailList(email);
    var m := ScanNames(dir, ResolveEmails(dir, emails).value, SplitNames(ex.assignTo.value)).matched;
    LeadingRecords(dir, emails, m);
  }

  /** The matched list, its groups empty, behind a created task. */
  lemma CreatedFromScan(ex: Extraction, email: EmailField, dir: seq<User>)
    requires Assemble(ex, email, dir).Created?
    ensures var emailUsers := ResolveEmails(dir, EmailList(email)).value;
            var names := SplitNames(ex.assignTo.value);
            var scan := ScanNames(dir, emailUsers, names);
            && (forall u :: u in emailUsers ==> u in dir)
            && scan.Scanning? && scan.groups == []
            && Assemble(ex, email, dir).assignees == Contacts(scan.matched)
            && (forall k :: 0 <= k < |names| ==> Matches(dir, names[k]) != [])
  {
    var emailUsers := ResolveEmails(dir, EmailList(email)).value;
    EmailUsersInDirectory(dir, EmailList(email));
    ScanStopsAtFirstUnknown(dir, emailUsers, SplitNames(ex.assignTo.value));
  }

  /** After the email users, no assignee of a created task shares its name with an assignee before it. */
  lemma CreatedTaskNoSecondUser(ex: Extraction, email: EmailField, dir: seq<User>)
    requires Assemble(ex, email, dir).Created?
    ensures var r := Assemble(ex, email, dir);
            forall i, j :: 0 <= i < j < |r.assignees| && |EmailList(email)| <= j ==>
              !SameName(r.assignees[i].name, r.assignees[j].name)
  {
    CreatedFromScan(ex, email, dir);
    ScanResolves(dir, ResolveEmails(dir, EmailList(email)).value, SplitNames(ex.assignTo.value));
  }

  /** Every token is carried by an assignee of a created task. */
  lemma CreatedTaskCoversTokens(ex: Extraction, email: EmailField, dir: seq<User>)
    requires Assemble(ex, email, dir).Created?
    ensures var r := Assemble(ex, email, dir);
            forall t :: t in SplitNames(ex.assignTo.value) ==> exists c :: c in r.assignees && SameName(c.name, t)
  {
    var emailUsers := ResolveEmails(dir, EmailList(email)).value;
    var names := SplitNames(ex.assignTo.value);
    CreatedFromScan(ex, email, dir);
    EveryTokenCovered(dir, emailUsers, names);
    ContactsCarryNames(ScanNames(dir, emailUsers, names).matched, names);
  }

  /** Contacts keep the names of their users: a token some user carries is carried by that user's contact. */
  lemma ContactsCarryNames(m: seq<User>, names: seq<string>)
    requires forall k :: 0 <= k < |names| ==> Covered(m, names[k])
    ensures forall t :: t in names ==> exists c :: c in Contacts(m) && SameName(c.name, t)
  {
    forall t | t in names ensures exists c :: c in Contacts(m) && SameName(c.name, t) {
      var k :| 0 <= k < |names| && names[k] == t;
      assert Covered(m, names[k]);
      var u :| u in m && SameName(u.name, t);
      var i :| 0 <= i < |m| && m[i] == u;
      assert Contacts(m)[i] in Contacts(m) && Contacts(m)[i].name == u.name;
    }
  }

  /** Every token that exactly one user has puts that user among the assignees of a created task. */
  lemma CreatedTaskHasEverySoleMatch(ex: Extraction, email: EmailField, dir: seq<User>)
    requires Assemble(ex, email, dir).Created?
    ensures var r := Assemble(ex, email, dir);
            var names := SplitNames(ex.assignTo.value);
            forall k :: 0 <= k < |names| && |Matches(dir, names[k])| == 1 ==>
              Contact(Matches(dir, names[k])[0].name, Matches(dir, names[k])[0].email) in r.assignees
  {
    var r := Assemble(ex, email, dir);
    var emailUsers := ResolveEmails(dir, EmailList(email)).value;
    var names := SplitNames(ex.assignTo.value);
    CreatedFromScan(ex, email, dir);
    ScanResolves(dir, emailUsers, names);
    var m := ScanNames(dir, emailUsers, names).matched;
    forall k | 0 <= k < |names| && |Matches(dir, names[k])| == 1
      ensures Contact(Matches(dir, names[k])[0].name, Matches(dir, names[k])[0].email) in r.assignees
    {
      var i :| 0 <= i < |m| && m[i] == Matches(dir, names[k])[0];
      assert r.assignees[i] in r.assignees;
    }
  }

  /** After the email users, a created task lists its assignees in the order of the tokens that first name them. */
  lemma CreatedTaskInTokenOrder(ex: Extraction, email: EmailField, dir: seq<User>)
    requires Assemble(ex, email, dir).Created?
    ensures var r := Assemble(ex, email, dir);
            var names := SplitNames(ex.assignTo.value);
            forall i, j :: |EmailList(email)| <= i < j < |r.assignees| ==>
              FirstNaming(names, r.assignees[i].name) < FirstNaming(names, r.assignees[j].name)
  {
    CreatedFromScan(ex, email, dir);
    ScanInTokenOrder(dir, ResolveEmails(dir, EmailList(email)).value, SplitNames(ex.assignTo.value));
  }

  // ------------------------------------------------------- clarification

  /** The directory stores every email trimmed and lower-cased, and no two users share one. */
  ghost predicate EmailsNormalisedAndUnique(dir: seq<User>) {
    && (forall i :: 0 <= i < |dir| ==> Normalize(dir[i].email) == dir[i].email)
    && (forall i, j :: 0 <= i < |dir| && 0 <= j < |dir| && dir[i].email == dir[j].email ==> i == j)
  }

  /** Every picked email is the email of some directory user. */
  ghost predicate DirectoryEmails(dir: seq<User>, picks: seq<string>) {
    forall p :: p in picks ==> exists u :: u in dir && u.email == p
  }

  /** Every group has a candidate whose email was picked. */
  ghost predicate PicksCover(groups: seq<Group>, picks: seq<string>) {
    forall i :: 0 <= i < |groups| ==> exists u :: u in groups[i].options && u.email in picks
  }

  /** With unique emails, a directory user is determined by its email. */
  lemma SameEmailSameUser(dir: seq<User>, a: User, b: User)
    requires EmailsNormalisedAndUnique(dir)
    requires a in dir && b in dir && a.email == b.email
    ensures a == b
  {
    var i :| 0 <= i < |dir| && dir[i] == a;
    var j :| 0 <= j < |dir| && dir[j] == b;
  }

  /** Picked directory emails all resolve, each to the directory user holding exactly that email. */
  lemma PickedEmailsResolve(dir: seq<User>, picks: seq<string>)
    requires EmailsNormalisedAndUnique(dir)
    requires DirectoryEmails(dir, picks)
    ensures ResolveEmails(dir, picks).Success?
    ensures forall i :: 0 <= i < |picks| ==> ResolveEmails(dir, picks).value[i] in dir
                                             && ResolveEmails(dir, picks).value[i].email == picks[i]
  {
    PicksNormalised(dir, picks);
    forall i | 0 <= i < |picks|
      ensures Lookup(dir, picks[i]).Some? && Lookup(dir, picks[i]).value in dir
              && Lookup(dir, picks[i]).value.email == picks[i]
    {
      assert picks[i] in picks;
      var u :| u in dir && u.email == picks[i];
      var a :| 0 <= a < |dir| && dir[a] == u;
      assert FindByEmail(dir, picks[i]).Some?;
    }
  }

  /** A 300 to a request without emails: every token names somebody, and the groups are those of the scan from an empty list. */
  lemma AmbiguousFirstRound(ex: Extraction, dir: seq<User>, groups: seq<Group>)
    requires Assemble(ex, Absent, dir) == Ambiguous(groups)
    ensures ex.assignTo.Some? && |groups| > 0
    ensures forall k :: 0 <= k < |SplitNames(ex.assignTo.value)| ==> Matches(dir, SplitNames(ex.assignTo.value)[k]) != []
    ensures groups == AmbiguousGroups(dir, [], SplitNames(ex.assignTo.value))
    ensures forall i :: 0 <= i < |groups| ==> forall u :: u in groups[i].options ==> u in dir
  {
    var names := SplitNames(ex.assignTo.value);
    assert ResolveEmails(dir, []) == Success([]);
    ScanStopsAtFirstUnknown(dir, [], names);
    ScanResolves(dir, [], names);
  }

  /** Picks that cover every group leave no token both shared and uncovered. */
  lemma PicksSettleAmbiguity(dir: seq<User>, names: seq<string>, groups: seq<Group>, picks: seq<string>)
    requires EmailsNormalisedAndUnique(dir)
    requires groups == AmbiguousGroups(dir, [], names)
    requires DirectoryEmails(dir, picks) && PicksCover(groups, picks)
    ensures ResolveEmails(dir, picks).Success?
    ensures AmbiguousGroups(dir, ResolveEmails(dir, picks).value, names) == []
  {
    PickedEmailsResolve(dir, picks);
    var emailUsers := ResolveEmails(dir, picks).value;
    forall k | 0 <= k < |names| && |Matches(dir, names[k])| > 1 ensures Covered(emailUsers, names[k]) {
      AmbiguousGroupsComplete(dir, [], names, k);
      var g :| 0 <= g < |groups| && groups[g].name == names[k];
      var u :| u in groups[g].options && u.email in picks;
      var i :| 0 <= i < |picks| && picks[i] == u.email;
      assert groups[g].options == Matches(dir, groups[g].name);
      assert u in dir && SameName(u.name, names[k]);
      SameEmailSameUser(dir, emailUsers[i], u);
      assert emailUsers[i] in emailUsers;
    }
    NoAmbiguousGroups(dir, emailUsers, names);
  }

  /** A picked email is already in lookup form, since it is a directory user's. */
  lemma PicksNormalised(dir: seq<User>, picks: seq<string>)
    requires EmailsNormalisedAndUnique(dir)
    requires DirectoryEmails(dir, picks)
    ensures forall i :: 0 <= i < |picks| ==> Normalize(picks[i]) == picks[i]
  {
    forall i | 0 <= i < |picks| ensures Normalize(picks[i]) == picks[i] {
      assert picks[i] in picks;
      var u :| u in dir && u.email == picks[i];
      var a :| 0 <= a < |dir| && dir[a] == u;
    }
  }

  /**
   * Answering an ambiguity: when a request without emails got a 300, the
   * utterance sent again with directory emails that pick a candidate of
   * every group, in any order and with any extra users, neither stops at an
   * email or a name nor is ambiguous again, whatever the language model
   * extracts the second time as long as it names the same people; it
   * creates the task unless the second extraction's title is empty.
   */
  lemma ClarificationRoundTrip(ex: Extraction, ex2: Extraction, dir: seq<User>, groups: seq<Group>, picks: seq<string>)
    requires EmailsNormalisedAndUnique(dir)
    requires Assemble(ex, Absent, dir) == Ambiguous(groups)
    requires ex2.assignTo == ex.assignTo
    requires DirectoryEmails(dir, picks) && PicksCover(groups, picks)
    ensures ex2.title == "" ==> Assemble(ex2, Many(picks), dir) == ValidationError
    ensures ex2.title != "" ==> Assemble(ex2, Many(picks), dir).Created?
  {
    AmbiguousFirstRound(ex, dir, groups);
    PicksSettleAmbiguity(dir, SplitNames(ex.assignTo.value), groups, picks);
    assert picks != [] by {
      var u :| u in groups[0].options && u.email in picks;
    }
    SettledRequestValidates(ex2, dir, picks);
  }

  /** A second round whose emails all resolve and settle every shared token validates on the title alone. */
  lemma SettledRequestValidates(ex: Extraction, dir: seq<User>, picks: seq<string>)
    requires ex.assignTo.Some? && picks != []
    requires forall k :: 0 <= k < |SplitNames(ex.assignTo.value)| ==> Matches(dir, SplitNames(ex.assignTo.value)[k]) != []
    requires ResolveEmails(dir, picks).Success?
    requires AmbiguousGroups(dir, ResolveEmails(dir, picks).value, SplitNames(ex.assignTo.value)) == []
    ensures ex.title == "" ==> Assemble(ex, Many(picks), dir) == ValidationError
    ensures ex.title != "" ==> Assemble(ex, Many(picks), dir).Created?
  {
    assert EmailList(Many(picks)) == picks;
    ValidationOutcome(ex, Many(picks), dir);
  }

  /** The task created for picked directory emails lists the picked users first, in the order picked. */
  lemma ClarificationAssignsPicks(ex: Extraction, dir: seq<User>, picks: seq<string>)
    requires EmailsNormalisedAndUnique(dir)
    requires DirectoryEmails(dir, picks)
    requires Assemble(ex, Many(picks), dir).Created?
    ensures |picks| <= |Assemble(ex, Many(picks), dir).assignees|
    ensures forall i :: 0 <= i < |picks| ==> Assemble(ex, Many(picks), dir).assignees[i].email == picks[i]
  {
    PicksNormalised(dir, picks);
    CreatedTaskEmailUsersFirst(ex, Many(picks), dir);
    assert EmailList(Many(picks)) == picks;
  }
}
