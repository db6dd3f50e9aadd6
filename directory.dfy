/**
 * The user directory as the voice controller queries it: `User.findOne`
 * by exact email and `User.find` by a case-insensitive anchored name
 * pattern, over a sequence of users kept in the database's natural order.
 */
module Directory {
  import opened Wrappers
  import opened JsString

  datatype User = User(id: nat, name: string, email: string)

  /** Two names are the same when they agree after lower-casing. */
  predicate SameName(a: string, b: string) {
    Lower(a) == Lower(b)
  }

  /** `User.findOne({ email: key })`: the first user whose email is exactly `key`. */
  function FindByEmail(dir: seq<User>, key: string): (r: Option<User>)
    ensures r.Some? ==> exists i :: 0 <= i < |dir| && dir[i] == r.value && r.value.email == key
                          && forall j :: 0 <= j < i ==> dir[j].email != key
    ensures r.None? <==> forall i :: 0 <= i < |dir| ==> dir[i].email != key
  {
    if dir == [] then None
    else if dir[0].email == key then Some(dir[0])
    else
      var r := FindByEmail(dir[1..], key);
      assert r.Some? ==> exists i :: 0 <= i < |dir| && dir[i] == r.value && r.value.email == key
                          && forall j :: 0 <= j < i ==> dir[j].email != key by {
        if r.Some? {
          var i :| 0 <= i < |dir| - 1 && dir[1..][i] == r.value && r.value.email == key
                   && forall j :: 0 <= j < i ==> dir[1..][j].email != key;
          assert dir[i + 1] == r.value;
          forall j | 0 <= j < i + 1 ensures dir[j].email != key {
            if j > 0 { assert dir[j] == dir[1..][j - 1]; }
          }
        }
      }
      assert r.None? ==> forall i :: 0 <= i < |dir| ==> dir[i].email != key by {
        if r.None? {
          forall i | 0 <= i < |dir| ensures dir[i].email != key {
            if i > 0 { assert dir[i] == dir[1..][i - 1]; }
          }
        }
      }
      r
  }

  /** `User.find({ name: /^name$/i })`: every user with that name, in directory order. */
  function Matches(dir: seq<User>, name: string): (r: seq<User>)
    ensures |r| <= |dir|
    ensures forall u :: u in r <==> u in dir && SameName(u.name, name)
  {
    if dir == [] then []
    else (if SameName(dir[0].name, name) then [dir[0]] else []) + Matches(dir[1..], name)
  }

  /** The lookup sees only the lower-cased name: differently cased spellings find the same users. */
  lemma {:induction false} MatchesIgnoreCase(dir: seq<User>, a: string, b: string)
    requires SameName(a, b)
    ensures Matches(dir, a) == Matches(dir, b)
  {
    if dir != [] {
      MatchesIgnoreCase(dir[1..], a, b);
    }
  }

  /** Matching distributes over the directory: candidates come out in directory order. */
  lemma {:induction false} MatchesInOrder(front: seq<User>, back: seq<User>, name: string)
    ensures Matches(front + back, name) == Matches(front, name) + Matches(back, name)
  {
    if front == [] {
      assert front + back == back;
    } else {
      assert (front + back)[1..] == front[1..] + back;
      MatchesInOrder(front[1..], back, name);
    }
  }
}
