/** The membership test: is the user's e-mail among the members of any of a
    list of named site groups? Group lookups are backend calls; here their
    responses are input data, and a lookup that throws is `Failed`. */
module Membership {
  import opened Optional
  import opened JsText

  /** The response to `siteGroups.getByName(name).users()`: either the call
      failed (unknown group, network error) or it returned the users, each of
      whose `Email` property may be missing. */
  datatype GroupLookup = Failed | Users(emails: seq<Option<string>>)

  /** The site's groups by name; a name that is not a key fails to resolve. */
  type Directory = map<string, GroupLookup>

  function Lookup(dir: Directory, name: string): GroupLookup {
    if name in dir then dir[name] else Failed
  }

  /** `users.map(user => user.Email.toLowerCase())`: `None` when some user
      has no e-mail, because calling `toLowerCase` on it throws. */
  function LowerEmails(users: seq<Option<string>>): (r: Option<seq<string>>)
    ensures r.Some? <==> forall k :: 0 <= k < |users| ==> users[k].Some?
    ensures r.Some? ==> |r.value| == |users|
    ensures r.Some? ==> forall k :: 0 <= k < |users| ==> r.value[k] == Lower(users[k].value)
    decreases |users|
  {
    if |users| == 0 then Some([])
    else match users[0]
      case None => None
      case Some(e) =>
        match LowerEmails(users[1..])
        case None => None
        case Some(rest) => Some([Lower(e)] + rest)
  }

  /** Two e-mail addresses are the same once lower-cased. */
  predicate SameEmail(a: string, b: string) {
    Lower(a) == Lower(b)
  }

  /** The lookup succeeded, every returned user has an e-mail, and one of
      them is `userEmail` ignoring case. */
  ghost predicate Admits(lookup: GroupLookup, userEmail: string) {
    && lookup.Users?
    && (forall k :: 0 <= k < |lookup.emails| ==> lookup.emails[k].Some?)
    && exists k :: 0 <= k < |lookup.emails| && SameEmail(lookup.emails[k].value, userEmail)
  }

  /** `isUserInGroup`: a failed lookup or a missing e-mail makes the answer
      false. */
  function IsUserInGroup(dir: Directory, name: string, userEmail: string): (r: bool)
    ensures r <==> Admits(Lookup(dir, name), userEmail)
  {
    match Lookup(dir, name)
    case Failed => false
    case Users(users) =>
      match LowerEmails(users)
      case None => false
      case Some(emails) => Lower(userEmail) in emails
  }

  /** The outcome of `isUserInAnyGroup` together with the group names it
      consulted, in order. */
  datatype Scan = Scan(authorized: bool, consulted: seq<string>)

  /** The user is a member of at least one of the named groups. */
  ghost predicate InSomeGroup(dir: Directory, names: seq<string>, userEmail: string) {
    exists i :: 0 <= i < |names| && IsUserInGroup(dir, names[i], userEmail)
  }

  /** `names[i]` is the first listed group that contains the user. */
  ghost predicate FirstMemberAt(dir: Directory, names: seq<string>, userEmail: string, i: int) {
    && 0 <= i < |names|
    && IsUserInGroup(dir, names[i], userEmail)
    && forall j :: 0 <= j < i ==> !IsUserInGroup(dir, names[j], userEmail)
  }

  /** `isUserInAnyGroup`: tries the groups in order and stops at the first
      one that contains the user. */
  function ScanGroups(dir: Directory, names: seq<string>, userEmail: string): (s: Scan)
    ensures s.authorized <==> InSomeGroup(dir, names, userEmail)
    ensures s.consulted <= names
    ensures s.authorized ==> FirstMemberAt(dir, names, userEmail, |s.consulted| - 1)
    ensures !s.authorized ==> s.consulted == names
    decreases |names|
  {
    if |names| == 0 then Scan(false, [])
    else if IsUserInGroup(dir, names[0], userEmail) then Scan(true, [names[0]])
    else
      var rest := ScanGroups(dir, names[1..], userEmail);
      SkipNonMember(dir, names, userEmail);
      Scan(rest.authorized, [names[0]] + rest.consulted)
  }

  /** Dropping a first group that does not contain the user changes neither
      whether some group does nor which one is first, up to the shift. */
  lemma SkipNonMember(dir: Directory, names: seq<string>, userEmail: string)
    requires |names| > 0 && !IsUserInGroup(dir, names[0], userEmail)
    ensures InSomeGroup(dir, names, userEmail) <==> InSomeGroup(dir, names[1..], userEmail)
    ensures forall i :: FirstMemberAt(dir, names[1..], userEmail, i) ==> FirstMemberAt(dir, names, userEmail, i + 1)
  {
    var tail := names[1..];
    if InSomeGroup(dir, names, userEmail) {
      var i :| 0 <= i < |names| && IsUserInGroup(dir, names[i], userEmail);
      assert tail[i - 1] == names[i];
    }
    if InSomeGroup(dir, tail, userEmail) {
      var i :| 0 <= i < |tail| && IsUserInGroup(dir, tail[i], userEmail);
      assert names[i + 1] == tail[i];
    }
    forall i | FirstMemberAt(dir, tail, userEmail, i)
      ensures FirstMemberAt(dir, names, userEmail, i + 1)
    {
      assert names[i + 1] == tail[i];
      forall j | 0 <= j < i + 1
        ensures !IsUserInGroup(dir, names[j], userEmail)
      {
        if j > 0 {
          assert names[j] == tail[j - 1];
        }
      }
    }
  }

  /** Fail closed: when every lookup fails the user is not authorized. */
  lemma AllLookupsFailedDenies(dir: Directory, names: seq<string>, userEmail: string)
    requires forall i :: 0 <= i < |names| ==> Lookup(dir, names[i]).Failed?
    ensures !ScanGroups(dir, names, userEmail).authorized
  {
    forall i | 0 <= i < |names|
      ensures !IsUserInGroup(dir, names[i], userEmail)
    {
      assert Lookup(dir, names[i]).Failed?;
    }
  }

  /** The answer does not depend on the order (or repetition) of the group
      names, only on which names are listed. By the contract of `ScanGroups`
      its `authorized` field is exactly `InSomeGroup`. */
  lemma GroupOrderIrrelevant(dir: Directory, names: seq<string>, names': seq<string>, userEmail: string)
    requires forall n :: n in names <==> n in names'
    ensures InSomeGroup(dir, names, userEmail) == InSomeGroup(dir, names', userEmail)
  {
    if InSomeGroup(dir, names, userEmail) {
      var i :| 0 <= i < |names| && IsUserInGroup(dir, names[i], userEmail);
      assert names[i] in names';
      var j :| 0 <= j < |names'| && names'[j] == names[i];
      assert InSomeGroup(dir, names', userEmail);
    }
    if InSomeGroup(dir, names', userEmail) {
      var j :| 0 <= j < |names'| && IsUserInGroup(dir, names'[j], userEmail);
      assert names'[j] in names;
      var i :| 0 <= i < |names| && names[i] == names'[j];
      assert InSomeGroup(dir, names, userEmail);
    }
  }

  /** Lower-casing the user's e-mail before the test changes nothing: the
      test lower-cases it again. */
  lemma RelowerIsNoOp(dir: Directory, name: string, userEmail: string)
    ensures IsUserInGroup(dir, name, Lower(userEmail)) == IsUserInGroup(dir, name, userEmail)
  {
    LowerIdempotent(userEmail);
  }

  /** An e-mail that is present but empty does not throw, so a user with
      the empty e-mail is admitted by a group listing a member whose e-mail
      is empty: the check fails closed only on a missing e-mail. */
  lemma EmptyEmailAdmitted()
    ensures IsUserInGroup(map["Visitors" := Users([Some("")])], "Visitors", "")
  {
    var users: seq<Option<string>> := [Some("")];
    assert users[1..] == [];
    assert Lower("") == "";
    var r := LowerEmails(users);
    assert r.Some? && r.value[0] == Lower(users[0].value);
    assert r.value == [""];
  }

  /** Worked case: a member without an e-mail spoils the whole "Owners"
      lookup, the failed "Members" lookup is skipped, and "Visitors" admits
      the user, so all three groups are consulted. */
  lemma ExampleScan()
    ensures var dir := map["Owners" := Users([None, Some("a")]), "Visitors" := Users([Some("A")])];
      ScanGroups(dir, ["Owners", "Members", "Visitors"], "a") == Scan(true, ["Owners", "Members", "Visitors"])
  {
    var dir := map["Owners" := Users([None, Some("a")]), "Visitors" := Users([Some("A")])];
    var names := ["Owners", "Members", "Visitors"];
    assert LowerEmails([None, Some("a")]).None?;
    assert !IsUserInGroup(dir, "Owners", "a");
    assert Lookup(dir, "Members") == Failed;
    assert Lower("A") == "a" && Lower("a") == "a";
    assert IsUserInGroup(dir, "Visitors", "a");
    assert names[1..] == ["Members", "Visitors"] && names[1..][1..] == ["Visitors"];
  }
}
