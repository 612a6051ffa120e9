/** The document store as the controllers see it: the collection of user
    documents in its natural order, the `findOne({ accessCode })` lookup, and
    the read-side shapes `populate` and the `-accessCode` projection produce. */
module Store {
  import opened Common
  import opened UserSchema

  predicate Distinct(s: seq<UserId>) {
    forall i, j :: 0 <= i < j < |s| ==> s[i] != s[j]
  }

  /** No two documents share an access code: the `unique` index. */
  predicate UniqueCodes(users: map<UserId, User>) {
    forall a, b :: a in users && b in users && a != b ==> users[a].accessCode != users[b].accessCode
  }

  /** Some document holds `code` as its access code. */
  predicate CodeHeld(users: map<UserId, User>, code: string) {
    exists id :: id in users && users[id].accessCode == code
  }

  /** The collection: `order` lists every document id once, in natural
      order; every document carries its own id and is well formed, and access
      codes are unique. */
  ghost predicate RosterOk(order: seq<UserId>, users: map<UserId, User>) {
    && Distinct(order)
    && (forall id :: id in order <==> id in users)
    && (forall id :: id in users ==> users[id].id == id && WellFormed(users[id]))
    && UniqueCodes(users)
  }

  /** Replacing a document by one with the same id, name and access code and
      still one entry per target keeps the roster well formed. */
  lemma RosterOkReplace(order: seq<UserId>, users: map<UserId, User>, id: UserId, u: User)
    requires RosterOk(order, users) && id in users
    requires u.id == id && u.name == users[id].name && u.accessCode == users[id].accessCode
    requires UniqueTargets(u.wordInputs)
    ensures RosterOk(order, users[id := u])
  {
  }

  /** Adding a well-formed document under a new id, with a code no other
      document holds, at the end of the natural order. */
  lemma RosterOkInsert(order: seq<UserId>, users: map<UserId, User>, id: UserId, u: User)
    requires RosterOk(order, users) && id !in users
    requires u.id == id && WellFormed(u)
    requires forall x :: x in users ==> users[x].accessCode != u.accessCode
    ensures RosterOk(order + [id], users[id := u])
  {
  }

  /** Deleting a document. */
  lemma RosterOkDelete(order: seq<UserId>, users: map<UserId, User>, id: UserId)
    requires RosterOk(order, users)
    ensures RosterOk(Removed(order, id), users - {id})
  {
  }

  /** The natural order after `findByIdAndDelete(id)`: `id` gone, the rest
      in the same order. */
  function Removed(s: seq<UserId>, id: UserId): (r: seq<UserId>)
    ensures forall x :: x in r <==> x in s && x != id
    ensures Distinct(s) ==> Distinct(r)
  {
    if s == [] then []
    else
      var rest := Removed(s[1..], id);
      if s[0] == id then rest
      else
        assert Distinct(s) ==> s[0] !in rest by {
          if Distinct(s) && s[0] in rest {
            var k :| 1 <= k < |s| && s[k] == s[0];
            assert false;
          }
        }
        [s[0]] + rest
  }

  /** `User.findOne({ accessCode: code })`: the first document in natural
      order whose stored access code equals `code`. */
  function FindByCode(order: seq<UserId>, users: map<UserId, User>, code: string): (r: Option<UserId>)
    ensures r.Some? ==> r.value in order && r.value in users && users[r.value].accessCode == code
    ensures r.None? ==> forall k :: 0 <= k < |order| && order[k] in users ==> users[order[k]].accessCode != code
  {
    if order == [] then None
    else if order[0] in users && users[order[0]].accessCode == code then Some(order[0])
    else
      var rest := FindByCode(order[1..], users, code);
      assert rest.None? ==> forall k :: 1 <= k < |order| && order[k] in users ==> users[order[1..][k - 1]].accessCode != code;
      rest
  }

  /** On a well-formed roster the lookup finds THE document with that code,
      and finds nothing exactly when no document has it. */
  lemma FindByCodeExact(order: seq<UserId>, users: map<UserId, User>, code: string, id: UserId)
    requires RosterOk(order, users)
    ensures FindByCode(order, users, code) == Some(id) <==> id in users && users[id].accessCode == code
  {
  }

  /** On a well-formed roster the lookup comes back empty exactly when no
      document holds the code. */
  lemma FindByCodeNone(order: seq<UserId>, users: map<UserId, User>, code: string)
    requires RosterOk(order, users)
    ensures FindByCode(order, users, code).None? <==> forall id :: id in users ==> users[id].accessCode != code
  {
  }

  /** `_id name profilePicture`: what `populate` puts in place of a reference. */
  datatype Summary = Summary(id: UserId, name: string, profilePicture: string)

  /** A word-input entry as a query returns it, its reference populated. */
  datatype ShownInput = ShownInput(targetUser: Option<Summary>, word: string)

  /** A user document as a query returns it. `accessCode` is None when the
      query projects it away with `-accessCode`. */
  datatype UserView = UserView(
    id: UserId,
    name: string,
    accessCode: Option<string>,
    isAdmin: bool,
    profilePicture: string,
    wordInputs: seq<ShownInput>,
    wordMapVisible: bool)

  function SummaryOf(u: User): Summary {
    Summary(u.id, u.name, u.profilePicture)
  }

  /** `populate` of one reference: an unset reference, or one to a document
      that no longer exists, comes back null. */
  function Resolve(users: map<UserId, User>, ref: Option<UserId>): (r: Option<Summary>)
    ensures r.Some? <==> ref.Some? && ref.value in users
  {
    if ref.Some? && ref.value in users then Some(SummaryOf(users[ref.value])) else None
  }

  /** `populate('wordInputs.targetUser', '_id name profilePicture')`. */
  function Populate(users: map<UserId, User>, s: seq<WordInput>): (r: seq<ShownInput>)
    ensures |r| == |s|
    ensures forall k :: 0 <= k < |s| ==> r[k] == ShownInput(Resolve(users, s[k].targetUser), s[k].word)
  {
    seq(|s|, k requires 0 <= k < |s| => ShownInput(Resolve(users, s[k].targetUser), s[k].word))
  }

  /** A document as returned by a populated query, with or without its
      access code. */
  function View(users: map<UserId, User>, u: User, withCode: bool): (r: UserView)
    ensures r.accessCode == (if withCode then Some(u.accessCode) else None)
    ensures r.id == u.id && r.name == u.name && r.isAdmin == u.isAdmin
    ensures r.profilePicture == u.profilePicture && r.wordMapVisible == u.wordMapVisible
    ensures r.wordInputs == Populate(users, u.wordInputs)
  {
    UserView(u.id, u.name, if withCode then Some(u.accessCode) else None, u.isAdmin,
             u.profilePicture, Populate(users, u.wordInputs), u.wordMapVisible)
  }
}
