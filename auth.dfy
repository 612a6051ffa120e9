/** `login` of backend/controllers/authController.js: exchange an access code
    for a token and a public profile. It only reads the roster. */
module Auth {
  import opened Common
  import opened UserSchema
  import opened Store

  /** The signed token, kept abstract: all that is modelled of
      `jwt.sign(payload, secret, { expiresIn: '24h' })` is its payload. */
  datatype Token = Token(userId: UserId, isAdmin: bool)

  /** The `user` object of the response: no access code. */
  datatype Profile = Profile(id: UserId, name: string, isAdmin: bool, profilePicture: string)

  /** 200 with token and profile, or 401 'Invalid access code'. */
  datatype LoginResult = LoggedIn(token: Token, user: Profile) | Unauthorized

  /** Look the (trimmed) code up; no match is a 401 and issues no token. */
  function Login(order: seq<UserId>, users: map<UserId, User>, code: string): (r: LoginResult)
    ensures r.LoggedIn? ==>
      var id := r.token.userId;
      && id in users && users[id].accessCode == Trim(code)
      && r.token.isAdmin == users[id].isAdmin
      && r.user == Profile(id, users[id].name, users[id].isAdmin, users[id].profilePicture)
  {
    match FindByCode(order, users, Trim(code))
    case None => Unauthorized
    case Some(id) =>
      var u := users[id];
      LoggedIn(Token(id, u.isAdmin), Profile(id, u.name, u.isAdmin, u.profilePicture))
  }

  /** On a well-formed roster: login fails exactly when no document holds the
      trimmed code, and otherwise speaks for the one document that does. */
  lemma LoginExact(order: seq<UserId>, users: map<UserId, User>, code: string)
    requires RosterOk(order, users)
    ensures Login(order, users, code).Unauthorized? <==>
            forall id :: id in users ==> users[id].accessCode != Trim(code)
    ensures forall id :: id in users && users[id].accessCode == Trim(code) ==>
            Login(order, users, code) ==
              LoggedIn(Token(id, users[id].isAdmin),
                       Profile(id, users[id].name, users[id].isAdmin, users[id].profilePicture))
  {
  }

  /** An empty or blank code never logs in: stored codes are never empty. */
  lemma BlankCodeRejected(order: seq<UserId>, users: map<UserId, User>, code: string)
    requires RosterOk(order, users)
    requires forall k :: 0 <= k < |code| ==> IsSpace(code[k])
    ensures Login(order, users, code) == Unauthorized
  {
  }

  // ---- The request value as JSON: a query operator in place of a code ----

  /** What `req.body.accessCode` can be once JSON is parsed: a string; an
      object such as `{ "$ne": s }`, which `findOne({ accessCode })` reads as a
      query operator (`$ne` stands here for every such operator); or no value
      at all, when the body has no `accessCode`. */
  datatype CodeValue = Text(s: string) | NotEqual(s: string) | Missing

  /** `findOne({})`: the first document in natural order. Mongoose drops a
      filter key whose value is `undefined`, so this is also
      `findOne({ accessCode: undefined })`. */
  function FirstListed(order: seq<UserId>, users: map<UserId, User>): (r: Option<UserId>)
    ensures r.Some? ==> r.value in users
    ensures order != [] && order[0] in users ==> r == Some(order[0])
    ensures r.None? ==> forall k :: 0 <= k < |order| ==> order[k] !in users
  {
    if order == [] then None
    else if order[0] in users then Some(order[0])
    else
      var rest := FirstListed(order[1..], users);
      assert forall k :: 1 <= k < |order| ==> order[k] == order[1..][k - 1];
      rest
  }

  /** `findOne({ accessCode: { $ne: code } })`: the first document in natural
      order whose access code differs from `code`. */
  function FindByCodeOtherThan(order: seq<UserId>, users: map<UserId, User>, code: string): (r: Option<UserId>)
    ensures r.Some? ==> r.value in users && users[r.value].accessCode != code
    ensures r.Some? && order != [] && order[0] in users && users[order[0]].accessCode != code ==> r.value == order[0]
    ensures r.None? ==> forall k :: 0 <= k < |order| && order[k] in users ==> users[order[k]].accessCode == code
  {
    if order == [] then None
    else if order[0] in users && users[order[0]].accessCode != code then Some(order[0])
    else
      var rest := FindByCodeOtherThan(order[1..], users, code);
      assert rest.None? ==> forall k :: 1 <= k < |order| && order[k] in users ==> users[order[1..][k - 1]].accessCode == code;
      rest
  }

  /** The answer for the document a filter selected, if any. */
  function Selected(users: map<UserId, User>, found: Option<UserId>): (r: LoginResult)
    requires found.Some? ==> found.value in users
    ensures r.Unauthorized? <==> found.None?
    ensures r.LoggedIn? ==>
      var id := found.value;
      && r.token == Token(id, users[id].isAdmin)
      && r.user == Profile(id, users[id].name, users[id].isAdmin, users[id].profilePicture)
  {
    match found
    case None => Unauthorized
    case Some(id) =>
      var u := users[id];
      LoggedIn(Token(id, u.isAdmin), Profile(id, u.name, u.isAdmin, u.profilePicture))
  }

  /** `login` as written: the body value reaches the filter unchanged, so an
      operator, or a missing value, selects a document without its code being
      known. */
  function LoginAsWritten(order: seq<UserId>, users: map<UserId, User>, v: CodeValue): (r: LoginResult)
    ensures v.Text? ==> r == Login(order, users, v.s)
    ensures r.LoggedIn? ==>
      var id := r.token.userId;
      && id in users && r.token.isAdmin == users[id].isAdmin
      && r.user == Profile(id, users[id].name, users[id].isAdmin, users[id].profilePicture)
  {
    match v
    case Text(s) => Login(order, users, s)
    case NotEqual(s) => Selected(users, FindByCodeOtherThan(order, users, Trim(s)))
    case Missing => Selected(users, FirstListed(order, users))
  }

  /** A body without `accessCode` logs in as the first document of the
      collection. */
  lemma MissingCodeLogsInAsFirst(order: seq<UserId>, users: map<UserId, User>)
    requires RosterOk(order, users) && order != []
    ensures var id := order[0];
            id in users &&
            LoginAsWritten(order, users, Missing) ==
              LoggedIn(Token(id, users[id].isAdmin),
                       Profile(id, users[id].name, users[id].isAdmin, users[id].profilePicture))
  {
    assert order[0] in users;
  }

  /** The body `{ "accessCode": { "$ne": "" } }` logs in as the first document
      of the collection, whatever its code: no stored code is empty. */
  lemma OperatorLogsInAsFirst(order: seq<UserId>, users: map<UserId, User>)
    requires RosterOk(order, users) && order != []
    ensures var id := order[0];
            id in users &&
            LoginAsWritten(order, users, NotEqual("")) ==
              LoggedIn(Token(id, users[id].isAdmin),
                       Profile(id, users[id].name, users[id].isAdmin, users[id].profilePicture))
  {
    assert order[0] in users;
    assert Trim("") == "";
  }

  /** `login` with the request value checked to be a string before the
      lookup; anything else is an invalid access code. */
  function LoginChecked(order: seq<UserId>, users: map<UserId, User>, v: CodeValue): (r: LoginResult)
    ensures r.LoggedIn? ==> v.Text? && r == Login(order, users, v.s)
  {
    if v.Text? then Login(order, users, v.s) else Unauthorized
  }

  /** With the check, a login succeeds exactly when the request carries, as a
      string, a code some user holds. */
  lemma LoginCheckedNeedsCode(order: seq<UserId>, users: map<UserId, User>, v: CodeValue)
    requires RosterOk(order, users)
    ensures LoginChecked(order, users, v).LoggedIn? <==>
            v.Text? && CodeHeld(users, Trim(v.s))
  {
    if v.Text? {
      LoginExact(order, users, v.s);
    }
  }
}
