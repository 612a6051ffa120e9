/** The `User` document of backend/models/User.js: its fields, the defaults a
    new document receives, the `trim` setter on name and access code, and the
    `required` validators. */
module UserSchema {
  import opened Common

  /** One word the owning user submitted about another user. The schema does
      not require the reference, so an entry without a target is representable;
      it does require the word. */
  datatype WordInput = WordInput(targetUser: Option<UserId>, word: string)

  datatype User = User(
    id: UserId,
    name: string,
    accessCode: string,
    isAdmin: bool,
    profilePicture: string,
    wordInputs: seq<WordInput>,
    wordMapVisible: bool)

  /** The white-space characters that String.prototype.trim strips and that
      this model knows of (the ASCII ones, no-break space and the byte-order
      mark). */
  predicate IsSpace(c: char) {
    c == ' ' || c == '\t' || c == '\n' || c == '\r' || c == '\U{0B}' || c == '\U{0C}'
    || c == '\U{A0}' || c == '\U{FEFF}'
  }

  /** `s` without its leading white space: a suffix of `s`. */
  function TrimStart(s: string): (r: string)
    ensures |r| <= |s| && r == s[|s| - |r|..]
    ensures forall k :: 0 <= k < |s| - |r| ==> IsSpace(s[k])
    ensures r == [] || !IsSpace(r[0])
  {
    if s != [] && IsSpace(s[0]) then TrimStart(s[1..]) else s
  }

  /** `s` without its trailing white space: a prefix of `s`. */
  function TrimEnd(s: string): (r: string)
    ensures |r| <= |s| && r == s[..|r|]
    ensures forall k :: |r| <= k < |s| ==> IsSpace(s[k])
    ensures r == [] || !IsSpace(r[|r| - 1])
  {
    if s != [] && IsSpace(s[|s| - 1]) then TrimEnd(s[..|s| - 1]) else s
  }

  /** The `trim: true` setter: what is stored for `name` and `accessCode`. */
  function Trim(s: string): (r: string)
    ensures r == [] || (!IsSpace(r[0]) && !IsSpace(r[|r| - 1]))
  {
    TrimEnd(TrimStart(s))
  }

  /** Trimming removes only white space: the result is empty exactly when the
      input is blank. */
  lemma TrimEmptyIffBlank(s: string)
    ensures Trim(s) == [] <==> forall k :: 0 <= k < |s| ==> IsSpace(s[k])
  {
  }

  /** Storing an already stored value changes nothing. */
  lemma TrimIdempotent(s: string)
    ensures Trim(Trim(s)) == Trim(s)
  {
  }

  /** The `required: true` validator on a string path: after the setter runs,
      the value must be non-empty. A missing value is modelled as "". */
  predicate Present(s: string) {
    s != []
  }

  /** At most one entry per (non-null) target: the upsert logic of the
      controller keeps this, the schema does not enforce it. */
  predicate UniqueTargets(s: seq<WordInput>) {
    forall i, j :: 0 <= i < j < |s| && s[i].targetUser.Some? ==> s[i].targetUser != s[j].targetUser
  }

  /** No white space at either end: what the `trim` setter leaves. */
  predicate Trimmed(s: string) {
    s == [] || (!IsSpace(s[0]) && !IsSpace(s[|s| - 1]))
  }

  /** Exactly the values the setter leaves untouched are trimmed. */
  lemma TrimmedIffFixed(s: string)
    ensures Trimmed(s) <==> Trim(s) == s
  {
  }

  /** What a stored user document looks like: trimmed, present name and
      access code, and at most one entry per target. */
  predicate WellFormed(u: User) {
    && Present(u.name) && Trimmed(u.name)
    && Present(u.accessCode) && Trimmed(u.accessCode)
    && UniqueTargets(u.wordInputs)
  }

  /** `new User({ name, accessCode })` and the validation that `save` runs on
      it: both values are trimmed, both are required, and every other field
      takes its schema default. */
  function NewUser(id: UserId, name: string, accessCode: string): (r: Option<User>)
    ensures r.Some? <==> Present(Trim(name)) && Present(Trim(accessCode))
    ensures r.Some? ==> WellFormed(r.value) && r.value.id == id
    ensures r.Some? ==> r.value.name == Trim(name) && r.value.accessCode == Trim(accessCode)
    ensures r.Some? ==> !r.value.isAdmin && r.value.profilePicture == ""
    ensures r.Some? ==> !r.value.wordMapVisible && r.value.wordInputs == []
  {
    if Present(Trim(name)) && Present(Trim(accessCode)) then
      Some(User(id, Trim(name), Trim(accessCode), false, "", [], false))
    else
      None
  }
}
