/** The state-changing handlers of backend/controllers/userController.js, on
    one object that owns the user collection and the process-wide
    `isMapFeatureEnabled` flag. */
module UserController {
  import opened Common
  import opened UserSchema
  import opened Store
  import opened WordLedger

  /** What a handler answers. Bodies that only carry a message are `Success`. */
  datatype Response =
    | Success                                         // 200 { message }
    | UserAdded(added: User)                          // 201 { message, user }
    | WordInputSaved(updated: bool, caller: UserView) // 200 { message: added / updated, user }
    | NotFound                                        // 404
    | BadRequest                                      // 400

  /** `user.wordMapVisible = !user.wordMapVisible`. */
  function Flipped(u: User): (r: User)
    ensures r.wordMapVisible == !u.wordMapVisible
    ensures r.(wordMapVisible := u.wordMapVisible) == u
  {
    u.(wordMapVisible := !u.wordMapVisible)
  }

  /** Toggling twice restores the document. */
  lemma FlippedTwice(u: User)
    ensures Flipped(Flipped(u)) == u
  {
  }

  class UserService {
    /** Ids of the stored documents in the collection's natural order. */
    var order: seq<UserId>
    /** The stored documents. */
    var users: map<UserId, User>
    /** The id the store gives the next document it creates. */
    var nextId: UserId
    /** `let isMapFeatureEnabled` at module level. */
    var mapFeatureEnabled: bool

    ghost predicate Valid()
      reads this
    {
      RosterOk(order, users) && forall id :: id in users ==> id < nextId
    }

    /** A fresh process over an empty collection: the flag starts enabled. */
    constructor ()
      ensures Valid() && order == [] && users == map[] && nextId == 0 && mapFeatureEnabled
    {
      order, users, nextId := [], map[], 0;
      mapFeatureEnabled := true;
    }

    /** `addUser`: create a document from the trimmed name and access code
        with schema defaults; a missing value or a taken code fails with 400
        and stores nothing. */
    method AddUser(name: string, accessCode: string) returns (r: Response)
      requires Valid()
      modifies this`order, this`users, this`nextId
      ensures Valid()
      ensures r == BadRequest <==>
                || !Present(Trim(name)) || !Present(Trim(accessCode))
                || CodeHeld(old(users), Trim(accessCode))
      ensures r == BadRequest ==> order == old(order) && users == old(users) && nextId == old(nextId)
      ensures r != BadRequest ==>
                && NewUser(old(nextId), name, accessCode).Some?
                && r == UserAdded(NewUser(old(nextId), name, accessCode).value)
                && order == old(order) + [old(nextId)]
                && users == old(users)[old(nextId) := r.added]
                && nextId == old(nextId) + 1
      ensures r == BadRequest || r.UserAdded?
    {
      var created := NewUser(nextId, name, accessCode);
      if created.None? {
        return BadRequest;
      }
      var u := created.value;
      var holder := FindByCode(order, users, u.accessCode);
      if holder.Some? {
        // the `unique` index rejects the insert
        assert users[holder.value].accessCode == Trim(accessCode);
        return BadRequest;
      }
      FindByCodeNone(order, users, u.accessCode);
      Insert(u);
      r := UserAdded(u);
    }

    /** Store a new document under the next id, at the end of the natural
        order. */
    method Insert(u: User)
      requires Valid() && u.id == nextId && WellFormed(u)
      requires forall id :: id in users ==> users[id].accessCode != u.accessCode
      modifies this`order, this`users, this`nextId
      ensures Valid() && nextId == old(nextId) + 1
      ensures order == old(order) + [old(nextId)] && users == old(users)[old(nextId) := u]
    {
      RosterOkInsert(order, users, nextId, u);
      order := order + [nextId];
      users := users[nextId := u];
      nextId := nextId + 1;
    }

    /** `removeUser`: delete the document if it exists; success either way. */
    method RemoveUser(id: UserId) returns (r: Response)
      requires Valid()
      modifies this`order, this`users
      ensures Valid() && r == Success
      ensures users == old(users) - {id} && order == Removed(old(order), id)
    {
      RosterOkDelete(order, users, id);
      order := Removed(order, id);
      users := users - {id};
      r := Success;
    }

    /** `addWordInput`: create or update the caller's single entry for
        `target`; the save validates every entry of the caller's list. */
    method AddWordInput(caller: UserId, target: UserId, word: string) returns (r: Response)
      requires Valid()
      modifies this`users
      ensures Valid()
      ensures target !in old(users) ==> r == NotFound && users == old(users)
      ensures target in old(users) && caller !in old(users) ==> r == BadRequest && users == old(users)
      ensures target in old(users) && caller in old(users) ==>
        var s := old(users)[caller].wordInputs;
        if Find(s, target).Throws? || !WordsPresent(Upserted(s, target, word)) then
          r == BadRequest && users == old(users)
        else
          && users == old(users)[caller := old(users)[caller].(wordInputs := Upserted(s, target, word))]
          && r == WordInputSaved(IndexOfTarget(s, target).Some?, View(users, users[caller], true))
    {
      if target !in users {
        return NotFound;
      }
      if caller !in users {
        // `user` is null and reading `user.wordInputs` throws
        return BadRequest;
      }
      var u := users[caller];
      var hit := Find(u.wordInputs, target);
      if hit.Throws? {
        // a TypeError in `find`
        return BadRequest;
      }
      FindAgreesWithPositional(u.wordInputs, target);
      var s;
      if hit.Hit? {
        s := SetWord(u.wordInputs, hit.index, word);
      } else {
        s := u.wordInputs + [WordInput(Some(target), word)];
      }
      assert s == Upserted(u.wordInputs, target, word);
      if !WordsPresent(s) {
        // `save` fails the `required` word of some entry
        return BadRequest;
      }
      UpsertedKeepsUnique(u.wordInputs, target, word);
      RosterOkReplace(order, users, caller, u.(wordInputs := s));
      users := users[caller := u.(wordInputs := s)];
      r := WordInputSaved(hit.Hit?, View(users, users[caller], true));
    }

    /** `updateWordInput`: set the word of the caller's first entry for
        `target`; without one, 404 and nothing changes. No validator runs. */
    method UpdateWordInput(caller: UserId, target: UserId, word: string) returns (r: Response)
      requires Valid()
      modifies this`users
      ensures Valid()
      ensures caller !in old(users) || IndexOfTarget(old(users)[caller].wordInputs, target).None? ==>
                r == NotFound && users == old(users)
      ensures caller in old(users) && IndexOfTarget(old(users)[caller].wordInputs, target).Some? ==>
                var s := old(users)[caller].wordInputs;
                && r == Success
                && users == old(users)[caller := old(users)[caller].(
                     wordInputs := SetWord(s, IndexOfTarget(s, target).value, word))]
    {
      if caller !in users {
        return NotFound;
      }
      var u := users[caller];
      match IndexOfTarget(u.wordInputs, target)
      case None =>
        r := NotFound;
      case Some(i) =>
        SetWordKeepsUnique(u.wordInputs, i, word);
        RosterOkReplace(order, users, caller, u.(wordInputs := SetWord(u.wordInputs, i, word)));
        users := users[caller := u.(wordInputs := SetWord(u.wordInputs, i, word))];
        r := Success;
    }

    /** `toggleWordMapVisibility`: flip one document's flag, or 404; 400 when
        the save fails validation on an empty stored word. */
    method ToggleWordMapVisibility(id: UserId) returns (r: Response)
      requires Valid()
      modifies this`users
      ensures Valid()
      ensures id !in old(users) ==> r == NotFound && users == old(users)
      ensures id in old(users) && !WordsPresent(old(users)[id].wordInputs) ==>
                r == BadRequest && users == old(users)
      ensures id in old(users) && WordsPresent(old(users)[id].wordInputs) ==>
                r == Success && users == old(users)[id := Flipped(old(users)[id])]
    {
      if id !in users {
        return NotFound;
      }
      if !WordsPresent(users[id].wordInputs) {
        // `save` fails the `required` word of a stored entry
        return BadRequest;
      }
      RosterOkReplace(order, users, id, Flipped(users[id]));
      users := users[id := Flipped(users[id])];
      r := Success;
    }

    /** `toggleMapFeature`: flip the flag and answer its new value. */
    method ToggleMapFeature() returns (enabled: bool)
      modifies this`mapFeatureEnabled
      ensures mapFeatureEnabled == !old(mapFeatureEnabled) && enabled == mapFeatureEnabled
    {
      mapFeatureEnabled := !mapFeatureEnabled;
      enabled := mapFeatureEnabled;
    }

    /** `getMapFeatureStatus`: the current value, nothing changes. */
    method GetMapFeatureStatus() returns (enabled: bool)
      ensures enabled == mapFeatureEnabled
    {
      enabled := mapFeatureEnabled;
    }
  }
}
