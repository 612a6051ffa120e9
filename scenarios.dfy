/** Worked examples driven through the handlers of the user service. */
module Scenarios {
  import opened Common
  import opened UserSchema
  import opened Store
  import opened WordLedger
  import opened RosterQueries
  import opened UserController

  /** An administrator adds a user whose name and code need no trimming and
      whose code is free. */
  method Enrol(svc: UserService, name: string, code: string)
    requires svc.Valid()
    requires Present(name) && Trimmed(name) && Present(code) && Trimmed(code)
    requires forall id :: id in svc.users ==> svc.users[id].accessCode != code
    modifies svc
    ensures svc.Valid() && svc.nextId == old(svc.nextId) + 1
    ensures svc.order == old(svc.order) + [old(svc.nextId)]
    ensures svc.users == old(svc.users)[old(svc.nextId) := User(old(svc.nextId), name, code, false, "", [], false)]
  {
    TrimmedIffFixed(name);
    TrimmedIffFixed(code);
    var r := svc.AddUser(name, code);
  }

  /** Alice, Bob and Carol as enrolled, with Bob's entries `s`. */
  function Trio(s: seq<WordInput>): map<UserId, User> {
    map[0 := User(0, "Alice", "a", false, "", [], false),
        1 := User(1, "Bob", "b", false, "", s, false),
        2 := User(2, "Carol", "c", false, "", [], false)]
  }

  /** Replacing Bob's entries in the roster. */
  lemma TrioBob(s: seq<WordInput>, x: seq<WordInput>)
    ensures Trio(s)[1 := Trio(s)[1].(wordInputs := x)] == Trio(x)
  {
  }

  /** Carol's word map when Bob holds the one entry `w` about her. */
  lemma CarolsListing(w: string)
    ensures WordInputsFor([0, 1, 2], Trio([WordInput(Some(2), w)]), 2) ==
            [Submission(Summary(2, "Carol", ""), w, "Bob")]
  {
    var users, carol := Trio([WordInput(Some(2), w)]), Summary(2, "Carol", "");
    WordInputsForIsFlatten([0, 1, 2], users, 2);
    assert [0, 1, 2][1..] == [1, 2] && [1, 2][1..] == [2] && [2][1..] == [];
    assert Flatten([2], users, 2) == [] + Flatten([], users, 2);
    assert Flatten([1, 2], users, 2) == Picked([WordInput(Some(2), w)], 2, carol, "Bob") + [];
    assert Flatten([0, 1, 2], users, 2) == Picked([], 2, carol, "Alice") + Flatten([1, 2], users, 2);
  }

  /** Bob submits `w` about Carol through `addWordInput`; `s` is his list
      before, with no entry or one for Carol. */
  method Describe(svc: UserService, s: seq<WordInput>, w: string) returns (updated: bool)
    requires svc.Valid() && svc.order == [0, 1, 2] && svc.users == Trio(s)
    requires s == [] || (|s| == 1 && s[0].targetUser == Some(2))
    requires Present(w)
    modifies svc
    ensures svc.Valid() && svc.order == [0, 1, 2] && svc.users == Trio([WordInput(Some(2), w)])
    ensures updated == (s != [])
  {
    assert Find(s, 2) == (if s == [] then Miss else Hit(0));
    assert IndexOfTarget(s, 2) == (if s == [] then None else Some(0));
    var after := [WordInput(Some(2), w)];
    assert Upserted(s, 2, w) == after && WordsPresent(after);
    TrioBob(s, after);
    var r := svc.AddWordInput(1, 2, w);
    updated := r.WordInputSaved? && r.updated;
  }

  /** A fresh service after Alice, Bob and Carol were added in this order. */
  method ThreeUsers() returns (svc: UserService)
    ensures fresh(svc) && svc.Valid() && svc.order == [0, 1, 2] && svc.users == Trio([])
  {
    svc := new UserService();
    Enrol(svc, "Alice", "a");
    Enrol(svc, "Bob", "b");
    Enrol(svc, "Carol", "c");
  }

  /** Bob blanks his word about Carol through `updateWordInput`. */
  method Blank(svc: UserService, w: string) returns (r: Response)
    requires svc.Valid() && svc.order == [0, 1, 2] && svc.users == Trio([WordInput(Some(2), w)])
    modifies svc
    ensures svc.Valid() && svc.order == [0, 1, 2] && svc.users == Trio([WordInput(Some(2), "")])
    ensures r == Success
  {
    var s, blank := [WordInput(Some(2), w)], [WordInput(Some(2), "")];
    assert IndexOfTarget(s, 2) == Some(0) && SetWord(s, 0, "") == blank;
    TrioBob(s, blank);
    r := svc.UpdateWordInput(1, 2, "");
  }

  /** With his blank entry about Carol still stored, Bob describes Alice. */
  method DescribeAlice(svc: UserService) returns (r: Response)
    requires svc.Valid() && svc.order == [0, 1, 2] && svc.users == Trio([WordInput(Some(2), "")])
    modifies svc
    ensures svc.Valid() && svc.order == [0, 1, 2] && svc.users == Trio([WordInput(Some(2), "")])
    ensures r == BadRequest
  {
    var blank := [WordInput(Some(2), "")];
    assert IndexOfTarget(blank, 0) == None && Find(blank, 0) == Miss;
    assert Upserted(blank, 0, "x")[0].word == "";
    r := svc.AddWordInput(1, 0, "x");
  }

  /** Bob describes Carol, then describes her again: the first call adds an
      entry and Carol's word map shows that word; the second updates it and
      the map shows only the latest word. */
  method BobDescribesCarol(w1: string, w2: string)
      returns (updated1: bool, first: seq<Submission>, updated2: bool, second: seq<Submission>)
    requires Present(w1) && Present(w2)
    ensures !updated1 && first == [Submission(Summary(2, "Carol", ""), w1, "Bob")]
    ensures updated2 && second == [Submission(Summary(2, "Carol", ""), w2, "Bob")]
  {
    var svc := ThreeUsers();
    updated1 := Describe(svc, [], w1);
    first := WordInputsFor(svc.order, svc.users, 2);
    CarolsListing(w1);
    updated2 := Describe(svc, [WordInput(Some(2), w1)], w2);
    second := WordInputsFor(svc.order, svc.users, 2);
    CarolsListing(w2);
  }

  /** `updateWordInput` runs no validator and stores an empty word; every
      later `save` of Bob's document then fails, until `addWordInput` for the
      same target overwrites the empty entry. */
  method EmptyWordBlocksSaves() returns (cleared: Response, toggled: Response, other: Response, repaired: bool)
    ensures cleared == Success
    ensures toggled == BadRequest && other == BadRequest
    ensures repaired
  {
    var svc := ThreeUsers();
    var _ := Describe(svc, [], "kind");
    cleared := Blank(svc, "kind");
    var blank := [WordInput(Some(2), "")];
    assert !Present(blank[0].word);
    toggled := svc.ToggleWordMapVisibility(1);
    other := DescribeAlice(svc);
    repaired := Describe(svc, blank, "nice");
  }
}
