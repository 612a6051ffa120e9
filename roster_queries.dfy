/** The read-only handlers of backend/controllers/userController.js:
    `getWordInputs`, `getAllUsers` and `getAvailableUsers`, as functions of
    the roster. */
module RosterQueries {
  import opened Common
  import opened UserSchema
  import opened Store
  import opened WordLedger

  /** One element of the `getWordInputs` response: the populated entry
      (`...input.toObject()`) tagged with `submittedBy`. */
  datatype Submission = Submission(targetUser: Summary, word: string, submittedBy: string)

  /** The filter `'wordInputs.targetUser': t` of the query. */
  predicate Mentions(u: User, t: UserId) {
    exists k :: 0 <= k < |u.wordInputs| && u.wordInputs[k].targetUser == Some(t)
  }

  /** `.filter(...)` then `.map(...)` over one user's populated entries: keep
      those whose populated target is non-null and has id `t`. */
  function Matching(shown: seq<ShownInput>, t: UserId, author: string): (r: seq<Submission>)
    ensures forall k :: 0 <= k < |r| ==> r[k].targetUser.id == t && r[k].submittedBy == author
  {
    if shown == [] then []
    else
      var x := shown[0];
      (if x.targetUser.Some? && x.targetUser.value.id == t
       then [Submission(x.targetUser.value, x.word, author)] else [])
      + Matching(shown[1..], t, author)
  }

  /** What one document found by the query adds to the accumulator. */
  function UserInputs(users: map<UserId, User>, id: UserId, t: UserId): seq<Submission> {
    if id in users && Mentions(users[id], t)
    then Matching(Populate(users, users[id].wordInputs), t, users[id].name)
    else []
  }

  /** `users.reduce((inputs, user) => [...inputs, ...userInputs], [])`. */
  function Reduce(acc: seq<Submission>, ids: seq<UserId>, users: map<UserId, User>, t: UserId): seq<Submission>
    decreases |ids|
  {
    if ids == [] then acc
    else Reduce(acc + UserInputs(users, ids[0], t), ids[1..], users, t)
  }

  /** `getWordInputs(t)`: the response body. */
  function WordInputsFor(order: seq<UserId>, users: map<UserId, User>, t: UserId): seq<Submission> {
    Reduce([], order, users, t)
  }

  // ---- Reference definition: flatten, in roster order, each user's entries for t ----

  /** The entries of `s` that target `t`, in array order, as submissions. */
  function Picked(s: seq<WordInput>, t: UserId, target: Summary, author: string): (r: seq<Submission>)
    ensures |r| == Count(s, t)
    ensures forall k :: 0 <= k < |r| ==> r[k].targetUser == target && r[k].submittedBy == author
  {
    if s == [] then []
    else (if s[0].targetUser == Some(t) then [Submission(target, s[0].word, author)] else [])
         + Picked(s[1..], t, target, author)
  }

  /** What the documented behaviour promises: for an existing target, the
      concatenation over the roster of each user's entries for it. */
  function Flatten(ids: seq<UserId>, users: map<UserId, User>, t: UserId): seq<Submission> {
    if ids == [] then []
    else
      (if ids[0] in users && t in users
       then Picked(users[ids[0]].wordInputs, t, SummaryOf(users[t]), users[ids[0]].name) else [])
      + Flatten(ids[1..], users, t)
  }

  /** Documents carry their own key as id. */
  ghost predicate SelfIds(users: map<UserId, User>) {
    forall id :: id in users ==> users[id].id == id
  }

  /** The populated filter keeps exactly the entries for an existing `t`. */
  lemma {:induction false} MatchingIsPicked(users: map<UserId, User>, s: seq<WordInput>, t: UserId, author: string)
    requires SelfIds(users)
    ensures Matching(Populate(users, s), t, author) ==
            if t in users then Picked(s, t, SummaryOf(users[t]), author) else []
  {
    if s != [] {
      assert Populate(users, s)[1..] == Populate(users, s[1..]);
      MatchingIsPicked(users, s[1..], t, author);
    }
  }

  lemma {:induction false} PickedEmpty(s: seq<WordInput>, t: UserId, target: Summary, author: string)
    requires forall k :: 0 <= k < |s| ==> s[k].targetUser != Some(t)
    ensures Picked(s, t, target, author) == []
  {
    if s != [] {
      PickedEmpty(s[1..], t, target, author);
    }
  }

  /** One document's share of the reduce is its share of the reference
      concatenation. */
  lemma UserInputsIsContribution(users: map<UserId, User>, id: UserId, t: UserId)
    requires SelfIds(users)
    ensures UserInputs(users, id, t) ==
            if id in users && t in users
            then Picked(users[id].wordInputs, t, SummaryOf(users[t]), users[id].name) else []
  {
    if id in users {
      if Mentions(users[id], t) {
        MatchingIsPicked(users, users[id].wordInputs, t, users[id].name);
      } else if t in users {
        PickedEmpty(users[id].wordInputs, t, SummaryOf(users[t]), users[id].name);
      }
    }
  }

  lemma {:induction false} ReduceIsFlatten(acc: seq<Submission>, ids: seq<UserId>, users: map<UserId, User>, t: UserId)
    requires SelfIds(users)
    ensures Reduce(acc, ids, users, t) == acc + Flatten(ids, users, t)
    decreases |ids|
  {
    if ids != [] {
      var x := UserInputs(users, ids[0], t);
      UserInputsIsContribution(users, ids[0], t);
      ReduceIsFlatten(acc + x, ids[1..], users, t);
      assert (acc + x) + Flatten(ids[1..], users, t) == acc + (x + Flatten(ids[1..], users, t));
    }
  }

  /** `getWordInputs(t)` is the roster-ordered concatenation of every user's
      entries for `t`, each tagged with its author's name; a target that is
      not (or no longer) in the roster gets an empty list. */
  lemma WordInputsForIsFlatten(order: seq<UserId>, users: map<UserId, User>, t: UserId)
    requires SelfIds(users)
    ensures WordInputsFor(order, users, t) == Flatten(order, users, t)
    ensures t !in users ==> WordInputsFor(order, users, t) == []
  {
    ReduceIsFlatten([], order, users, t);
    if t !in users {
      FlattenAbsentTarget(order, users, t);
    }
  }

  lemma {:induction false} FlattenAbsentTarget(ids: seq<UserId>, users: map<UserId, User>, t: UserId)
    requires t !in users
    ensures Flatten(ids, users, t) == []
  {
    if ids != [] {
      FlattenAbsentTarget(ids[1..], users, t);
    }
  }

  // ---- One entry per submitter ----

  /** The users, in roster order, that hold an entry for `t`. */
  function Submitters(ids: seq<UserId>, users: map<UserId, User>, t: UserId): (r: seq<UserId>)
    ensures forall k :: 0 <= k < |r| ==> r[k] in users && IndexOfTarget(users[r[k]].wordInputs, t).Some?
  {
    if ids == [] then []
    else
      (if ids[0] in users && IndexOfTarget(users[ids[0]].wordInputs, t).Some? then [ids[0]] else [])
      + Submitters(ids[1..], users, t)
  }

  /** The one submission a user with an entry for `t` contributes. */
  function Said(users: map<UserId, User>, id: UserId, t: UserId): Submission
    requires id in users && t in users && IndexOfTarget(users[id].wordInputs, t).Some?
  {
    var s := users[id].wordInputs;
    Submission(SummaryOf(users[t]), s[IndexOfTarget(s, t).value].word, users[id].name)
  }

  lemma {:induction false} PickedUnique(s: seq<WordInput>, t: UserId, target: Summary, author: string)
    requires UniqueTargets(s)
    ensures Picked(s, t, target, author) ==
            match IndexOfTarget(s, t)
            case Some(i) => [Submission(target, s[i].word, author)]
            case None => []
  {
    if s != [] {
      if s[0].targetUser == Some(t) {
        assert forall k :: 0 <= k < |s[1..]| ==> s[1..][k] == s[k + 1];
        PickedEmpty(s[1..], t, target, author);
      } else {
        assert UniqueTargets(s[1..]) by {
          assert forall k :: 0 <= k < |s[1..]| ==> s[1..][k] == s[k + 1];
        }
        PickedUnique(s[1..], t, target, author);
        if IndexOfTarget(s[1..], t).None? {
          PickedEmpty(s[1..], t, target, author);
        }
      }
    }
  }

  lemma {:induction false} FlattenBySubmitters(ids: seq<UserId>, users: map<UserId, User>, t: UserId)
    requires t in users
    requires forall id :: id in users ==> UniqueTargets(users[id].wordInputs)
    ensures var r, who := Flatten(ids, users, t), Submitters(ids, users, t);
            |r| == |who| && forall k :: 0 <= k < |r| ==> r[k] == Said(users, who[k], t)
  {
    if ids != [] {
      FlattenBySubmitters(ids[1..], users, t);
      var id := ids[0];
      if id in users {
        PickedUnique(users[id].wordInputs, t, SummaryOf(users[t]), users[id].name);
      }
    }
  }

  /** On a well-formed roster, `getWordInputs(t)` holds one submission per
      user who has an entry for `t`, in roster order, carrying that entry's
      word and the user's name. */
  lemma WordInputsForOnePerSubmitter(order: seq<UserId>, users: map<UserId, User>, t: UserId)
    requires RosterOk(order, users) && t in users
    ensures var r, who := WordInputsFor(order, users, t), Submitters(order, users, t);
            |r| == |who| && forall k :: 0 <= k < |r| ==> r[k] == Said(users, who[k], t)
  {
    WordInputsForIsFlatten(order, users, t);
    FlattenBySubmitters(order, users, t);
  }

  // ---- Listings ----

  /** `User.find(filter, '-accessCode').populate(...)` in natural order, where
      the filter is `{}` (skip = None) or `{ _id: { $ne: c } }` (skip = Some(c)). */
  function Listed(ids: seq<UserId>, users: map<UserId, User>, skip: Option<UserId>): (r: seq<UserView>)
    ensures forall k :: 0 <= k < |r| ==> r[k].accessCode.None? && Some(r[k].id) != skip
  {
    if ids == [] then []
    else
      (if ids[0] in users && Some(users[ids[0]].id) != skip
       then [View(users, users[ids[0]], false)] else [])
      + Listed(ids[1..], users, skip)
  }

  /** `getAllUsers`: every document without its access code. */
  function AllUsers(order: seq<UserId>, users: map<UserId, User>): (r: seq<UserView>)
    ensures forall k :: 0 <= k < |r| ==> r[k].accessCode.None?
  {
    Listed(order, users, None)
  }

  /** `getAvailableUsers(c)`: the caller's own document, fetched WITH its
      access code (null if it no longer exists), then every other document
      without. */
  function AvailableUsers(order: seq<UserId>, users: map<UserId, User>, c: UserId): (r: seq<Option<UserView>>)
    ensures |r| >= 1
    ensures r[0] == if c in users then Some(View(users, users[c], true)) else None
    ensures forall k :: 1 <= k < |r| ==> r[k].Some? && r[k].value.id != c && r[k].value.accessCode.None?
  {
    [if c in users then Some(View(users, users[c], true)) else None] + Found(Listed(order, users, Some(c)))
  }

  /** Documents a query did find, as possibly-null results. */
  function Found(vs: seq<UserView>): (r: seq<Option<UserView>>)
    ensures |r| == |vs| && forall k :: 0 <= k < |vs| ==> r[k] == Some(vs[k])
  {
    if vs == [] then [] else [Some(vs[0])] + Found(vs[1..])
  }

  /** The ids a listing keeps, in natural order. */
  function Kept(ids: seq<UserId>, skip: Option<UserId>): (r: seq<UserId>)
    ensures forall x :: x in r <==> x in ids && Some(x) != skip
    ensures Distinct(ids) ==> Distinct(r)
  {
    if skip.Some? then Removed(ids, skip.value) else ids
  }

  /** The projected views of the documents `ids`, in that order. */
  function ViewsOf(users: map<UserId, User>, ids: seq<UserId>): (r: seq<UserView>)
    requires forall id :: id in ids ==> id in users
    ensures |r| == |ids| && forall k :: 0 <= k < |ids| ==> r[k] == View(users, users[ids[k]], false)
  {
    if ids == [] then [] else [View(users, users[ids[0]], false)] + ViewsOf(users, ids[1..])
  }

  /** When documents carry their own key as id, the `$ne` filter on `_id`
      drops exactly the skipped key. */
  lemma {:induction false} ListedIsViewsOfKept(ids: seq<UserId>, users: map<UserId, User>, skip: Option<UserId>)
    requires forall id :: id in ids ==> id in users && users[id].id == id
    ensures Listed(ids, users, skip) == ViewsOf(users, Kept(ids, skip))
  {
    if ids != [] {
      ListedIsViewsOfKept(ids[1..], users, skip);
      if skip.Some? && ids[0] != skip.value {
        assert Kept(ids, skip) == [ids[0]] + Kept(ids[1..], skip);
      }
    }
  }

  /** `getAllUsers` on a well-formed roster: the projected view of every
      document, each exactly once, in natural order. */
  lemma AllUsersExactlyOnce(order: seq<UserId>, users: map<UserId, User>)
    requires RosterOk(order, users)
    ensures var r := AllUsers(order, users);
      && |r| == |order|
      && (forall k :: 0 <= k < |r| ==> r[k] == View(users, users[order[k]], false) && r[k].id == order[k])
      && Distinct(order) && (forall id :: id in order <==> id in users)
  {
    ListedIsViewsOfKept(order, users, None);
  }

  /** `getAvailableUsers(c)` on a well-formed roster: after the caller's own
      record come the projected views of exactly the other documents, each
      once, in natural order. */
  lemma AvailableUsersExactlyOnce(order: seq<UserId>, users: map<UserId, User>, c: UserId)
    requires RosterOk(order, users)
    ensures var r, others := AvailableUsers(order, users, c), Kept(order, Some(c));
      && |r| == |others| + 1
      && (forall k :: 0 <= k < |others| ==>
            others[k] in users && r[k + 1] == Some(View(users, users[others[k]], false)) && r[k + 1].value.id == others[k])
      && Distinct(others) && (forall id :: id in others <==> id in users && id != c)
  {
    ListedIsViewsOfKept(order, users, Some(c));
  }

}
