/** The per-user part of the word-input ledger in
    backend/controllers/userController.js: how `addWordInput` and
    `updateWordInput` locate and change an entry of the caller's `wordInputs`. */
module WordLedger {
  import opened Common
  import opened UserSchema

  /** Outcome of `wordInputs.find(input => input.targetUser.toString() === t)`:
      the first matching entry, none, or a TypeError because an entry without
      a target was reached before any match. */
  datatype Lookup = Hit(index: nat) | Miss | Throws

  function Find(s: seq<WordInput>, t: UserId): (r: Lookup)
    ensures r.Hit? ==> r.index < |s| && s[r.index].targetUser == Some(t)
    ensures !r.Throws? ==> forall k :: 0 <= k < (if r.Hit? then r.index else |s|) ==>
              s[k].targetUser.Some? && s[k].targetUser != Some(t)
    ensures r.Throws? ==>
      exists k :: 0 <= k < |s| && s[k].targetUser.None? && forall j :: 0 <= j < k ==> s[j].targetUser != Some(t)
  {
    if s == [] then Miss
    else if s[0].targetUser.None? then Throws
    else if s[0].targetUser == Some(t) then Hit(0)
    else
      match Find(s[1..], t)
      case Hit(i) => Hit(i + 1)
      case Miss => Miss
      case Throws =>
        var k :| 0 <= k < |s[1..]| && s[1..][k].targetUser.None? &&
                 forall j :: 0 <= j < k ==> s[1..][j].targetUser != Some(t);
        assert s[k + 1].targetUser.None?;
        Throws
  }

  /** The positional operator `wordInputs.$` of a filter on
      `'wordInputs.targetUser': t`: the index of the first entry whose target
      is `t`. Entries without a target simply do not match. */
  function IndexOfTarget(s: seq<WordInput>, t: UserId): (r: Option<nat>)
    ensures r.Some? ==> r.value < |s| && s[r.value].targetUser == Some(t)
    ensures forall k :: 0 <= k < (if r.Some? then r.value else |s|) ==> s[k].targetUser != Some(t)
  {
    if s == [] then None
    else if s[0].targetUser == Some(t) then Some(0)
    else
      match IndexOfTarget(s[1..], t)
      case Some(i) => Some(i + 1)
      case None => None
  }

  /** Where `find` does not throw, it stops at the same entry as the
      positional operator: both writes act on the first entry for `t`. */
  lemma FindAgreesWithPositional(s: seq<WordInput>, t: UserId)
    ensures Find(s, t).Hit? ==> IndexOfTarget(s, t) == Some(Find(s, t).index)
    ensures Find(s, t).Miss? ==> IndexOfTarget(s, t) == None
  {
  }

  /** `existingWordInput.word = w` / `$set: { 'wordInputs.$.word': w }`. */
  function SetWord(s: seq<WordInput>, i: nat, w: string): (r: seq<WordInput>)
    requires i < |s|
    ensures |r| == |s| && r[i] == WordInput(s[i].targetUser, w)
    ensures forall k :: 0 <= k < |s| && k != i ==> r[k] == s[k]
  {
    s[i := s[i].(word := w)]
  }

  /** The write `addWordInput` performs once validation has passed: overwrite
      the first entry for `t`, or append one at the end. */
  function Upserted(s: seq<WordInput>, t: UserId, w: string): (r: seq<WordInput>)
  {
    match IndexOfTarget(s, t)
    case Some(i) => SetWord(s, i, w)
    case None => s + [WordInput(Some(t), w)]
  }

  /** Every entry has a non-empty word. Saving a document runs the
      `required` validator of `word` on each of its `wordInputs`, the loaded
      ones included, so a save succeeds only when this holds. */
  predicate WordsPresent(s: seq<WordInput>) {
    forall k :: 0 <= k < |s| ==> Present(s[k].word)
  }

  /** The save after an upsert passes validation exactly when the new word is
      non-empty and so is every entry the upsert leaves untouched. */
  lemma UpsertedWordsPresent(s: seq<WordInput>, t: UserId, w: string)
    ensures WordsPresent(Upserted(s, t, w)) <==>
              Present(w) && forall k :: 0 <= k < |s| && Some(k) != IndexOfTarget(s, t) ==> Present(s[k].word)
  {
    UpsertedContents(s, t, w);
    var r := Upserted(s, t, w);
    if IndexOfTarget(s, t).None? {
      assert r[|s|].word == w;
    }
  }

  /** Number of entries whose target is `t`. */
  function Count(s: seq<WordInput>, t: UserId): (n: nat)
    ensures n <= |s|
  {
    if s == [] then 0
    else (if s[0].targetUser == Some(t) then 1 else 0) + Count(s[1..], t)
  }

  lemma {:induction false} CountZero(s: seq<WordInput>, t: UserId)
    ensures Count(s, t) == 0 <==> forall k :: 0 <= k < |s| ==> s[k].targetUser != Some(t)
  {
    if s != [] {
      CountZero(s[1..], t);
      assert forall k :: 1 <= k < |s| ==> s[k] == s[1..][k - 1];
    }
  }

  lemma {:induction false} CountAppend(s: seq<WordInput>, x: WordInput, t: UserId)
    ensures Count(s + [x], t) == Count(s, t) + (if x.targetUser == Some(t) then 1 else 0)
  {
    if s != [] {
      assert (s + [x])[1..] == s[1..] + [x];
      CountAppend(s[1..], x, t);
    }
  }

  /** Changing a word leaves the number of entries for every target alone. */
  lemma {:induction false} CountSetWord(s: seq<WordInput>, i: nat, w: string, t: UserId)
    requires i < |s|
    ensures Count(SetWord(s, i, w), t) == Count(s, t)
  {
    if i > 0 {
      assert SetWord(s, i, w)[1..] == SetWord(s[1..], i - 1, w);
      CountSetWord(s[1..], i - 1, w, t);
    }
  }

  /** With at most one entry per target, there is at most one for `t`. */
  lemma {:induction false} UniqueCountAtMostOne(s: seq<WordInput>, t: UserId)
    requires UniqueTargets(s)
    ensures Count(s, t) <= 1
  {
    if s != [] {
      assert UniqueTargets(s[1..]) by {
        forall i, j | 0 <= i < j < |s[1..]| && s[1..][i].targetUser.Some?
          ensures s[1..][i].targetUser != s[1..][j].targetUser
        {
          assert s[1..][i] == s[i + 1] && s[1..][j] == s[j + 1];
        }
      }
      UniqueCountAtMostOne(s[1..], t);
      if s[0].targetUser == Some(t) {
        CountZero(s[1..], t);
        forall k | 0 <= k < |s[1..]| ensures s[1..][k].targetUser != Some(t) {
          assert s[1..][k] == s[k + 1];
        }
      }
    }
  }

  /** After an upsert there is exactly one entry for `t` unless there were
      already several, in which case their number is unchanged. */
  lemma UpsertedCount(s: seq<WordInput>, t: UserId, w: string)
    ensures Count(Upserted(s, t, w), t) == if Count(s, t) == 0 then 1 else Count(s, t)
  {
    match IndexOfTarget(s, t)
    case Some(i) =>
      CountSetWord(s, i, w, t);
      if Count(s, t) == 0 {
        CountZero(s, t);
      }
    case None =>
      CountZero(s, t);
      CountAppend(s, WordInput(Some(t), w), t);
  }

  /** The first entry for `t` after an upsert holds the new word; no other
      entry changes, and only a missing entry makes the list grow, at the end. */
  lemma UpsertedContents(s: seq<WordInput>, t: UserId, w: string)
    ensures IndexOfTarget(Upserted(s, t, w), t).Some?
    ensures var r := Upserted(s, t, w); r[IndexOfTarget(r, t).value].word == w
    ensures |Upserted(s, t, w)| == |s| + (if IndexOfTarget(s, t).Some? then 0 else 1)
    ensures forall k :: 0 <= k < |s| && Some(k) != IndexOfTarget(s, t) ==> Upserted(s, t, w)[k] == s[k]
  {
    var r := Upserted(s, t, w);
    match IndexOfTarget(s, t)
    case Some(i) =>
      assert IndexOfTarget(r, t) == Some(i);
    case None =>
      assert r[|s|].targetUser == Some(t);
      assert IndexOfTarget(r, t) == Some(|s|);
  }

  /** An upsert keeps "at most one entry per target". */
  lemma UpsertedKeepsUnique(s: seq<WordInput>, t: UserId, w: string)
    requires UniqueTargets(s)
    ensures UniqueTargets(Upserted(s, t, w))
  {
  }

  /** Setting a word keeps "at most one entry per target". */
  lemma SetWordKeepsUnique(s: seq<WordInput>, i: nat, w: string)
    requires i < |s| && UniqueTargets(s)
    ensures UniqueTargets(SetWord(s, i, w))
  {
  }

  /** Last write wins: a second upsert for the same target yields what the
      second alone would have. */
  lemma UpsertTwice(s: seq<WordInput>, t: UserId, w1: string, w2: string)
    ensures Upserted(Upserted(s, t, w1), t, w2) == Upserted(s, t, w2)
  {
    var s1 := Upserted(s, t, w1);
    match IndexOfTarget(s, t)
    case Some(i) =>
      assert IndexOfTarget(s1, t) == Some(i);
    case None =>
      assert s1[|s|].targetUser == Some(t);
      assert IndexOfTarget(s1, t) == Some(|s|);
  }
}
