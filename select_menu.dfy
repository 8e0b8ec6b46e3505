/**
 * The per-user opt-in draft of the staff wizard: starting the draft
 * (`initializeUserSelections`), recording one user's choice
 * (`updateUserSelection`), the completeness check
 * (`areAllSelectionsComplete`) and the meal shown for tomorrow
 * (`getTomorrowMeal`).
 */
module SelectMenu {
  import opened Wrappers
  import opened Seqs
  import opened Types

  /** The entry with its choice replaced when it belongs to the user, otherwise as it was. */
  function Choose(userId: string, optIn: Option<bool>): UserSelection -> UserSelection {
    (s: UserSelection) => if s.userId == userId then s.(optIn := optIn) else s
  }

  /** `updateUserSelection`: every entry of the user gets the new choice; the others stay. */
  function UpdateUserSelection(userSelections: seq<UserSelection>, userId: string, optIn: Option<bool>): (r: seq<UserSelection>)
    ensures |r| == |userSelections|
    ensures forall i :: 0 <= i < |r| ==> r[i].userId == userSelections[i].userId
    ensures forall i :: 0 <= i < |r| && userSelections[i].userId == userId ==> r[i].optIn == optIn
    ensures forall i :: 0 <= i < |r| && userSelections[i].userId != userId ==> r[i] == userSelections[i]
  {
    Map(Choose(userId, optIn), userSelections)
  }

  /** Recording the same choice twice is recording it once. */
  lemma UpdateIdempotent(userSelections: seq<UserSelection>, userId: string, optIn: Option<bool>)
    ensures var once := UpdateUserSelection(userSelections, userId, optIn);
      UpdateUserSelection(once, userId, optIn) == once
  {
  }

  /** Choices of two different users can be recorded in either order. */
  lemma UpdatesCommute(userSelections: seq<UserSelection>, u: string, a: Option<bool>, v: string, b: Option<bool>)
    requires u != v
    ensures UpdateUserSelection(UpdateUserSelection(userSelections, u, a), v, b)
         == UpdateUserSelection(UpdateUserSelection(userSelections, v, b), u, a)
  {
  }

  /** The later of two choices for the same user wins. */
  lemma UpdateOverrides(userSelections: seq<UserSelection>, userId: string, a: Option<bool>, b: Option<bool>)
    ensures UpdateUserSelection(UpdateUserSelection(userSelections, userId, a), userId, b)
         == UpdateUserSelection(userSelections, userId, b)
  {
  }

  function Unchosen(user: User): UserSelection {
    UserSelection(user.id, None)
  }

  /** `initializeUserSelections`: one entry per user, in order, none chosen yet. */
  function InitializeUserSelections(users: seq<User>): (r: seq<UserSelection>)
    ensures |r| == |users|
    ensures forall i :: 0 <= i < |r| ==> r[i].userId == users[i].id && r[i].optIn == None
  {
    Map(Unchosen, users)
  }

  predicate IsChosen(s: UserSelection) {
    s.optIn != None
  }

  /** `areAllSelectionsComplete`: no entry is still `null`. */
  function AreAllSelectionsComplete(userSelections: seq<UserSelection>): (r: bool)
    ensures r <==> forall i :: 0 <= i < |userSelections| ==> userSelections[i].optIn.Some?
  {
    Every(IsChosen, userSelections)
  }

  /** A fresh draft for at least one user is incomplete; the empty draft is complete. */
  lemma FreshDraftIncomplete(users: seq<User>)
    ensures AreAllSelectionsComplete(InitializeUserSelections(users)) <==> users == []
  {
    if users != [] {
      assert InitializeUserSelections(users)[0].optIn == None;
    }
  }

  /** A complete draft stays complete under a real choice, and a `null` choice for a listed user undoes it. */
  lemma UpdateAndCompleteness(userSelections: seq<UserSelection>, userId: string, optIn: Option<bool>)
    ensures optIn.Some? && AreAllSelectionsComplete(userSelections) ==>
      AreAllSelectionsComplete(UpdateUserSelection(userSelections, userId, optIn))
    ensures optIn == None && (exists i :: 0 <= i < |userSelections| && userSelections[i].userId == userId) ==>
      !AreAllSelectionsComplete(UpdateUserSelection(userSelections, userId, optIn))
  {
  }

  /** Choosing for every user of a fresh draft completes it. */
  lemma ChoosingEveryoneCompletes(users: seq<User>, choices: seq<bool>)
    requires |choices| == |users|
    ensures AreAllSelectionsComplete(ChooseAll(InitializeUserSelections(users), users, choices))
  {
    ChooseAllChooses(InitializeUserSelections(users), users, choices);
  }

  /** Records choices[k] for users[k], one user after the other. */
  function ChooseAll(draft: seq<UserSelection>, users: seq<User>, choices: seq<bool>): seq<UserSelection>
    requires |choices| == |users|
    decreases |users|
  {
    if users == [] then draft
    else UpdateUserSelection(ChooseAll(draft, DropLast(users), DropLast(choices)), Last(users).id, Some(Last(choices)))
  }

  lemma {:induction false} ChooseAllChooses(draft: seq<UserSelection>, users: seq<User>, choices: seq<bool>)
    requires |choices| == |users|
    ensures |ChooseAll(draft, users, choices)| == |draft|
    ensures forall i :: 0 <= i < |draft| ==> ChooseAll(draft, users, choices)[i].userId == draft[i].userId
    ensures forall i :: 0 <= i < |draft| && draft[i].optIn.Some? ==> ChooseAll(draft, users, choices)[i].optIn.Some?
    ensures forall i, k :: 0 <= i < |draft| && 0 <= k < |users| && draft[i].userId == users[k].id ==>
      ChooseAll(draft, users, choices)[i].optIn.Some?
    decreases |users|
  {
    if users != [] {
      ChooseAllChooses(draft, DropLast(users), DropLast(choices));
      forall i, k | 0 <= i < |draft| && 0 <= k < |users| && draft[i].userId == users[k].id
        ensures ChooseAll(draft, users, choices)[i].optIn.Some?
      {
        if k < |users| - 1 {
          assert DropLast(users)[k] == users[k];
        }
      }
    }
  }

  const TomorrowMealName := "Rice with Chicken Curry"

  /** `getTomorrowMeal`: the first meal with only its name replaced. */
  function GetTomorrowMeal(meals: seq<Meal>): (r: Meal)
    requires |meals| > 0
    ensures r.name == TomorrowMealName
    ensures r.id == meals[0].id && r.description == meals[0].description
    ensures r.menuId == meals[0].menuId && r.createdAt == meals[0].createdAt
  {
    meals[0].(name := TomorrowMealName)
  }
}
