/**
 * The helpers of the admin selections screen: the meal drop-down
 * (`getUniqueMeals`), the three-way filter (`filterSelections`) and the
 * opted-in / skipped tally (`getSelectionCounts`).
 */
module ViewSelections {
  import opened Seqs
  import opened Text
  import opened Types

  /** The sentinel that heads the meal drop-down and means "no meal filter". */
  const AllMeals := "All Meals"

  function MealName(s: Selection): string {
    s.mealName
  }

  /** `['All Meals', ...Array.from(new Set(selections.map(s => s.mealName)))]`. */
  function GetUniqueMeals(selections: seq<Selection>): (r: seq<string>)
    ensures |r| >= 1 && r[0] == AllMeals
    ensures forall i :: 1 <= i < |r| ==> r[i] in Map(MealName, selections)
    ensures forall i, j :: 1 <= i < j < |r| ==> r[i] != r[j]
  {
    [AllMeals] + Distinct(Map(MealName, selections))
  }

  /** Every meal name of the input is offered after the sentinel. */
  lemma UniqueMealsComplete(selections: seq<Selection>)
    ensures forall k :: 0 <= k < |selections| ==> selections[k].mealName in GetUniqueMeals(selections)[1..]
  {
    var names := Map(MealName, selections);
    DistinctComplete(names);
    assert GetUniqueMeals(selections)[1..] == Distinct(names);
    forall k | 0 <= k < |selections| ensures selections[k].mealName in Distinct(names) {
      assert names[k] == selections[k].mealName;
    }
  }

  /** The names after the sentinel come in the order in which they first occur. */
  lemma UniqueMealsOrder(selections: seq<Selection>)
    ensures forall i, j :: 1 <= i < j < |GetUniqueMeals(selections)| ==>
      FirstIndex(Map(MealName, selections), GetUniqueMeals(selections)[i])
        < FirstIndex(Map(MealName, selections), GetUniqueMeals(selections)[j])
  {
    var names := Map(MealName, selections);
    var d := Distinct(names);
    var r := GetUniqueMeals(selections);
    assert r == [AllMeals] + d;
    DistinctInFirstOccurrenceOrder(names);
    forall i, j | 1 <= i < j < |r| ensures FirstIndex(names, r[i]) < FirstIndex(names, r[j]) {
      assert r[i] == d[i - 1] && r[j] == d[j - 1];
    }
  }

  /** Either field contains the query, both lower-cased. */
  function MatchesSearch(s: Selection, searchQuery: string): (r: bool)
    ensures searchQuery == "" ==> r
    ensures r ==> |searchQuery| <= |s.userName| || |searchQuery| <= |s.department|
  {
    assert searchQuery == "" ==> OccursAt(ToLower(s.userName), ToLower(searchQuery), 0);
    || Contains(ToLower(s.userName), ToLower(searchQuery))
    || Contains(ToLower(s.department), ToLower(searchQuery))
  }

  /** "All Meals" keeps everything; any other value keeps exactly that meal. */
  function MatchesMeal(s: Selection, mealFilter: string): (r: bool)
    ensures mealFilter == AllMeals ==> r
    ensures mealFilter != AllMeals ==> (r <==> s.mealName == mealFilter)
  {
    mealFilter == AllMeals || s.mealName == mealFilter
  }

  /** "All" keeps everything, "Yes" the opted-in, "No" the opted-out; any other value nothing. */
  function MatchesStatus(s: Selection, statusFilter: string): (r: bool)
    ensures statusFilter == "All" ==> r
    ensures statusFilter == "Yes" ==> (r <==> s.optedIn)
    ensures statusFilter == "No" ==> (r <==> !s.optedIn)
    ensures statusFilter != "All" && statusFilter != "Yes" && statusFilter != "No" ==> !r
  {
    || statusFilter == "All"
    || (statusFilter == "Yes" && s.optedIn)
    || (statusFilter == "No" && !s.optedIn)
  }

  /** The predicate `filterSelections` passes to `filter`. */
  function Keeps(searchQuery: string, mealFilter: string, statusFilter: string): Selection -> bool {
    s => MatchesSearch(s, searchQuery) && MatchesMeal(s, mealFilter) && MatchesStatus(s, statusFilter)
  }

  /** `filterSelections`: the selections that pass the search, the meal and the status test, in order. */
  function FilterSelections(selections: seq<Selection>, searchQuery: string, mealFilter: string, statusFilter: string): (r: seq<Selection>)
    ensures |r| <= |selections|
    ensures forall k :: 0 <= k < |r| ==>
      MatchesSearch(r[k], searchQuery) && MatchesMeal(r[k], mealFilter) && MatchesStatus(r[k], statusFilter)
  {
    Filter(Keeps(searchQuery, mealFilter, statusFilter), selections)
  }

  /** The result keeps input order and invents nothing. */
  lemma FilterSelectionsSubsequence(selections: seq<Selection>, searchQuery: string, mealFilter: string, statusFilter: string)
    ensures IsSubsequence(FilterSelections(selections, searchQuery, mealFilter, statusFilter), selections)
  {
    FilterIsSubsequence(Keeps(searchQuery, mealFilter, statusFilter), selections);
  }

  /**
   * A selection is in the result exactly when it is in the input, its user
   * name or department contains the query case-insensitively, it names the
   * chosen meal (unless "All Meals") and its status passes.
   */
  lemma FilterSelectionsMembers(selections: seq<Selection>, searchQuery: string, mealFilter: string, statusFilter: string)
    ensures forall s :: s in FilterSelections(selections, searchQuery, mealFilter, statusFilter) <==>
      && s in selections
      && (Contains(ToLower(s.userName), ToLower(searchQuery)) || Contains(ToLower(s.department), ToLower(searchQuery)))
      && (mealFilter == AllMeals || s.mealName == mealFilter)
      && MatchesStatus(s, statusFilter)
  {
    FilterMembers(Keeps(searchQuery, mealFilter, statusFilter), selections);
  }

  /** The empty query, "All Meals" and "All" leave the list as it is. */
  lemma FilterSelectionsNoFilter(selections: seq<Selection>)
    ensures FilterSelections(selections, "", AllMeals, "All") == selections
  {
    var p := Keeps("", AllMeals, "All");
    forall i | 0 <= i < |selections| ensures p(selections[i]) {
      assert OccursAt(ToLower(selections[i].userName), "", 0);
    }
    FilterKeepsAll(p, selections);
  }

  /** "Yes" gives only opted-in selections, "No" only opted-out ones, anything but "All" else nothing. */
  lemma FilterSelectionsStatus(selections: seq<Selection>, searchQuery: string, mealFilter: string, statusFilter: string)
    ensures var r := FilterSelections(selections, searchQuery, mealFilter, statusFilter);
      && (statusFilter == "Yes" ==> forall k :: 0 <= k < |r| ==> r[k].optedIn)
      && (statusFilter == "No" ==> forall k :: 0 <= k < |r| ==> !r[k].optedIn)
      && (statusFilter !in ["All", "Yes", "No"] ==> r == [])
  {
    var p := Keeps(searchQuery, mealFilter, statusFilter);
    if statusFilter !in ["All", "Yes", "No"] {
      FilterDropsAll(p, selections);
    }
  }

  /** Filtering the result again with the same arguments changes nothing. */
  lemma FilterSelectionsIdempotent(selections: seq<Selection>, searchQuery: string, mealFilter: string, statusFilter: string)
    ensures var once := FilterSelections(selections, searchQuery, mealFilter, statusFilter);
      FilterSelections(once, searchQuery, mealFilter, statusFilter) == once
  {
    FilterIdempotent(Keeps(searchQuery, mealFilter, statusFilter), selections);
  }

  datatype SelectionCounts = SelectionCounts(optedInCount: nat, skippedCount: nat)

  predicate IsOptedIn(s: Selection) {
    s.optedIn
  }

  predicate IsSkipped(s: Selection) {
    !s.optedIn
  }

  /** `getSelectionCounts`: the two counts always add up to the number of selections. */
  function GetSelectionCounts(selections: seq<Selection>): (r: SelectionCounts)
    ensures r.optedInCount + r.skippedCount == |selections|
  {
    FilterComplement(IsOptedIn, IsSkipped, selections);
    SelectionCounts(|Filter(IsOptedIn, selections)|, |Filter(IsSkipped, selections)|)
  }

  /** The counts are the sizes of the "Yes" and "No" views of the unfiltered list. */
  lemma CountsMatchStatusFilter(selections: seq<Selection>)
    ensures GetSelectionCounts(selections).optedInCount == |FilterSelections(selections, "", AllMeals, "Yes")|
    ensures GetSelectionCounts(selections).skippedCount == |FilterSelections(selections, "", AllMeals, "No")|
  {
    forall i | 0 <= i < |selections|
      ensures IsOptedIn(selections[i]) == Keeps("", AllMeals, "Yes")(selections[i])
      ensures IsSkipped(selections[i]) == Keeps("", AllMeals, "No")(selections[i])
    {
      assert OccursAt(ToLower(selections[i].userName), "", 0);
    }
    FilterExtensional(IsOptedIn, Keeps("", AllMeals, "Yes"), selections);
    FilterExtensional(IsSkipped, Keeps("", AllMeals, "No"), selections);
  }
}
