/**
 * The helpers of the admin meals screen: the search-and-status filter
 * (`filterMeals`), the status badge colour (`getStatusColor`) and the record
 * a new meal starts as (`createNewMeal`).
 */
module ManageMeals {
  import opened Seqs
  import opened Text
  import opened Types

  /** The meal's name contains the query, both lower-cased, and its status passes the filter. */
  function MealKeeps(searchQuery: string, statusFilter: string): AdminMeal -> bool {
    (m: AdminMeal) => Contains(ToLower(m.name), ToLower(searchQuery)) && (statusFilter == "All" || m.status.Name() == statusFilter)
  }

  /** `filterMeals`: the meals whose name matches and whose status passes, in order. */
  function FilterMeals(meals: seq<AdminMeal>, searchQuery: string, statusFilter: string): (r: seq<AdminMeal>)
    ensures |r| <= |meals|
    ensures forall k :: 0 <= k < |r| ==>
      Contains(ToLower(r[k].name), ToLower(searchQuery)) && (statusFilter == "All" || r[k].status.Name() == statusFilter)
  {
    Filter(MealKeeps(searchQuery, statusFilter), meals)
  }

  /** The result keeps input order and invents nothing; each kept meal passes both tests. */
  lemma FilterMealsSubsequence(meals: seq<AdminMeal>, searchQuery: string, statusFilter: string)
    ensures IsSubsequence(FilterMeals(meals, searchQuery, statusFilter), meals)
    ensures forall m :: m in FilterMeals(meals, searchQuery, statusFilter) <==>
      && m in meals
      && Contains(ToLower(m.name), ToLower(searchQuery))
      && (statusFilter == "All" || m.status.Name() == statusFilter)
  {
    FilterIsSubsequence(MealKeeps(searchQuery, statusFilter), meals);
    FilterMembers(MealKeeps(searchQuery, statusFilter), meals);
  }

  /** The empty query with "All" keeps every meal. */
  lemma FilterMealsNoFilter(meals: seq<AdminMeal>)
    ensures FilterMeals(meals, "", "All") == meals
  {
    forall i | 0 <= i < |meals| ensures MealKeeps("", "All")(meals[i]) {
      assert OccursAt(ToLower(meals[i].name), "", 0);
    }
    FilterKeepsAll(MealKeeps("", "All"), meals);
  }

  /** Any filter but "All" keeps only meals with exactly that status. */
  lemma FilterMealsStatus(meals: seq<AdminMeal>, searchQuery: string, statusFilter: string)
    requires statusFilter != "All"
    ensures forall k :: 0 <= k < |FilterMeals(meals, searchQuery, statusFilter)| ==>
      FilterMeals(meals, searchQuery, statusFilter)[k].status.Name() == statusFilter
  {
  }

  lemma FilterMealsIdempotent(meals: seq<AdminMeal>, searchQuery: string, statusFilter: string)
    ensures FilterMeals(FilterMeals(meals, searchQuery, statusFilter), searchQuery, statusFilter)
         == FilterMeals(meals, searchQuery, statusFilter)
  {
    FilterIdempotent(MealKeeps(searchQuery, statusFilter), meals);
  }

  const GreenBadge := "bg-green-100 text-green-800"
  const BlueBadge := "bg-blue-100 text-blue-800"
  const GrayBadge := "bg-gray-100 text-gray-800"

  /** `getStatusColor`: green for "active", blue for "upcoming", gray for "completed" and for anything else. */
  function GetStatusColor(status: string): (r: string)
    ensures r == GreenBadge <==> status == "active"
    ensures r == BlueBadge <==> status == "upcoming"
    ensures r == GrayBadge <==> status != "active" && status != "upcoming"
  {
    match status
    case "active" => GreenBadge
    case "completed" => GrayBadge
    case "upcoming" => BlueBadge
    case _ => GrayBadge
  }

  /** `createNewMeal`: the next id, the form's description and date, the combined deadline, "upcoming". */
  function CreateNewMeal(mealData: MealData, existingMeals: seq<AdminMeal>): (r: AdminMeal)
    ensures (forall i :: 0 <= i < |r.id| ==> IsDigit(r.id[i])) && ParseDecimal(r.id) == |existingMeals| + 1
    ensures |r.id| >= 1 && r.id[0] != '0'
    ensures r.name == mealData.foodItemDescription && r.date == mealData.menuDate
    ensures r.status == Upcoming && r.status.Name() == "upcoming"
    ensures |r.deadline| == |mealData.submissionDeadlineDate| + 1 + |mealData.submissionDeadlineTime|
    ensures r.deadline[..|mealData.submissionDeadlineDate|] == mealData.submissionDeadlineDate
    ensures r.deadline[|mealData.submissionDeadlineDate|] == ' '
    ensures r.deadline[|mealData.submissionDeadlineDate| + 1..] == mealData.submissionDeadlineTime
  {
    ParseNatToString(|existingMeals| + 1);
    AdminMeal(
      NatToString(|existingMeals| + 1),
      mealData.foodItemDescription,
      mealData.menuDate,
      mealData.submissionDeadlineDate + " " + mealData.submissionDeadlineTime,
      Upcoming)
  }

  /** Lists of different lengths give new meals different ids. */
  lemma NewMealIdsDiffer(mealData: MealData, meals: seq<AdminMeal>, otherData: MealData, otherMeals: seq<AdminMeal>)
    requires |meals| != |otherMeals|
    ensures CreateNewMeal(mealData, meals).id != CreateNewMeal(otherData, otherMeals).id
  {
  }
}
