/** The record shapes of src/types, as values. */
module Types {
  import opened Wrappers

  /** A department as the bulk import sees it (its id and display name). */
  datatype Department = Department(id: string, name: string)

  /** One data row of an imported CSV file. */
  datatype ParsedUserRow = ParsedUserRow(name: string, department: string, rowNumber: nat)

  /** A row that failed validation, with its messages joined by "; ". */
  datatype InvalidRow = InvalidRow(row: ParsedUserRow, error: string)

  datatype ValidationResult = ValidationResult(valid: seq<ParsedUserRow>, invalid: seq<InvalidRow>)

  datatype User = User(id: string, name: string, department: string)

  /** A stored selection as the admin selections screen lists it. */
  datatype Selection = Selection(
    id: string, userName: string, department: string,
    mealName: string, mealDate: string, optedIn: bool)

  /** One user's entry in the staff draft; `optIn` is `null` until chosen. */
  datatype UserSelection = UserSelection(userId: string, optIn: Option<bool>)

  datatype Meal = Meal(id: string, name: string, description: string, menuId: string, createdAt: Option<string>)

  /** The three statuses a menu or an admin meal can have. */
  datatype Status = Active | Completed | Upcoming
  {
    /** The string the code stores and compares. */
    function Name(): string {
      match this
      case Active => "active"
      case Completed => "completed"
      case Upcoming => "upcoming"
    }
  }

  datatype AdminMeal = AdminMeal(id: string, name: string, date: string, deadline: string, status: Status)

  /** The fields of the add-meal form. */
  datatype MealData = MealData(
    menuDate: string, foodItemDescription: string,
    submissionDeadlineDate: string, submissionDeadlineTime: string)
}
