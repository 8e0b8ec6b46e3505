# Canteen meal opt-in: the synchronous logic, modelled and proved

This project models the pure and stateful logic of the canteen meal opt-in
web application, without its React pages or its Supabase queries. It covers:

- **The CSV bulk import of users** (`src/utils/bulkImport.ts`):
  - the quote-aware line scanner `parseCSVLine`;
  - the file reader `parseCSV`, with its three errors, the header lookup, and
    rows that have no name being skipped;
  - the validator `validateUsers`, which splits rows into valid and invalid
    and joins each row's error messages;
  - the downloadable template `generateCSVTemplate`.
- **The list helpers of the admin screens**: filtering selections, meals and
  users; the meal drop-down with its "All Meals" sentinel; the opted-in and
  skipped counts; the records that new meals and users start as; and the
  department and user form checks.
- **The staff opt-in draft** (`selectMenuUtils.ts`): initialising it,
  recording a choice, checking it for completeness, and the meal shown for
  tomorrow.
- **The toast store of the notification component** (`alert.tsx`). It is the
  class `Alert.ToastStore`, with the newest-first visible queue (at most five
  toasts) and the map from toast id to pending timer. `AddToast` and
  `Dismiss` change the store in place.
- **The two status-to-badge-colour switches** (`manageMealsUtils.ts` and
  `menu.ts`). They differ and are modelled separately.

The loops of the source are kept as loops, in `BulkImport.ParseCsvLine`,
`BulkImport.ReadRows` and `BulkImport.ValidateUsers`. Each is proved equal to
a specification function, and the promised properties are lemmas about that
function. The per-row checks of `validateUsers` are the method
`BulkImport.CollectErrors`, and the toast store is the class
`Alert.ToastStore`, whose methods change its fields. Everything else is a
function with lemmas beside it.

The JavaScript built-ins are modelled in module `Text`:

- `trim` strips exactly the ECMAScript WhiteSpace and LineTerminator set.
- `toLowerCase` folds ASCII letters only.
- `includes` means occurrence at some index.
- `split` and `join` work on a single character and a separator.
- `String(n)` gives the decimal digits of a natural number, and
  `Text.ParseNatToString` proves that reading them back yields n.

Array `filter`, `map` and `every`, and `new Set` read back in insertion order,
are in module `Seqs`.

Three behaviours of the source are reproduced exactly rather than corrected:

- The header line is split on every comma, while data lines are split only
  on commas outside quotes.
- A row's `rowNumber` is its position among the *non-blank* lines plus one.
  It is therefore not the file line number when the file contains blank lines.
- The timer of a toast dropped by the five-toast cap stays in the timer map
  until that toast is dismissed.

## Model

| member | source | states |
|---|---|---|
| BulkImport.Fields | src/utils/bulkImport.ts:57-77 | a line gives one field more than it has commas outside quotes; no field holds a `"`; every field is trimmed |
| BulkImport.ParseCsvLine | src/utils/bulkImport.ts:57-77 | the character loop with `current` and `inQuotes` returns exactly `Fields(line)` |
| BulkImport.JoinPieces | src/utils/bulkImport.ts:62-73 | rejoining the raw fields with commas gives back the line, so the scanner loses only the separators |
| BulkImport.FieldsWithoutQuotes | src/utils/bulkImport.ts:65-75 | on a line without `"`, parsing equals splitting on `,` and trimming each piece |
| BulkImport.NonBlankLines | src/utils/bulkImport.ts:11 | every kept line is non-blank after trimming and holds no line feed; there are no more kept lines than pieces of the split |
| BulkImport.FindIndex | src/utils/bulkImport.ts:19-20 | -1 exactly when the key is absent, otherwise the first position of the key |
| BulkImport.Cell | src/utils/bulkImport.ts:39-40 | a cell value holds no `"`, and a missing cell reads as the empty string |
| BulkImport.RowAt | src/utils/bulkImport.ts:33-48 | a non-blank line yields at most one row; that row is numbered by its line index plus one and has a non-empty, quote-free name |
| BulkImport.ReadRows | src/utils/bulkImport.ts:30-51 | the loop over the data lines pushes exactly the rows of `DataRows` |
| BulkImport.ParseCsv | src/utils/bulkImport.ts:10-52 | checked in this order: fewer than two non-blank lines is `TooFewLines`; no header cell equal to "name" is `MissingNameColumn`; no "department" cell is `MissingDepartmentColumn`. Each error occurs iff its condition holds. Otherwise the result is the rows of the data lines, at most one per data line |
| BulkImport.CsvError.Message | src/utils/bulkImport.ts:14-26 | the texts of the three thrown errors, each beginning with "CSV " |
| BulkImport.MessagesDistinct | src/utils/bulkImport.ts:14-26 | different errors have different texts |
| BulkImport.DataRowAt | src/utils/bulkImport.ts:32-49 | each returned row comes from data line j and carries number j + 1, so at least 2; its name is non-empty and free of quotes |
| BulkImport.DataRowsCount | src/utils/bulkImport.ts:32-49 | at most (non-blank lines - 1) rows |
| BulkImport.DataRowsClean | src/utils/bulkImport.ts:39-48 | every row has a non-empty name, and neither its name nor its department holds a `"` |
| BulkImport.DataRowsIncreasing | src/utils/bulkImport.ts:32-46 | row numbers strictly increase |
| BulkImport.DataRowsComplete | src/utils/bulkImport.ts:42-48 | every data line with a non-empty name cell yields its row |
| BulkImport.HeaderKey | src/utils/bulkImport.ts:18 | the defining function of one header key (trimmed, lower-cased, quotes removed); no key holds a `"`; `ParseCsv` uses it for the column lookup |
| BulkImport.HeaderKeys | src/utils/bulkImport.ts:18 | the defining function of the header: one key per comma-separated piece of the header line, quoted or not, none holding a `"` |
| BulkImport.DataRows | src/utils/bulkImport.ts:32-49 | the defining function of the rows of `parseCSV`: the rows of lines 1 .. n - 1 in line order; `DataRowsCount`, `DataRowAt`, `DataRowsClean`, `DataRowsIncreasing` and `DataRowsComplete` carry its properties |
| BulkImport.RowErrors | src/utils/bulkImport.ts:94-106 | the defining function of one row's messages: at most two, and none exactly when the name has at least 2 characters and the department is non-empty and listed; `ErrorText` gives their joined text |
| BulkImport.DepartmentNames | src/utils/bulkImport.ts:89 | one name per department, in order, each the lower-cased department name; `AcceptsIff` and `ErrorText` are stated over it |
| BulkImport.CollectErrors | src/utils/bulkImport.ts:94-106 | the checks push the name message, then "Department is required" or the "does not exist" message |
| BulkImport.ValidateUsers | src/utils/bulkImport.ts:82-119 | valid rows are the input filtered by "no errors"; invalid entries are the remaining rows, each paired with its joined messages, in input order |
| BulkImport.ValidationStep | src/utils/bulkImport.ts:108-115 | each further row lands at the end of exactly one of the two lists |
| BulkImport.AcceptsIff | src/utils/bulkImport.ts:97-106 | a row is valid iff its name has at least 2 characters, its department is non-empty, and some department name equals it ignoring case |
| BulkImport.ValidationPartitions | src/utils/bulkImport.ts:93-118 | the valid and invalid counts add up to the input length; both lists keep input order; each invalid entry carries its row |
| BulkImport.ErrorText | src/utils/bulkImport.ts:97-112 | the error text is the name message, then "; ", then the department message; an empty department reads "Department is required", never "does not exist" |
| BulkImport.GenerateCsvTemplate | src/utils/bulkImport.ts:175-200 | the defining function of the template: it begins with `Name,Department` and a line feed, and ends with a line feed and the department line; `TemplateShape` gives its lines |
| BulkImport.DepartmentList | src/utils/bulkImport.ts:184 | the names joined with ", ": no departments give "", one gives its name, and two or more begin with the first name and ", " and end with ", " and the last name |
| BulkImport.AvailableDepartmentsLine | src/utils/bulkImport.ts:196 | the line begins with "# " and never ends there; without departments it carries the fallback text, and with two or more it carries the list |
| BulkImport.Instructions | src/utils/bulkImport.ts:185-197 | eleven lines, the first two empty and the last the department line |
| BulkImport.LeadingLinesOneEach | src/utils/bulkImport.ts:176-181 | the header and the example rows are single lines |
| BulkImport.DepartmentsLineOneLine | src/utils/bulkImport.ts:184-196 | the department line is a single line when no department name holds a line feed |
| BulkImport.TemplateShape | src/utils/bulkImport.ts:175-200 | provided no department name holds a line feed (otherwise the source's template really has more lines, and its last line is a fragment of a name): the template's lines start with `Name,Department` and the three examples; the last line is `# ` with the names joined by ", ", or the fallback text when that list is empty; there are at least 15 lines |
| ViewSelections.GetUniqueMeals | src/utils/viewSelectionsUtils.ts:3-5 | "All Meals" comes first; every later entry is a meal name of the input, and no later entry repeats |
| ViewSelections.UniqueMealsComplete | src/utils/viewSelectionsUtils.ts:4 | every meal name of the input is offered after the sentinel |
| ViewSelections.UniqueMealsOrder | src/utils/viewSelectionsUtils.ts:4 | the names after the sentinel appear in order of first occurrence |
| ViewSelections.FilterSelections | src/utils/viewSelectionsUtils.ts:7-22 | the defining function of `filterSelections`: every selection it returns passes the search, the meal and the status test; `FilterSelectionsSubsequence`, `FilterSelectionsMembers`, `FilterSelectionsNoFilter`, `FilterSelectionsStatus` and `FilterSelectionsIdempotent` carry its properties |
| ViewSelections.MatchesSearch | src/utils/viewSelectionsUtils.ts:14-15 | the empty query matches every selection, and a match needs a name or department at least as long as the query |
| ViewSelections.MatchesMeal | src/utils/viewSelectionsUtils.ts:16 | "All Meals" matches every selection; any other value matches exactly the selections of that meal |
| ViewSelections.MatchesStatus | src/utils/viewSelectionsUtils.ts:17-19 | "All" matches everything, "Yes" exactly the opted-in, "No" exactly the opted-out, and any other value nothing |
| ViewSelections.FilterSelectionsSubsequence | src/utils/viewSelectionsUtils.ts:13-21 | the result is a subsequence of the input |
| ViewSelections.FilterSelectionsMembers | src/utils/viewSelectionsUtils.ts:14-20 | a selection is kept iff its user name or department contains the query ignoring case, its meal is the chosen one (unless "All Meals"), and its status passes |
| ViewSelections.FilterSelectionsNoFilter | src/utils/viewSelectionsUtils.ts:14-19 | "", "All Meals" and "All" return the input unchanged |
| ViewSelections.FilterSelectionsStatus | src/utils/viewSelectionsUtils.ts:17-19 | "Yes" keeps only opted-in selections and "No" only opted-out ones; any value other than "All", "Yes" and "No" keeps nothing |
| ViewSelections.FilterSelectionsIdempotent | src/utils/viewSelectionsUtils.ts:13-21 | filtering the result again with the same arguments changes nothing |
| ViewSelections.GetSelectionCounts | src/utils/viewSelectionsUtils.ts:24-28 | opted-in count + skipped count = number of selections |
| ViewSelections.CountsMatchStatusFilter | src/utils/viewSelectionsUtils.ts:24-27 | the two counts equal the sizes of the unfiltered "Yes" and "No" views |
| ManageMeals.FilterMeals | src/utils/manageMealsUtils.ts:3-13 | the defining function of `filterMeals`: every meal it returns has a matching name and a passing status; `FilterMealsSubsequence`, `FilterMealsNoFilter`, `FilterMealsStatus` and `FilterMealsIdempotent` carry its properties |
| ManageMeals.FilterMealsSubsequence | src/utils/manageMealsUtils.ts:8-12 | the result is a subsequence of the input, and a meal is kept iff its name contains the query ignoring case and its status passes |
| ManageMeals.FilterMealsNoFilter | src/utils/manageMealsUtils.ts:8-12 | "" with "All" keeps every meal |
| ManageMeals.FilterMealsStatus | src/utils/manageMealsUtils.ts:10 | with a status other than "All", every kept meal has exactly that status |
| ManageMeals.FilterMealsIdempotent | src/utils/manageMealsUtils.ts:8-12 | filtering twice is filtering once |
| ManageMeals.GetStatusColor | src/utils/manageMealsUtils.ts:15-22 | green iff "active"; blue iff "upcoming"; the same gray for "completed" and for every other string |
| ManageMeals.CreateNewMeal | src/utils/manageMealsUtils.ts:24-35 | the id is the decimal string of (number of meals + 1): all digits, no leading zero, reading back as that number; name and date come from the form; the deadline is the date, one space and the time; the status is "upcoming" |
| ManageMeals.NewMealIdsDiffer | src/utils/manageMealsUtils.ts:29 | meal lists of different lengths give the new meal different ids |
| ManageUsers.FilterUsers | src/utils/manageUsersUtils.ts:3-10 | the defining function of `filterUsers`: every user it returns has a name containing the query, ignoring case; `FilterUsersSubsequence` and `FilterUsersNoFilter` carry its properties |
| ManageUsers.FilterUsersSubsequence | src/utils/manageUsersUtils.ts:7-9 | the result is a subsequence of the input, and a user is kept iff the name contains the query ignoring case |
| ManageUsers.FilterUsersNoFilter | src/utils/manageUsersUtils.ts:7-9 | the empty query keeps every user |
| ManageUsers.CreateNewUser | src/utils/manageUsersUtils.ts:12-22 | the id is the decimal string of (number of users + 1): all digits, no leading zero, reading back as that number; the name is the input with whitespace cut from both ends only; the department is unchanged |
| ManageUsers.CreateNewUserTrimmed | src/utils/manageUsersUtils.ts:19 | trimming the name beforehand gives the same user |
| ManageUsers.NewUserIdsDiffer | src/utils/manageUsersUtils.ts:18 | user lists of different lengths give the new user different ids |
| ManageUsers.IsDepartmentValid | src/utils/manageUsersUtils.ts:24-29 | false for a blank name; otherwise true iff the trimmed name is not listed |
| ManageUsers.IsDepartmentValidCaseSensitive | src/utils/manageUsersUtils.ts:28 | the list lookup is exact ("hr" is accepted next to "HR") |
| ManageUsers.IsUserValid | src/utils/manageUsersUtils.ts:31-36 | true iff the name is not blank and the department is non-empty |
| ManageUsers.ValidUserHasName | src/utils/manageUsersUtils.ts:31-36 | a user the form accepts is created with a non-empty name and department |
| SelectMenu.UpdateUserSelection | src/utils/selectMenuUtils.ts:3-11 | length and the sequence of user ids are kept; every entry of the user gets the new choice; every other entry is unchanged |
| SelectMenu.UpdateIdempotent | src/utils/selectMenuUtils.ts:8-10 | the same update twice equals it once |
| SelectMenu.UpdatesCommute | src/utils/selectMenuUtils.ts:8-10 | updates for two different users commute |
| SelectMenu.UpdateOverrides | src/utils/selectMenuUtils.ts:8-10 | the later of two updates for one user wins |
| SelectMenu.InitializeUserSelections | src/utils/selectMenuUtils.ts:13-15 | one entry per user, in order, with the user's id and no choice |
| SelectMenu.AreAllSelectionsComplete | src/utils/selectMenuUtils.ts:17-19 | true iff no entry is still unchosen |
| SelectMenu.FreshDraftIncomplete | src/utils/selectMenuUtils.ts:13-19 | a fresh draft is complete iff the user list is empty |
| SelectMenu.UpdateAndCompleteness | src/utils/selectMenuUtils.ts:8-18 | a real choice keeps a complete draft complete; a null choice for a listed user makes it incomplete |
| SelectMenu.ChooseAllChooses | src/utils/selectMenuUtils.ts:8-10 | recording choices for a list of users keeps the draft's ids and leaves every listed user chosen |
| SelectMenu.ChoosingEveryoneCompletes | src/utils/selectMenuUtils.ts:13-19 | choosing for every user of a fresh draft completes it |
| SelectMenu.GetTomorrowMeal | src/utils/selectMenuUtils.ts:21-23 | the first meal with only its name replaced by "Rice with Chicken Curry" |
| Alert.DurationOf | src/components/alert.tsx:48 | the given duration when present (0 stays 0), otherwise 3500 |
| Alert.TitleOf | src/components/alert.tsx:53 | a title exactly when options with a title are given, and then that title |
| Alert.PushNewest | src/components/alert.tsx:58 | the new toast is at index 0; the length is min(old + 1, 5); entries 1.. are the first min(old, 4) old entries in order |
| Alert.WithoutId | src/components/alert.tsx:42 | no remaining toast has the id, and the queue does not grow |
| Alert.WithoutIdKeepsOthers | src/components/alert.tsx:42 | the remaining toasts are exactly the others, in their order |
| Alert.WithoutAbsentId | src/components/alert.tsx:42 | dismissing an id that is not shown leaves the queue unchanged |
| Alert.WithoutIdIdempotent | src/components/alert.tsx:37-44 | dismissing twice is dismissing once |
| Alert.AddThenDismiss | src/components/alert.tsx:42-58 | showing a toast with a fresh id and dismissing it restores the queue, less the oldest toast if the queue was full |
| Alert.ToastStore.constructor | src/components/alert.tsx:21-23 | the store starts with no toasts and no timers |
| Alert.ToastStore.AddToast | src/components/alert.tsx:46-67 | returns the new id; the queue becomes `PushNewest` of the new toast; a timer is recorded for the id iff the duration is positive; at most five toasts remain |
| Alert.ToastStore.ShowSuccess | src/components/alert.tsx:70-71 | `AddToast` with the success variant |
| Alert.ToastStore.ShowError | src/components/alert.tsx:72-73 | `AddToast` with the error variant |
| Alert.ToastStore.Dismiss | src/components/alert.tsx:37-44 | returns the handle to clear iff a non-zero timer was recorded; forgets the timer; removes the toasts with that id |
| Menu.GetStatusColor | src/utils/menu.ts:31-42 | emerald iff "active"; blue iff "completed"; amber iff "upcoming"; gray iff any other string; the result is always one of the four |
| Menu.MenuStatusesColoured | src/utils/menu.ts:31-42 | the three menu statuses get three different colours, none of them gray |
| Text.Trim | src/utils/manageUsersUtils.ts:19 | the result has no whitespace at either end, and only whitespace was cut from the two ends |
| Text.TrimEmptyIff | src/utils/manageUsersUtils.ts:28 | the trim is empty iff the string is all whitespace |
| Text.ToLower | src/utils/manageUsersUtils.ts:8 | same length; no upper-case ASCII letter is left; other characters are kept |
| Text.ToLowerIdempotent | src/utils/manageUsersUtils.ts:8 | lower-casing twice is lower-casing once |
| Text.RemoveQuotes | src/utils/bulkImport.ts:39 | no quote is left, and the result is a subsequence of the input; a string without quotes is unchanged |
| Text.Contains | src/utils/manageUsersUtils.ts:8 | true iff the needle occurs at some index |
| Text.NatToString | src/utils/manageUsersUtils.ts:18 | the defining function of `String(n)`: at least one digit, only digits, and a leading zero only for 0; `ParseNatToString` is its round trip |
| Text.ParseNatToString | src/utils/manageUsersUtils.ts:18 | the decimal string of n reads back as n |
| Text.Split | src/utils/bulkImport.ts:11 | the defining function of `split` on one character: at least one piece, none holding the separator; `JoinSplit` and `SplitJoin` are its round trips with `Join` |
| Text.Join | src/utils/bulkImport.ts:199 | the defining function of `join`; `JoinEnds`, `JoinSplit` and `SplitJoin` carry its properties |
| Text.JoinEnds | src/utils/bulkImport.ts:199 | with two or more parts, the joined text begins with the first part and a separator and ends with a separator and the last part |
| Text.JoinSplit | src/utils/bulkImport.ts:11 | joining the pieces of a split with the separator gives back the text |
| Text.SplitJoin | src/utils/bulkImport.ts:199 | joining lines with a line feed and splitting again gives the lines back when none contains one |
| Seqs.Filter | src/utils/viewSelectionsUtils.ts:13 | the defining function of `filter`: no longer than the input, and every element kept satisfies the predicate; `FilterMembers`, `FilterIsSubsequence` and `FilterIdempotent` carry the rest |
| Seqs.Map | src/utils/selectMenuUtils.ts:8 | the defining function of `map`: the same length, and element i is the function applied to input element i |
| Seqs.Every | src/utils/selectMenuUtils.ts:18 | the defining function of `every`: true iff the predicate holds of every element |
| Seqs.Distinct | src/utils/viewSelectionsUtils.ts:4 | the defining function of `Array.from(new Set(...))`: only input elements, no repeats; `DistinctComplete` and `DistinctInFirstOccurrenceOrder` give completeness and first-occurrence order |

## Left out

- Text.ToLower: folds only the ASCII letters A-Z. JavaScript's Unicode case mapping is not modelled, so the department matching of `validateUsers` and the case-insensitive searches are exact only for ASCII text.
- JavaScript strings are sequences of UTF-16 code units; the model uses Dafny characters (code points). `String.length` therefore differs for characters outside the Basic Multilingual Plane.
- BulkImport.TemplateShape: proves at least 15 lines, not exactly 15. The instruction lines are long literals, and the proof does not check them for line feeds.
- SelectMenu.GetTomorrowMeal: requires a non-empty list. On an empty list the source spreads `undefined` and returns an object holding only `name`, which no `Meal` value can represent.
- `bulkCreateUsers`, `downloadCSVTemplate` and `readFileAsText` (src/utils/bulkImport.ts:124-241): network inserts and DOM / file I/O.
- Every Supabase query in src/utils/menu.ts and the other data-access files: their behaviour belongs to the remote store.
- The `Toaster` component, `emit` and the listener set, and `window.setTimeout` / `clearTimeout`. `Dismiss` returns the timer handle to clear instead of clearing it, and a timer firing is a later call of `Dismiss`.
- `getId` (random UUID or clock-based id): the fresh id and the timer handle are parameters of `AddToast`.
- Alert.ToastStore.AddToast: models `durationMs` as an integer. NaN, fractional and infinite numbers are not modelled.
- `toast.dismiss` is `Alert.ToastStore.Dismiss` itself and has no separate wrapper.
- src/types/department.ts is not part of this model; `Types.Department` carries the id and the name that the bulk import reads.
