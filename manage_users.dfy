/**
 * The helpers of the admin users screen: the name search (`filterUsers`),
 * the record a new user starts as (`createNewUser`) and the two form checks
 * (`isDepartmentValid`, `isUserValid`).
 */
module ManageUsers {
  import opened Seqs
  import opened Text
  import opened Types

  /** The user's name contains the query, both lower-cased. */
  function UserKeeps(searchQuery: string): User -> bool {
    (u: User) => Contains(ToLower(u.name), ToLower(searchQuery))
  }

  /** `filterUsers`: the users whose name contains the query, ignoring case, in order. */
  function FilterUsers(users: seq<User>, searchQuery: string): (r: seq<User>)
    ensures |r| <= |users|
    ensures forall k :: 0 <= k < |r| ==> Contains(ToLower(r[k].name), ToLower(searchQuery))
  {
    Filter(UserKeeps(searchQuery), users)
  }

  /** The result keeps input order and invents nothing; a user is kept exactly when the name matches. */
  lemma FilterUsersSubsequence(users: seq<User>, searchQuery: string)
    ensures IsSubsequence(FilterUsers(users, searchQuery), users)
    ensures forall u :: u in FilterUsers(users, searchQuery) <==>
      u in users && Contains(ToLower(u.name), ToLower(searchQuery))
  {
    FilterIsSubsequence(UserKeeps(searchQuery), users);
    FilterMembers(UserKeeps(searchQuery), users);
  }

  /** The empty query keeps every user. */
  lemma FilterUsersNoFilter(users: seq<User>)
    ensures FilterUsers(users, "") == users
  {
    forall i | 0 <= i < |users| ensures UserKeeps("")(users[i]) {
      assert OccursAt(ToLower(users[i].name), "", 0);
    }
    FilterKeepsAll(UserKeeps(""), users);
  }

  /** `createNewUser`: the next id, the trimmed name, the department as given. */
  function CreateNewUser(name: string, department: string, existingUsers: seq<User>): (r: User)
    ensures (forall i :: 0 <= i < |r.id| ==> IsDigit(r.id[i])) && ParseDecimal(r.id) == |existingUsers| + 1
    ensures |r.id| >= 1 && r.id[0] != '0'
    ensures IsTrimmed(r.name) && exists i: nat :: TrimmedAt(name, r.name, i)
    ensures r.department == department
  {
    ParseNatToString(|existingUsers| + 1);
    User(NatToString(|existingUsers| + 1), Trim(name), department)
  }

  /** Trimming the name beforehand makes no difference. */
  lemma CreateNewUserTrimmed(name: string, department: string, existingUsers: seq<User>)
    ensures CreateNewUser(Trim(name), department, existingUsers) == CreateNewUser(name, department, existingUsers)
  {
    TrimIdempotent(name);
  }

  /** Lists of different lengths give new users different ids. */
  lemma NewUserIdsDiffer(name: string, department: string, users: seq<User>, otherName: string, otherDepartment: string, otherUsers: seq<User>)
    requires |users| != |otherUsers|
    ensures CreateNewUser(name, department, users).id != CreateNewUser(otherName, otherDepartment, otherUsers).id
  {
  }

  /** `isDepartmentValid`: a non-blank name whose trimmed form is not already listed. */
  function IsDepartmentValid(departmentName: string, existingDepartments: seq<string>): (r: bool)
    ensures AllWhitespace(departmentName) ==> !r
    ensures r <==> !AllWhitespace(departmentName) && Trim(departmentName) !in existingDepartments
  {
    TrimEmptyIff(departmentName);
    Trim(departmentName) != "" && Trim(departmentName) !in existingDepartments
  }

  /** The comparison is exact: a name differing from a listed one only in case is accepted. */
  lemma IsDepartmentValidCaseSensitive()
    ensures IsDepartmentValid("hr", ["HR"])
  {
    TrimOfTrimmed("hr");
    assert "hr" != "HR";
  }

  /** `isUserValid`: a non-blank name and a non-empty department. */
  function IsUserValid(userName: string, userDepartment: string): (r: bool)
    ensures r <==> !AllWhitespace(userName) && userDepartment != ""
  {
    TrimEmptyIff(userName);
    Trim(userName) != "" && userDepartment != ""
  }

  /** A user the form accepts is created with a non-empty name. */
  lemma ValidUserHasName(name: string, department: string, existingUsers: seq<User>)
    requires IsUserValid(name, department)
    ensures CreateNewUser(name, department, existingUsers).name != ""
    ensures CreateNewUser(name, department, existingUsers).department != ""
  {
    TrimEmptyIff(name);
  }
}
