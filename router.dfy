/** Routing of a complaint to the department responsible for its category,
    and to an officer of that department. */
module Router {
  import opened Wrappers
  import opened Schema
  import Tables

  /** The categories the complaint form offers. */
  const Categories: set<string> :=
    {"Electrical Issues", "Water & Sanitation", "Faulty Infrastructure", "Internet & Network", "Security Concerns"}

  /** The five maintenance departments. */
  const Departments: set<string> := {"Electrical", "Plumbing", "Maintenance", "IT", "Security"}

  /** The fixed category-to-department table used on submission. */
  const CategoryDepartments: map<string, string> := map[
    "Electrical Issues" := "Electrical",
    "Water & Sanitation" := "Plumbing",
    "Faulty Infrastructure" := "Maintenance",
    "Internet & Network" := "IT",
    "Security Concerns" := "Security"
  ]

  /** The department for a category, or None for a category outside the table. */
  function DepartmentFor(category: string): (r: Option<string>)
    ensures r.Some? <==> category in Categories
    ensures r.Some? ==> r.value in Departments
  {
    if category in CategoryDepartments then Some(CategoryDepartments[category]) else None
  }

  /** The table has exactly five pairs, one per category, and sends distinct
      categories to distinct departments, covering all five departments. */
  lemma CategoryTableShape()
    ensures CategoryDepartments.Keys == Categories && |CategoryDepartments| == 5
    ensures CategoryDepartments.Values == Departments
    ensures forall c, d :: c in CategoryDepartments && d in CategoryDepartments && c != d ==>
              CategoryDepartments[c] != CategoryDepartments[d]
  {
    assert CategoryDepartments.Keys == Categories;
    assert |Categories| == 5;
  }

  /** Two routed categories and one category outside the table. */
  lemma DepartmentExamples()
    ensures DepartmentFor("Electrical Issues") == Some("Electrical")
    ensures DepartmentFor("Water & Sanitation") == Some("Plumbing")
    ensures DepartmentFor("Unknown Category") == None
  {
  }

  /** An officer whose department field is `dept`. */
  predicate IsOfficerOf(u: User, dept: string)
  {
    u.role == OfficerRole && u.department == Some(dept)
  }

  /** The first officer of department `dept` among the users with ids below `n`,
      or None when that department has no officer. */
  function OfficerByDepartment(users: map<nat, User>, n: nat, dept: string): (r: Option<nat>)
    ensures r.Some? ==> r.value < n && r.value in users && IsOfficerOf(users[r.value], dept)
    ensures r.None? <==> forall k :: k < n && k in users ==> !IsOfficerOf(users[k], dept)
  {
    Tables.FirstMatch(users, n, (u: User) => IsOfficerOf(u, dept))
  }

  /** The officer a new complaint of `category` is assigned to: an officer of the
      category's department, and None when the category has no department or the
      department has no officer. */
  function AssignedOfficer(users: map<nat, User>, n: nat, category: string): (r: Option<nat>)
    ensures category !in Categories ==> r.None?
    ensures r.Some? ==> r.value < n && r.value in users && DepartmentFor(category).Some?
                        && IsOfficerOf(users[r.value], DepartmentFor(category).value)
    ensures r.None? && category in Categories ==>
              forall k :: k < n && k in users ==> !IsOfficerOf(users[k], DepartmentFor(category).value)
  {
    match DepartmentFor(category)
    case Some(dept) => OfficerByDepartment(users, n, dept)
    case None => None
  }
}
