/**
  `StatsController.GetGlobalStats`: accounts counted by exact role, and
  the sizes of the document and download tables.
 */
module Stats {
  import opened Wrappers
  import opened Text
  import opened Guids
  import opened Models
  import opened Listing
  import opened Users
  import Students
  import SuperAdmin

  datatype GlobalStats = GlobalStats(admins: nat, students: nat, documents: nat, downloads: nat)

  /** The comparisons run in the database as written: exact, no case folding. */
  predicate IsStaff(u: User) { u.role == "Admin" || u.role == "SuperAdmin" }
  predicate IsStudent(u: User) { u.role == "Student" }

  function Staff(): User -> bool { IsStaff }
  function Student(): User -> bool { IsStudent }

  /**
    `GetGlobalStats`. The admin count covers the accounts whose role is
    exactly "Admin" or "SuperAdmin", the student count those whose role is
    exactly "Student". No account is counted twice; all are counted exactly
    when every role string is one of the three seeded names, spelled exactly.
   */
  function GetGlobalStats(st: Store): (r: GlobalStats)
    ensures r.admins == |Positions(st.users, IsStaff)|
    ensures r.students == |Positions(st.users, IsStudent)|
    ensures r.documents == |st.documents| && r.downloads == |st.downloads|
    ensures r.admins + r.students <= |st.users|
    ensures r.admins + r.students == |st.users| <==>
              forall j :: 0 <= j < |st.users| ==> IsStaff(st.users[j]) || IsStudent(st.users[j])
  {
    CountDisjoint(st.users, Staff(), Student());
    CountIsCardinality(st.users, Staff());
    CountIsCardinality(st.users, Student());
    GlobalStats(Count(st.users, Staff()), Count(st.users, Student()), |st.documents|, |st.downloads|)
  }

  /**
    The student count compares exactly and the student listing folds case,
    so the count never exceeds the listing's total, and falls short of it
    as soon as one role is "Student" in another letter case.
   */
  lemma StudentsBelowListing(st: Store, page: int, pageSize: int)
    requires page >= 1 && pageSize >= 1
    ensures var listed := Students.GetStudents(st.users, page, pageSize, None).body.totalItems;
      && GetGlobalStats(st).students <= listed
      && ((exists j :: 0 <= j < |st.users| && Lower(st.users[j].role) == "student" && st.users[j].role != "Student")
            ==> GetGlobalStats(st).students < listed)
  {
    var folded := UserFilter(None, Some(Students.StudentRole));
    assert Lower(Students.StudentRole) == "student";
    forall i | 0 <= i < |st.users|
      ensures Student()(st.users[i]) ==> folded(st.users[i])
      ensures Lower(st.users[i].role) == "student" ==> folded(st.users[i])
    {
      assert RoleAccepts(st.users[i], Some(Students.StudentRole)) <==> Lower(st.users[i].role) == "student";
    }
    CountMono(st.users, Student(), folded);
  }

  /**
    Promoting an account moves it into the admin count (unless it already
    was staff) and out of the student count (if it was a student).
   */
  lemma PromoteMovesCounts(st: Store, id: Guid, j: nat)
    requires UniqueUserIds(st.users) && j < |st.users| && st.users[j].id == id
    ensures var before := GetGlobalStats(st);
      var after := GetGlobalStats(SuperAdmin.PromoteToAdmin(st, id).store);
      && after.admins == before.admins + (if IsStaff(st.users[j]) then 0 else 1)
      && after.students == before.students - (if IsStudent(st.users[j]) then 1 else 0)
      && after.documents == before.documents && after.downloads == before.downloads
  {
    UserIndexOfMember(st.users, j);
    var promoted := st.users[j].(role := "Admin");
    assert SuperAdmin.PromoteToAdmin(st, id).store.users == st.users[j := promoted];
    CountUpdate(st.users, j, promoted, Staff());
    CountUpdate(st.users, j, promoted, Student());
  }

  /** The two statistics endpoints agree on the tables they both report, and the role counts fit in the user total. */
  lemma StatsConsistent(st: Store)
    ensures var g := GetGlobalStats(st);
      var t := SuperAdmin.GetStats(st);
      g.documents == t.documents && g.downloads == t.downloads && g.admins + g.students <= t.users
  {
  }
}
