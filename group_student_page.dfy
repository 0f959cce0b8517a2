// frontend/src/components/GroupStudentPage.jsx: the student's list of
// groups. The role label of each card comes from a nullable variant of
// the teacher page's role function; the member count falls back from
// `members_count` to the length of `members`. The badge uses
// Badge.Bell.FromStorage, Fetched(mirror := true) and Reload; the bell
// click only navigates, so no Bell operation models it.

module GroupStudentPage {
  import opened Common
  import opened Models
  import opened ApiSerializers
  import opened BackendState
  import UserSerializers
  import GroupsTeacherPage

  type GroupCard = GroupsTeacherPage.GroupCard

  /** `group.members.some(m => m.id === user?.id && m.role === 'student')`. */
  predicate ListedAsStudent(g: GroupCard, viewer: Option<nat>)
  {
    && g.members.Some?
    && exists i :: 0 <= i < |g.members.value|
         && viewer == Some(g.members.value[i].id) && g.members.value[i].role == StudentRole
  }

  /** getUserRoleInGroup: admin, else teacher, else student, else null. */
  function RoleIn(g: GroupCard, viewer: Option<nat>): (r: Option<Role>)
    ensures r == Some(AdminRole) <==> viewer == Some(g.adminId)
    ensures r == Some(TeacherRole) <==>
      viewer != Some(g.adminId) && GroupsTeacherPage.ListedAsTeacher(g, viewer)
    ensures r == Some(StudentRole) <==>
      viewer != Some(g.adminId) && !GroupsTeacherPage.ListedAsTeacher(g, viewer) && ListedAsStudent(g, viewer)
    ensures r.None? <==>
      viewer != Some(g.adminId) && !GroupsTeacherPage.ListedAsTeacher(g, viewer) && !ListedAsStudent(g, viewer)
  {
    if viewer == Some(g.adminId) then Some(AdminRole)
    else if GroupsTeacherPage.ListedAsTeacher(g, viewer) then Some(TeacherRole)
    else if ListedAsStudent(g, viewer) then Some(StudentRole)
    else None
  }

  /**
   * The two pages agree wherever this one has a role; where it has none,
   * the teacher page falls back to 'student'.
   */
  lemma AgreesWithTeacherPage(g: GroupCard, viewer: Option<nat>)
    ensures RoleIn(g, viewer).Some? ==> GroupsTeacherPage.RoleIn(g, viewer) == RoleIn(g, viewer).value
    ensures RoleIn(g, viewer).None? ==> GroupsTeacherPage.RoleIn(g, viewer) == StudentRole
  {
  }

  /** The card of a group as the server serializes it: no members_count, the member list of get_members. */
  predicate ServedCard(g: GroupCard, grp: Group, ts: seq<nat>, ss: seq<nat>, users: map<nat, User>)
  {
    && InUsers(grp, ts, ss, users)
    && g.adminId == grp.admin
    && g.members == Some(MemberList(grp, ts, ss, users))
  }

  /** Where a teacher other than the admin stands in the served list. */
  lemma TeacherEntry(grp: Group, ts: seq<nat>, ss: seq<nat>, users: map<nat, User>, u: nat) returns (i: nat)
    requires InUsers(grp, ts, ss, users)
    requires u != grp.admin && u in ts
    ensures i < |MemberList(grp, ts, ss, users)|
    ensures MemberList(grp, ts, ss, users)[i] == Member(u, Fio(users[u]), TeacherRole)
  {
    var j := OthersIndex(ts, grp.admin, u);
    TeacherIdAt(grp, ts, ss, users, j, u);
    i := 1 + j;
  }

  /** Where a student stands in the served list. */
  lemma StudentEntry(grp: Group, ts: seq<nat>, ss: seq<nat>, users: map<nat, User>, u: nat) returns (i: nat)
    requires InUsers(grp, ts, ss, users)
    requires u in ss
    ensures i < |MemberList(grp, ts, ss, users)|
    ensures MemberList(grp, ts, ss, users)[i] == Member(u, Fio(users[u]), StudentRole)
  {
    var j :| 0 <= j < |ss| && ss[j] == u;
    StudentAt(grp, ts, ss, users, j);
    i := 1 + |Others(ts, grp.admin)| + j;
  }

  /** A teacher entry of the served list names a teacher other than the admin. */
  lemma TeacherEntryIsTeacher(grp: Group, ts: seq<nat>, ss: seq<nat>, users: map<nat, User>, i: nat)
    requires InUsers(grp, ts, ss, users)
    requires i < |MemberList(grp, ts, ss, users)| && MemberList(grp, ts, ss, users)[i].role == TeacherRole
    ensures MemberList(grp, ts, ss, users)[i].id != grp.admin && MemberList(grp, ts, ss, users)[i].id in ts
  {
    var f := Others(ts, grp.admin);
    MemberAt(grp, ts, ss, users, i);
    assert f[i - 1] in f;
  }

  /** A student entry of the served list names a student. */
  lemma StudentEntryIsStudent(grp: Group, ts: seq<nat>, ss: seq<nat>, users: map<nat, User>, i: nat)
    requires InUsers(grp, ts, ss, users)
    requires i < |MemberList(grp, ts, ss, users)| && MemberList(grp, ts, ss, users)[i].role == StudentRole
    ensures MemberList(grp, ts, ss, users)[i].id in ss
  {
    var f := Others(ts, grp.admin);
    MemberAt(grp, ts, ss, users, i);
    assert ss[i - 1 - |f|] in ss;
  }

  /** On a served card the teacher entries are exactly the teachers other than the admin. */
  lemma ListedAsTeacherOnServed(g: GroupCard, grp: Group, ts: seq<nat>, ss: seq<nat>, users: map<nat, User>, u: nat)
    requires ServedCard(g, grp, ts, ss, users)
    ensures GroupsTeacherPage.ListedAsTeacher(g, Some(u)) <==> u != grp.admin && u in ts
  {
    var r := g.members.value;
    if u != grp.admin && u in ts {
      var i := TeacherEntry(grp, ts, ss, users, u);
      assert Some(u) == Some(r[i].id) && r[i].role == TeacherRole;
    }
    if GroupsTeacherPage.ListedAsTeacher(g, Some(u)) {
      var i :| 0 <= i < |r| && Some(u) == Some(r[i].id) && r[i].role == TeacherRole;
      TeacherEntryIsTeacher(grp, ts, ss, users, i);
    }
  }

  /** On a served card the student entries are exactly the students. */
  lemma ListedAsStudentOnServed(g: GroupCard, grp: Group, ts: seq<nat>, ss: seq<nat>, users: map<nat, User>, u: nat)
    requires ServedCard(g, grp, ts, ss, users)
    ensures ListedAsStudent(g, Some(u)) <==> u in ss
  {
    var r := g.members.value;
    if u in ss {
      var i := StudentEntry(grp, ts, ss, users, u);
      assert Some(u) == Some(r[i].id) && r[i].role == StudentRole;
    }
    if ListedAsStudent(g, Some(u)) {
      var i :| 0 <= i < |r| && Some(u) == Some(r[i].id) && r[i].role == StudentRole;
      StudentEntryIsStudent(grp, ts, ss, users, i);
    }
  }

  /**
   * The label the page derives from the served member list is the role
   * UserGroupSerializer.get_role gives the same user on the server, and
   * null exactly when the user is not in the group.
   */
  lemma RoleMatchesServer(g: GroupCard, grp: Group, ts: seq<nat>, ss: seq<nat>, users: map<nat, User>, u: nat)
    requires ServedCard(g, grp, ts, ss, users)
    requires forall x :: x in ts <==> x in grp.teachers
    requires forall x :: x in ss <==> x in grp.students
    ensures RoleIn(g, Some(u)).None? <==> UserSerializers.GetRole(grp, u).None?
    ensures RoleIn(g, Some(u)).Some? ==>
      UserSerializers.GetRole(grp, u) == Some(RoleText(RoleIn(g, Some(u)).value))
  {
    ListedAsTeacherOnServed(g, grp, ts, ss, users, u);
    ListedAsStudentOnServed(g, grp, ts, ss, users, u);
  }

  /**
   * The count on a card: `members_count` when truthy, else the length of
   * `members` when truthy, else 0.
   */
  function MemberCount(membersCount: Option<nat>, members: Option<seq<Member>>): (r: nat)
    ensures r == 0 <==>
      (membersCount.None? || membersCount.value == 0) && (members.None? || members.value == [])
  {
    if membersCount.Some? && membersCount.value != 0 then membersCount.value
    else if members.Some? && |members.value| != 0 then |members.value|
    else 0
  }

  /**
   * The server sends no members_count, so a served card shows the length
   * of the member list: one admin, the teachers other than the admin and
   * every student.
   */
  lemma ServedCountShown(g: GroupCard, grp: Group, ts: seq<nat>, ss: seq<nat>, users: map<nat, User>)
    requires ServedCard(g, grp, ts, ss, users)
    requires Lists(ts, grp.teachers) && Lists(ss, grp.students)
    ensures MemberCount(None, g.members) == 1 + |grp.teachers - {grp.admin}| + |grp.students|
  {
    MembersCount(grp, ts, ss, users);
  }

  const LoadFailed := "Ошибка загрузки групп"

  /** The page's state that the groups effect sets. */
  datatype StudentState = StudentState(groups: seq<GroupCard>, loading: bool, error: Option<string>)

  class StudentView {
    var st: StudentState

    constructor ()
      ensures st == StudentState([], true, None)
    {
      st := StudentState([], true, None);
    }

    /**
     * fetchGroups: `resp` is None when the request throws; a null body
     * (Some(None)) becomes the empty list. Loading ends either way.
     */
    method GroupsLoaded(resp: Option<Option<seq<GroupCard>>>)
      modifies this
      ensures !st.loading
      ensures resp.None? ==> st.groups == old(st).groups && st.error == Some(LoadFailed)
      ensures resp.Some? ==> st.error == old(st).error
      ensures resp == Some(None) ==> st.groups == []
      ensures resp.Some? && resp.value.Some? ==> st.groups == resp.value.value
    {
      st := st.(loading := true);
      if resp.None? {
        st := st.(error := Some(LoadFailed));
      } else {
        var data := if resp.value.Some? then resp.value.value else [];
        st := st.(groups := data);
      }
      st := st.(loading := false);
    }
  }
}
