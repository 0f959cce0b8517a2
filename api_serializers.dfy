// backend/api/serializers.py: the computed fields of the comment, post,
// group and notification serializers. The "Last F.M." short name is written
// out three times in the source (comments, posts, groups) and once more
// inline for notifications; here it is one function.

module ApiSerializers {
  import opened Common
  import opened Models

  // ---------------------------------------------------------------------
  // Python's str.strip() with no argument.

  /** The characters Python's str.isspace() accepts. */
  predicate PySpace(c: char)
  {
    c == ' ' || ('\t' <= c <= '\r') || ('\U{001C}' <= c <= '\U{001F}') || c == '\U{0085}' || c == '\U{00A0}'
    || c == '\U{1680}' || ('\U{2000}' <= c <= '\U{200A}') || c == '\U{2028}' || c == '\U{2029}'
    || c == '\U{202F}' || c == '\U{205F}' || c == '\U{3000}'
  }

  /** Neither end is white space (the empty string counts as trimmed). */
  predicate Trimmed(s: string)
  {
    s == [] || (!PySpace(s[0]) && !PySpace(s[|s| - 1]))
  }

  function LStrip(s: string): (r: string)
    ensures r == [] || !PySpace(r[0])
    ensures |r| <= |s| && forall i :: 0 <= i < |r| ==> r[i] == s[|s| - |r| + i]
  {
    if s != [] && PySpace(s[0]) then LStrip(s[1..]) else s
  }

  function RStrip(s: string): (r: string)
    ensures |r| <= |s| && forall i :: 0 <= i < |r| ==> r[i] == s[i]
    ensures r == [] || !PySpace(r[|r| - 1])
  {
    if s != [] && PySpace(s[|s| - 1]) then RStrip(s[..|s| - 1]) else s
  }

  /** `s.strip()`: white space is removed from both ends and only there. */
  function Strip(s: string): (r: string)
    ensures Trimmed(r)
  {
    var l := LStrip(s);
    var r := RStrip(l);
    assert r != [] ==> r[0] == l[0];
    r
  }

  /** `r` is `s[i..j]`, and everything before i and from j on is white space. */
  predicate CutAtSpace(s: string, r: string, i: int, j: int)
  {
    && 0 <= i <= j <= |s| && r == s[i..j]
    && (forall k :: 0 <= k < i ==> PySpace(s[k]))
    && (forall k :: j <= k < |s| ==> PySpace(s[k]))
  }

  /**
   * The stripped string is a slice of the input, and everything cut off on
   * either side is white space; with Trimmed this fixes the result.
   */
  lemma StripIsSlice(s: string)
    ensures exists i, j :: CutAtSpace(s, Strip(s), i, j)
  {
    var l := LStrip(s);
    var r := RStrip(l);
    LStripCut(s);
    RStripCut(l);
    CutCompose(s, l, r, |s| - |l|, |r|);
    assert Strip(s) == r;
  }

  /** LStrip cuts white space off the front only. */
  lemma {:induction false} LStripCut(s: string)
    ensures CutAtSpace(s, LStrip(s), |s| - |LStrip(s)|, |s|)
  {
    if s != [] && PySpace(s[0]) {
      var t := LStrip(s[1..]);
      assert LStrip(s) == t;
      LStripCut(s[1..]);
      var i := |s| - 1 - |t|;
      assert CutAtSpace(s[1..], t, i, |s| - 1);
      CutFront(s, t, i, |s| - 1);
      assert CutAtSpace(s, t, i + 1, |s|);
    } else {
      CutNothing(s);
    }
  }

  /** RStrip cuts white space off the end only. */
  lemma {:induction false} RStripCut(s: string)
    ensures CutAtSpace(s, RStrip(s), 0, |RStrip(s)|)
  {
    if s != [] && PySpace(s[|s| - 1]) {
      RStripCut(s[..|s| - 1]);
      CutBack(s, RStrip(s[..|s| - 1]), 0, |RStrip(s[..|s| - 1])|);
    } else {
      CutNothing(s);
    }
  }

  lemma CutNothing(s: string)
    ensures CutAtSpace(s, s, 0, |s|)
  {
  }

  /** A white-space character in front moves the cut by one. */
  lemma CutFront(s: string, r: string, i: int, j: int)
    requires s != [] && PySpace(s[0]) && CutAtSpace(s[1..], r, i, j)
    ensures CutAtSpace(s, r, i + 1, j + 1)
  {
    assert r == s[i + 1..j + 1];
    forall k | 0 <= k < i + 1
      ensures PySpace(s[k])
    {
      if k > 0 {
        assert s[k] == s[1..][k - 1];
      }
    }
    forall k | j + 1 <= k < |s|
      ensures PySpace(s[k])
    {
      assert s[k] == s[1..][k - 1];
    }
  }

  /** A white-space character at the end leaves the cut where it is. */
  lemma CutBack(s: string, r: string, i: int, j: int)
    requires s != [] && PySpace(s[|s| - 1]) && CutAtSpace(s[..|s| - 1], r, i, j)
    ensures CutAtSpace(s, r, i, j)
  {
    assert r == s[i..j];
    forall k | j <= k < |s|
      ensures PySpace(s[k])
    {
      if k < |s| - 1 {
        assert s[k] == s[..|s| - 1][k];
      }
    }
  }

  /** A cut of a cut is a cut. */
  lemma CutCompose(s: string, l: string, r: string, i: int, n: int)
    requires CutAtSpace(s, l, i, |s|) && CutAtSpace(l, r, 0, n)
    ensures CutAtSpace(s, r, i, i + n)
  {
    assert r == s[i..i + n];
    forall k | i + n <= k < |s|
      ensures PySpace(s[k])
    {
      assert s[k] == l[k - i];
    }
  }

  /** Stripping a trimmed string changes nothing. */
  lemma StripTrimmed(s: string)
    requires Trimmed(s)
    ensures Strip(s) == s
  {
  }

  /** Trailing white space is stripped away. */
  lemma {:induction false} RStripSpace(s: string, c: char)
    requires PySpace(c)
    ensures RStrip(s + [c]) == RStrip(s)
  {
    assert (s + [c])[..|s|] == s;
  }

  // ---------------------------------------------------------------------
  // fio: "Last F.M.".

  /** `first_name[0] + '.'` when there is a first name, then the same for the middle name. */
  function Initials(first: string, middle: string): (r: string)
    ensures |r| == (if first != [] then 2 else 0) + (if middle != [] then 2 else 0)
    ensures r == [] || r[|r| - 1] == '.'
  {
    (if first != [] then [first[0], '.'] else []) + (if middle != [] then [middle[0], '.'] else [])
  }

  /** `f"{user.last_name} {initials}".strip()`. */
  function Fio(u: User): string
  {
    Strip(u.lastName + " " + Initials(u.firstName, u.middleName))
  }

  /**
   * With initials, a trimmed last name is followed by one space and the
   * initials: "Ivanov I.I.", "Ivanov I.", "Ivanov P." (middle name only).
   */
  lemma FioWithInitials(u: User)
    requires u.lastName != [] && Trimmed(u.lastName)
    requires u.firstName != [] || u.middleName != []
    ensures Fio(u) == u.lastName + " " + Initials(u.firstName, u.middleName)
    ensures u.firstName != [] ==> Fio(u)[|u.lastName| + 1] == u.firstName[0]
  {
    var s := u.lastName + " " + Initials(u.firstName, u.middleName);
    assert s[0] == u.lastName[0] && s[|s| - 1] == '.';
    StripTrimmed(s);
  }

  /** Without first and middle name the short name is just the last name. */
  lemma FioLastNameOnly(u: User)
    requires u.firstName == [] && u.middleName == [] && Trimmed(u.lastName)
    ensures Fio(u) == u.lastName
  {
    var s := u.lastName + " ";
    assert Initials(u.firstName, u.middleName) == [];
    assert u.lastName + " " + [] == u.lastName + [' '];
    if u.lastName == [] {
      assert s == [' '];
    } else {
      assert s[0] == u.lastName[0];
      assert LStrip(s) == s;
      RStripSpace(u.lastName, ' ');
    }
  }

  // ---------------------------------------------------------------------
  // GroupSerializer.get_members.

  /** The three values of a member entry's 'role'. */
  datatype Role = AdminRole | TeacherRole | StudentRole

  function RoleText(r: Role): string
  {
    match r
    case AdminRole => "admin"
    case TeacherRole => "teacher"
    case StudentRole => "student"
  }

  datatype Member = Member(id: nat, name: string, role: Role)

  function Rank(role: Role): nat
  {
    match role
    case AdminRole => 0
    case TeacherRole => 1
    case StudentRole => 2
  }

  /** The ids other than `a`, in order (`if t != obj.admin`). */
  function Others(ts: seq<nat>, a: nat): (r: seq<nat>)
    ensures |r| <= |ts|
    ensures forall x :: x in r <==> x in ts && x != a
  {
    if ts == [] then []
    else
      var init := ts[..|ts| - 1];
      var last := ts[|ts| - 1];
      assert ts == init + [last];
      Others(init, a) + (if last != a then [last] else [])
  }

  /** Where an id other than `a` stands among the others. */
  lemma OthersIndex(ts: seq<nat>, a: nat, u: nat) returns (j: nat)
    requires u != a && u in ts
    ensures j < |Others(ts, a)| && Others(ts, a)[j] == u
  {
    var f := Others(ts, a);
    assert u in f;
    j :| 0 <= j < |f| && f[j] == u;
  }

  /** Others is the filter by `t != admin`: the rest keep their order and repetitions. */
  lemma {:induction false} OthersIsFilter(ts: seq<nat>, a: nat)
    ensures Others(ts, a) == Filter(ts, t => t != a)
  {
    if ts != [] {
      var init := ts[..|ts| - 1];
      var last := ts[|ts| - 1];
      assert ts == init + [last];
      OthersIsFilter(init, a);
      FilterAppend(init, [last], t => t != a);
    }
  }

  /** One entry per id, in order, all with the same role. */
  function Tagged(ids: seq<nat>, role: Role, users: map<nat, User>): (r: seq<Member>)
    requires forall x :: x in ids ==> x in users
    ensures |r| == |ids|
    ensures forall i :: 0 <= i < |r| ==> r[i] == Member(ids[i], Fio(users[ids[i]]), role)
  {
    seq(|ids|, i requires 0 <= i < |ids| => Member(ids[i], Fio(users[ids[i]]), role))
  }

  predicate InUsers(grp: Group, ts: seq<nat>, ss: seq<nat>, users: map<nat, User>)
  {
    grp.admin in users && (forall t :: t in ts ==> t in users) && (forall s :: s in ss ==> s in users)
  }

  /**
   * The member list of a group whose teachers the query returns as `ts`
   * and whose students as `ss`: the admin, then every teacher other than
   * the admin, then every student.
   */
  function MemberList(grp: Group, ts: seq<nat>, ss: seq<nat>, users: map<nat, User>): seq<Member>
    requires InUsers(grp, ts, ss, users)
  {
    [Member(grp.admin, Fio(users[grp.admin]), AdminRole)]
    + Tagged(Others(ts, grp.admin), TeacherRole, users)
    + Tagged(ss, StudentRole, users)
  }

  lemma TaggedSnoc(ids: seq<nat>, x: nat, role: Role, users: map<nat, User>)
    requires forall y :: y in ids ==> y in users
    requires x in users
    ensures Tagged(ids + [x], role, users) == Tagged(ids, role, users) + [Member(x, Fio(users[x]), role)]
  {
  }

  lemma TakeSnoc(s: seq<nat>, i: nat)
    requires i < |s|
    ensures s[..i + 1] == s[..i] + [s[i]]
  {
  }

  lemma OthersSnoc(s: seq<nat>, x: nat, a: nat)
    ensures Others(s + [x], a) == Others(s, a) + (if x != a then [x] else [])
  {
    assert (s + [x])[..|s|] == s;
  }

  /** The loop over the teachers: every teacher but the admin, in query order. */
  method TeacherEntries(admin: nat, ts: seq<nat>, users: map<nat, User>) returns (es: seq<Member>)
    requires forall t :: t in ts ==> t in users
    ensures es == Tagged(Others(ts, admin), TeacherRole, users)
  {
    es := [];
    var i := 0;
    while i < |ts|
      invariant 0 <= i <= |ts|
      invariant es == Tagged(Others(ts[..i], admin), TeacherRole, users)
    {
      var t := ts[i];
      TakeSnoc(ts, i);
      OthersSnoc(ts[..i], t, admin);
      if t != admin {
        TaggedSnoc(Others(ts[..i], admin), t, TeacherRole, users);
        es := es + [Member(t, Fio(users[t]), TeacherRole)];
      } else {
        assert Others(ts[..i], admin) + [] == Others(ts[..i], admin);
      }
      i := i + 1;
    }
    assert ts[..i] == ts;
  }

  /** The loop over the students: all of them, in query order. */
  method StudentEntries(ss: seq<nat>, users: map<nat, User>) returns (es: seq<Member>)
    requires forall s :: s in ss ==> s in users
    ensures es == Tagged(ss, StudentRole, users)
  {
    es := [];
    var j := 0;
    while j < |ss|
      invariant 0 <= j <= |ss|
      invariant es == Tagged(ss[..j], StudentRole, users)
    {
      var s := ss[j];
      TakeSnoc(ss, j);
      TaggedSnoc(ss[..j], s, StudentRole, users);
      es := es + [Member(s, Fio(users[s]), StudentRole)];
      j := j + 1;
    }
    assert ss[..j] == ss;
  }

  /** get_members: the admin's entry, then the two loops' entries. */
  method GetMembers(grp: Group, ts: seq<nat>, ss: seq<nat>, users: map<nat, User>) returns (members: seq<Member>)
    requires InUsers(grp, ts, ss, users)
    ensures members == MemberList(grp, ts, ss, users)
  {
    members := [Member(grp.admin, Fio(users[grp.admin]), AdminRole)];
    var teachers := TeacherEntries(grp.admin, ts, users);
    members := members + teachers;
    var students := StudentEntries(ss, users);
    members := members + students;
  }

  /** The list in three slices: the admin's entry, the teachers' entries, the students' entries. */
  lemma Layout(grp: Group, ts: seq<nat>, ss: seq<nat>, users: map<nat, User>)
    requires InUsers(grp, ts, ss, users)
    ensures var r := MemberList(grp, ts, ss, users);
      var f := Others(ts, grp.admin);
      && |r| == 1 + |f| + |ss|
      && r[0] == Member(grp.admin, Fio(users[grp.admin]), AdminRole)
      && r[1..1 + |f|] == Tagged(f, TeacherRole, users)
      && r[1 + |f|..] == Tagged(ss, StudentRole, users)
  {
    var f := Others(ts, grp.admin);
    var head := [Member(grp.admin, Fio(users[grp.admin]), AdminRole)];
    var b := Tagged(f, TeacherRole, users);
    var c := Tagged(ss, StudentRole, users);
    var r := head + b + c;
    assert MemberList(grp, ts, ss, users) == r;
    assert r[1..1 + |f|] == b;
    assert r[1 + |f|..] == c;
  }

  /** The list is the admin's entry, the teachers' block and the students' block. */
  lemma Blocks(grp: Group, ts: seq<nat>, ss: seq<nat>, users: map<nat, User>)
    requires InUsers(grp, ts, ss, users)
    ensures MemberList(grp, ts, ss, users)
      == [Member(grp.admin, Fio(users[grp.admin]), AdminRole)]
         + Tagged(Others(ts, grp.admin), TeacherRole, users)
         + Tagged(ss, StudentRole, users)
  {
  }

  /** One entry for the admin, one per teacher other than the admin, one per student. */
  lemma Length(grp: Group, ts: seq<nat>, ss: seq<nat>, users: map<nat, User>)
    requires InUsers(grp, ts, ss, users)
    ensures |MemberList(grp, ts, ss, users)| == 1 + |Others(ts, grp.admin)| + |ss|
  {
  }

  /** Position 0 holds the admin. */
  lemma AdminAt(grp: Group, ts: seq<nat>, ss: seq<nat>, users: map<nat, User>)
    requires InUsers(grp, ts, ss, users)
    ensures |MemberList(grp, ts, ss, users)| > 0
    ensures MemberList(grp, ts, ss, users)[0] == Member(grp.admin, Fio(users[grp.admin]), AdminRole)
  {
  }

  /** Position 1 + k holds the k-th teacher other than the admin. */
  lemma TeacherAt(grp: Group, ts: seq<nat>, ss: seq<nat>, users: map<nat, User>, k: nat)
    requires InUsers(grp, ts, ss, users)
    requires k < |Others(ts, grp.admin)|
    ensures 1 + k < |MemberList(grp, ts, ss, users)|
    ensures MemberList(grp, ts, ss, users)[1 + k]
      == Member(Others(ts, grp.admin)[k], Fio(users[Others(ts, grp.admin)[k]]), TeacherRole)
  {
    var hb := [Member(grp.admin, Fio(users[grp.admin]), AdminRole)] + Tagged(Others(ts, grp.admin), TeacherRole, users);
    var c := Tagged(ss, StudentRole, users);
    Blocks(grp, ts, ss, users);
    assert MemberList(grp, ts, ss, users) == hb + c;
    assert (hb + c)[1 + k] == hb[1 + k];
  }

  /** The same, for the teacher `u` found at position k among the others. */
  lemma TeacherIdAt(grp: Group, ts: seq<nat>, ss: seq<nat>, users: map<nat, User>, k: nat, u: nat)
    requires InUsers(grp, ts, ss, users)
    requires k < |Others(ts, grp.admin)| && Others(ts, grp.admin)[k] == u
    ensures 1 + k < |MemberList(grp, ts, ss, users)|
    ensures MemberList(grp, ts, ss, users)[1 + k] == Member(u, Fio(users[u]), TeacherRole)
  {
    TeacherAt(grp, ts, ss, users, k);
  }

  /** Position 1 + |teachers other than the admin| + k holds the k-th student. */
  lemma StudentAt(grp: Group, ts: seq<nat>, ss: seq<nat>, users: map<nat, User>, k: nat)
    requires InUsers(grp, ts, ss, users)
    requires k < |ss|
    ensures 1 + |Others(ts, grp.admin)| + k < |MemberList(grp, ts, ss, users)|
    ensures MemberList(grp, ts, ss, users)[1 + |Others(ts, grp.admin)| + k]
      == Member(ss[k], Fio(users[ss[k]]), StudentRole)
  {
    var hb := [Member(grp.admin, Fio(users[grp.admin]), AdminRole)] + Tagged(Others(ts, grp.admin), TeacherRole, users);
    var c := Tagged(ss, StudentRole, users);
    Blocks(grp, ts, ss, users);
    assert MemberList(grp, ts, ss, users) == hb + c;
    assert |hb| == 1 + |Others(ts, grp.admin)|;
    assert (hb + c)[|hb| + k] == c[k];
  }

  /** The entry at each position: the admin, a listed teacher or a student. */
  lemma MemberAt(grp: Group, ts: seq<nat>, ss: seq<nat>, users: map<nat, User>, i: nat)
    requires InUsers(grp, ts, ss, users)
    requires i < |MemberList(grp, ts, ss, users)|
    ensures var r := MemberList(grp, ts, ss, users);
      var f := Others(ts, grp.admin);
      && |r| == 1 + |f| + |ss|
      && (i == 0 ==> r[i] == Member(grp.admin, Fio(users[grp.admin]), AdminRole))
      && (0 < i < 1 + |f| ==> r[i] == Member(f[i - 1], Fio(users[f[i - 1]]), TeacherRole))
      && (1 + |f| <= i ==> r[i] == Member(ss[i - 1 - |f|], Fio(users[ss[i - 1 - |f|]]), StudentRole))
  {
    var f := Others(ts, grp.admin);
    Length(grp, ts, ss, users);
    if i == 0 {
      AdminAt(grp, ts, ss, users);
    } else if i < 1 + |f| {
      TeacherAt(grp, ts, ss, users, i - 1);
    } else {
      StudentAt(grp, ts, ss, users, i - 1 - |f|);
    }
  }

  /** The admin comes first and nobody else is listed as admin. */
  lemma AdminFirst(grp: Group, ts: seq<nat>, ss: seq<nat>, users: map<nat, User>)
    requires InUsers(grp, ts, ss, users)
    ensures var r := MemberList(grp, ts, ss, users);
      r != [] && r[0] == Member(grp.admin, Fio(users[grp.admin]), AdminRole)
      && forall i :: 0 < i < |r| ==> r[i].role != AdminRole
  {
    var r := MemberList(grp, ts, ss, users);
    MemberAt(grp, ts, ss, users, 0);
    forall i | 0 < i < |r| ensures r[i].role != AdminRole {
      MemberAt(grp, ts, ss, users, i);
    }
  }

  /**
   * The admin, who is also in the teachers since create_group adds them,
   * never appears with role 'teacher'; a listed teacher is exactly a
   * returned teacher other than the admin.
   */
  lemma TeachersWithoutAdmin(grp: Group, ts: seq<nat>, ss: seq<nat>, users: map<nat, User>)
    requires InUsers(grp, ts, ss, users)
    ensures var r := MemberList(grp, ts, ss, users);
      && (forall i :: 0 <= i < |r| && r[i].role == TeacherRole ==> r[i].id != grp.admin && r[i].id in ts)
      && (forall t :: t in ts && t != grp.admin ==> exists i :: 0 <= i < |r| && r[i] == Member(t, Fio(users[t]), TeacherRole))
  {
    var r := MemberList(grp, ts, ss, users);
    var f := Others(ts, grp.admin);
    MemberAt(grp, ts, ss, users, 0);
    forall t | t in ts && t != grp.admin
      ensures exists i :: 0 <= i < |r| && r[i] == Member(t, Fio(users[t]), TeacherRole)
    {
      var k :| 0 <= k < |f| && f[k] == t;
      MemberAt(grp, ts, ss, users, 1 + k);
    }
    forall i | 0 <= i < |r| && r[i].role == TeacherRole ensures r[i].id != grp.admin && r[i].id in ts {
      MemberAt(grp, ts, ss, users, i);
      assert f[i - 1] in f;
    }
  }

  /** Roles are grouped: admin, then teachers, then students. */
  lemma RolesInOrder(grp: Group, ts: seq<nat>, ss: seq<nat>, users: map<nat, User>)
    requires InUsers(grp, ts, ss, users)
    ensures var r := MemberList(grp, ts, ss, users);
      forall i, j :: 0 <= i < j < |r| ==> Rank(r[i].role) <= Rank(r[j].role)
  {
    var r := MemberList(grp, ts, ss, users);
    var f := Others(ts, grp.admin);
    forall i | 0 <= i < |r| ensures Rank(r[i].role) == (if i == 0 then 0 else if i < 1 + |f| then 1 else 2) {
      MemberAt(grp, ts, ss, users, i);
    }
  }

  /** Students are appended unfiltered, each in its place after the teachers. */
  lemma StudentsUnfiltered(grp: Group, ts: seq<nat>, ss: seq<nat>, users: map<nat, User>)
    requires InUsers(grp, ts, ss, users)
    ensures var r := MemberList(grp, ts, ss, users);
      r[|r| - |ss|..] == Tagged(ss, StudentRole, users)
  {
  }

  /** `s` lists the set `xs`, each element once: what a query over a ManyToMany field returns. */
  ghost predicate Lists(s: seq<nat>, xs: set<nat>)
  {
    NoDup(s) && forall x :: x in s <==> x in xs
  }

  lemma {:induction false} DistinctCount(s: seq<nat>, xs: set<nat>)
    requires Lists(s, xs)
    ensures |xs| == |s|
  {
    if s != [] {
      var t := s[1..];
      assert forall x :: x in t ==> x in s;
      assert s[0] !in t;
      DistinctCount(t, xs - {s[0]});
    } else {
      assert xs == {};
    }
  }

  lemma {:induction false} OthersNoDup(s: seq<nat>, a: nat)
    requires NoDup(s)
    ensures NoDup(Others(s, a))
  {
    if s != [] {
      var init := s[..|s| - 1];
      var last := s[|s| - 1];
      assert NoDup(init);
      OthersNoDup(init, a);
      if last != a {
        assert last !in init;
        assert last !in Others(init, a);
      }
    }
  }

  /** |members| = 1 + |teachers \ {admin}| + |students|. */
  lemma MembersCount(grp: Group, ts: seq<nat>, ss: seq<nat>, users: map<nat, User>)
    requires InUsers(grp, ts, ss, users)
    requires Lists(ts, grp.teachers) && Lists(ss, grp.students)
    ensures |MemberList(grp, ts, ss, users)| == 1 + |grp.teachers - {grp.admin}| + |grp.students|
  {
    var f := Others(ts, grp.admin);
    OthersNoDup(ts, grp.admin);
    DistinctCount(f, grp.teachers - {grp.admin});
    DistinctCount(ss, grp.students);
  }

  // ---------------------------------------------------------------------
  // CommentSerializer.get_author_role.

  /** The label shown next to a comment's author: only teachers and admins get one. */
  function AuthorRole(role: string): (r: string)
    ensures r != [] <==> role == "teacher" || role == "admin"
    ensures role == "teacher" ==> r == "Преподаватель"
    ensures role == "admin" ==> r == "Админ"
  {
    if role == "teacher" then "Преподаватель"
    else if role == "student" then ""
    else if role == "admin" then "Админ"
    else ""
  }

  // ---------------------------------------------------------------------
  // NotificationSerializer's computed fields.

  /** from_user_name: the sender's short name, or null when there is no sender. */
  function FromUserName(n: Notif, users: map<nat, User>): (r: Option<string>)
    requires n.fromUser.Some? ==> n.fromUser.value in users
    ensures r.Some? <==> n.fromUser.Some?
    ensures r.Some? ==> r.value == Fio(users[n.fromUser.value])
  {
    if n.fromUser.Some? then Some(Fio(users[n.fromUser.value])) else None
  }

  /** group_name: the group's name, or null when the row names no group. */
  function GroupName(n: Notif, groups: map<nat, Group>): (r: Option<string>)
    requires n.group.Some? ==> n.group.value in groups
    ensures r.Some? <==> n.group.Some?
    ensures r.Some? ==> r.value == groups[n.group.value].name
  {
    if n.group.Some? then Some(groups[n.group.value].name) else None
  }

  /** post_title: the post's title, or null when the row names no post. */
  function PostTitle(n: Notif, posts: map<nat, Post>): (r: Option<string>)
    requires n.post.Some? ==> n.post.value in posts
    ensures r.Some? <==> n.post.Some?
    ensures r.Some? ==> r.value == posts[n.post.value].title
  {
    if n.post.Some? then Some(posts[n.post.value].title) else None
  }

  /** current_date: the day number of the clock reading `now` (seconds), the day that contains it. */
  function CurrentDate(now: int): (d: int)
    ensures d * SecondsPerDay <= now < (d + 1) * SecondsPerDay
  {
    now / SecondsPerDay
  }
}
