// frontend/src/components/GroupsTeacherPage.jsx: the teacher's list of
// groups. The role the viewer has in each group orders the list (admin
// groups, then teacher groups, then the rest); the sort is a stable sort
// with the page's comparator, modelled as an insertion sort and proved
// equal to the grouping by rank.

module GroupsTeacherPage {
  import opened Common
  import opened ApiSerializers

  /** A group as GET /groups/my/ returns it; `members` may be absent. */
  datatype GroupCard = GroupCard(id: nat, name: string, adminId: nat, members: Option<seq<Member>>)

  /** `group.members.some(m => m.id === user?.id && m.role === 'teacher')`. */
  predicate ListedAsTeacher(g: GroupCard, viewer: Option<nat>)
  {
    && g.members.Some?
    && exists i :: 0 <= i < |g.members.value|
         && viewer == Some(g.members.value[i].id) && g.members.value[i].role == TeacherRole
  }

  /** getUserRoleInGroup: admin, else teacher, else student; never null. */
  function RoleIn(g: GroupCard, viewer: Option<nat>): (r: Role)
    ensures r == AdminRole <==> viewer == Some(g.adminId)
    ensures r == TeacherRole <==> viewer != Some(g.adminId) && ListedAsTeacher(g, viewer)
  {
    if viewer == Some(g.adminId) then AdminRole
    else if ListedAsTeacher(g, viewer) then TeacherRole
    else StudentRole
  }

  /** The comparator of sortedGroups, as written. */
  function Compare(a: GroupCard, b: GroupCard, viewer: Option<nat>): int
  {
    var ra := RoleIn(a, viewer);
    var rb := RoleIn(b, viewer);
    if ra == rb then 0
    else if ra == AdminRole then -1
    else if rb == AdminRole then 1
    else if ra == TeacherRole then -1
    else if rb == TeacherRole then 1
    else 0
  }

  function RankIn(g: GroupCard, viewer: Option<nat>): nat
  {
    Rank(RoleIn(g, viewer))
  }

  /** The comparator orders by rank (admin 0, teacher 1, other 2) and calls equal ranks equal. */
  lemma CompareIsRankOrder(a: GroupCard, b: GroupCard, viewer: Option<nat>)
    ensures Compare(a, b, viewer) < 0 <==> RankIn(a, viewer) < RankIn(b, viewer)
    ensures Compare(a, b, viewer) == 0 <==> RankIn(a, viewer) == RankIn(b, viewer)
    ensures Compare(a, b, viewer) > 0 <==> RankIn(a, viewer) > RankIn(b, viewer)
  {
  }

  // ---------------------------------------------------------------------
  // The sort: Array.prototype.sort is stable, so with a comparator that
  // orders by a rank it places each element after every earlier element of
  // no greater rank. Stated for any rank into {0, 1, 2}.

  /** Every element has rank 0, 1 or 2. */
  predicate RanksBelow3<X>(s: seq<X>, rank: X -> nat)
  {
    forall i :: 0 <= i < |s| ==> rank(s[i]) <= 2
  }

  /** No element ranks below one before it. */
  predicate OrderedBy<X>(r: seq<X>, rank: X -> nat)
  {
    forall i, j :: 0 <= i < j < |r| ==> rank(r[i]) <= rank(r[j])
  }

  /** Inserts `x` after the last element of `t` whose rank is not above its own. */
  function InsertBy<X>(t: seq<X>, x: X, rank: X -> nat): (r: seq<X>)
    ensures |r| == |t| + 1
  {
    if t == [] || rank(t[|t| - 1]) <= rank(x) then t + [x]
    else InsertBy(t[..|t| - 1], x, rank) + [t[|t| - 1]]
  }

  /** Inserting adds `x` and loses nothing. */
  lemma {:induction false} InsertByPerm<X>(t: seq<X>, x: X, rank: X -> nat)
    ensures multiset(InsertBy(t, x, rank)) == multiset(t) + multiset{x}
  {
    if t != [] && rank(t[|t| - 1]) > rank(x) {
      var init := t[..|t| - 1];
      assert t == init + [t[|t| - 1]];
      InsertByPerm(init, x, rank);
    }
  }

  function SortBy<X>(s: seq<X>, rank: X -> nat): (r: seq<X>)
    ensures |r| == |s|
  {
    if s == [] then []
    else InsertBy(SortBy(s[..|s| - 1], rank), s[|s| - 1], rank)
  }

  /** Sorting rearranges: the result holds the same elements, as often. */
  lemma {:induction false} SortByPerm<X>(s: seq<X>, rank: X -> nat)
    ensures multiset(SortBy(s, rank)) == multiset(s)
  {
    if s != [] {
      var init := s[..|s| - 1];
      assert s == init + [s[|s| - 1]];
      SortByPerm(init, rank);
      InsertByPerm(SortBy(init, rank), s[|s| - 1], rank);
    }
  }

  /** The reference: the elements of rank k, in their original order ... */
  function OfRank<X>(s: seq<X>, k: nat, rank: X -> nat): (r: seq<X>)
    ensures forall i :: 0 <= i < |r| ==> rank(r[i]) == k
  {
    if s == [] then []
    else
      var init := OfRank(s[..|s| - 1], k, rank);
      if rank(s[|s| - 1]) == k then init + [s[|s| - 1]] else init
  }

  /** ... and those of rank 0, then 1, then 2. */
  function ByRank<X>(s: seq<X>, rank: X -> nat): seq<X>
  {
    OfRank(s, 0, rank) + OfRank(s, 1, rank) + OfRank(s, 2, rank)
  }

  lemma OfRankSnoc<X>(s: seq<X>, x: X, k: nat, rank: X -> nat)
    ensures OfRank(s + [x], k, rank) == OfRank(s, k, rank) + (if rank(x) == k then [x] else [])
  {
    var s' := s + [x];
    assert s'[..|s'| - 1] == s;
  }

  lemma {:induction false} OfRankEmpty<X>(s: seq<X>, k: nat, rank: X -> nat)
    requires forall i :: 0 <= i < |s| ==> rank(s[i]) != k
    ensures OfRank(s, k, rank) == []
  {
    if s != [] {
      OfRankEmpty(s[..|s| - 1], k, rank);
    }
  }

  /** An element ranked above `x` at the end stays at the end. */
  lemma InsertPast<X>(t: seq<X>, x: X, rank: X -> nat)
    requires t != [] && rank(t[|t| - 1]) > rank(x)
    ensures InsertBy(t, x, rank) == InsertBy(t[..|t| - 1], x, rank) + [t[|t| - 1]]
  {
  }

  /** Inserting before a run of higher-ranked elements, after a lower-or-equal one. */
  lemma {:induction false} InsertBefore<X>(t: seq<X>, u: seq<X>, x: X, rank: X -> nat)
    requires t == [] || rank(t[|t| - 1]) <= rank(x)
    requires forall i :: 0 <= i < |u| ==> rank(u[i]) > rank(x)
    ensures InsertBy(t + u, x, rank) == t + [x] + u
  {
    if u == [] {
      assert t + u == t;
    } else {
      var u' := u[..|u| - 1];
      var last := u[|u| - 1];
      var tu := t + u;
      assert u == u' + [last];
      assert tu[|tu| - 1] == last;
      assert tu[..|tu| - 1] == t + u';
      InsertPast(tu, x, rank);
      InsertBefore(t, u', x, rank);
      assert t + [x] + u == (t + [x] + u') + [last];
    }
  }

  lemma InsertRankZero<X>(b0: seq<X>, b1: seq<X>, b2: seq<X>, x: X, rank: X -> nat)
    requires rank(x) == 0
    requires forall i :: 0 <= i < |b0| ==> rank(b0[i]) == 0
    requires forall i :: 0 <= i < |b1| ==> rank(b1[i]) == 1
    requires forall i :: 0 <= i < |b2| ==> rank(b2[i]) == 2
    ensures InsertBy(b0 + b1 + b2, x, rank) == (b0 + [x]) + b1 + b2
  {
    var u := b1 + b2;
    RanksAboveZero(b1, b2, rank);
    assert b0 == [] || rank(b0[|b0| - 1]) <= rank(x);
    InsertBefore(b0, u, x, rank);
    Regroup(b0, b1, b2, x);
  }

  lemma RanksAboveZero<X>(b1: seq<X>, b2: seq<X>, rank: X -> nat)
    requires forall i :: 0 <= i < |b1| ==> rank(b1[i]) == 1
    requires forall i :: 0 <= i < |b2| ==> rank(b2[i]) == 2
    ensures forall i :: 0 <= i < |b1 + b2| ==> rank((b1 + b2)[i]) > 0
  {
    forall i | 0 <= i < |b1 + b2| ensures rank((b1 + b2)[i]) > 0 {
      if i < |b1| { assert (b1 + b2)[i] == b1[i]; } else { assert (b1 + b2)[i] == b2[i - |b1|]; }
    }
  }

  lemma Regroup<X>(b0: seq<X>, b1: seq<X>, b2: seq<X>, x: X)
    ensures b0 + b1 + b2 == b0 + (b1 + b2)
    ensures (b0 + [x]) + b1 + b2 == b0 + [x] + (b1 + b2)
  {
  }

  /** The last element of `t`, if any, ranks at most `k`. */
  predicate LastAtMost<X>(t: seq<X>, k: nat, rank: X -> nat)
  {
    t == [] || rank(t[|t| - 1]) <= k
  }

  lemma LastAtMostConcat<X>(a: seq<X>, b: seq<X>, k: nat, rank: X -> nat)
    requires LastAtMost(a, k, rank) && LastAtMost(b, k, rank)
    ensures LastAtMost(a + b, k, rank)
  {
    if b != [] {
      assert (a + b)[|a + b| - 1] == b[|b| - 1];
    }
  }

  lemma InsertRankOne<X>(b0: seq<X>, b1: seq<X>, b2: seq<X>, x: X, rank: X -> nat)
    requires rank(x) == 1
    requires forall i :: 0 <= i < |b0| ==> rank(b0[i]) == 0
    requires forall i :: 0 <= i < |b1| ==> rank(b1[i]) == 1
    requires forall i :: 0 <= i < |b2| ==> rank(b2[i]) == 2
    ensures InsertBy(b0 + b1 + b2, x, rank) == b0 + (b1 + [x]) + b2
  {
    assert b0 != [] ==> rank(b0[|b0| - 1]) == 0;
    assert b1 != [] ==> rank(b1[|b1| - 1]) == 1;
    var t := b0 + b1;
    LastAtMostConcat(b0, b1, 1, rank);
    InsertBefore(t, b2, x, rank);
    assert t + [x] + b2 == b0 + (b1 + [x]) + b2;
  }

  lemma InsertRankTwo<X>(b0: seq<X>, b1: seq<X>, b2: seq<X>, x: X, rank: X -> nat)
    requires rank(x) == 2
    requires forall i :: 0 <= i < |b0| ==> rank(b0[i]) == 0
    requires forall i :: 0 <= i < |b1| ==> rank(b1[i]) == 1
    requires forall i :: 0 <= i < |b2| ==> rank(b2[i]) == 2
    ensures InsertBy(b0 + b1 + b2, x, rank) == b0 + b1 + (b2 + [x])
  {
    assert b0 != [] ==> rank(b0[|b0| - 1]) == 0;
    assert b1 != [] ==> rank(b1[|b1| - 1]) == 1;
    assert b2 != [] ==> rank(b2[|b2| - 1]) == 2;
    LastAtMostConcat(b0, b1, 2, rank);
    var t := b0 + b1 + b2;
    LastAtMostConcat(b0 + b1, b2, 2, rank);
    assert InsertBy(t, x, rank) == t + [x];
    assert t + [x] == b0 + b1 + (b2 + [x]);
  }

  lemma InsertIntoRanks<X>(s: seq<X>, x: X, rank: X -> nat)
    requires rank(x) <= 2
    ensures InsertBy(ByRank(s, rank), x, rank) == ByRank(s + [x], rank)
  {
    var b0, b1, b2 := OfRank(s, 0, rank), OfRank(s, 1, rank), OfRank(s, 2, rank);
    OfRankSnoc(s, x, 0, rank);
    OfRankSnoc(s, x, 1, rank);
    OfRankSnoc(s, x, 2, rank);
    if rank(x) == 0 {
      InsertRankZero(b0, b1, b2, x, rank);
    } else if rank(x) == 1 {
      InsertRankOne(b0, b1, b2, x, rank);
    } else {
      InsertRankTwo(b0, b1, b2, x, rank);
    }
  }

  /** The insertion sort yields exactly the elements of each rank, in original order. */
  lemma {:induction false} SortIsByRank<X>(s: seq<X>, rank: X -> nat)
    requires RanksBelow3(s, rank)
    ensures SortBy(s, rank) == ByRank(s, rank)
  {
    if s != [] {
      var init := s[..|s| - 1];
      var x := s[|s| - 1];
      assert s == init + [x];
      SortIsByRank(init, rank);
      InsertIntoRanks(init, x, rank);
    }
  }

  /** Every element of rank 0 comes before every element of rank 1, and both before those of rank 2. */
  lemma SortedByRank<X>(s: seq<X>, rank: X -> nat)
    requires RanksBelow3(s, rank)
    ensures OrderedBy(SortBy(s, rank), rank)
  {
    SortIsByRank(s, rank);
    var b0, b1, b2 := OfRank(s, 0, rank), OfRank(s, 1, rank), OfRank(s, 2, rank);
    var r := b0 + b1 + b2;
    forall i | 0 <= i < |r| ensures rank(r[i]) == if i < |b0| then 0 else if i < |b0| + |b1| then 1 else 2 {
      if i < |b0| { assert r[i] == b0[i]; }
      else if i < |b0| + |b1| { assert r[i] == b1[i - |b0|]; }
      else { assert r[i] == b2[i - |b0| - |b1|]; }
    }
  }

  lemma {:induction false} OfRankAppend<X>(a: seq<X>, b: seq<X>, k: nat, rank: X -> nat)
    ensures OfRank(a + b, k, rank) == OfRank(a, k, rank) + OfRank(b, k, rank)
  {
    if b == [] {
      assert a + b == a;
    } else {
      var b' := b[..|b| - 1];
      assert (a + b)[..|a + b| - 1] == a + b';
      OfRankAppend(a, b', k, rank);
    }
  }

  lemma {:induction false} OfRankAll<X>(s: seq<X>, k: nat, j: nat, rank: X -> nat)
    requires forall i :: 0 <= i < |s| ==> rank(s[i]) == k
    ensures OfRank(s, j, rank) == if j == k then s else []
  {
    if s != [] {
      var init := s[..|s| - 1];
      assert forall i :: 0 <= i < |init| ==> init[i] == s[i];
      OfRankAll(init, k, j, rank);
      assert s == init + [s[|s| - 1]];
    }
  }

  /** Stability: the elements of one rank keep their original relative order. */
  lemma SortIsStable<X>(s: seq<X>, k: nat, rank: X -> nat)
    requires RanksBelow3(s, rank)
    ensures OfRank(SortBy(s, rank), k, rank) == OfRank(s, k, rank)
  {
    SortIsByRank(s, rank);
    OfRankOfBlocks(OfRank(s, 0, rank), OfRank(s, 1, rank), OfRank(s, 2, rank), k, rank);
    if k > 2 {
      OfRankEmpty(s, k, rank);
    }
  }

  /** Picking rank k out of three blocks of ranks 0, 1 and 2 gives back block k. */
  lemma OfRankOfBlocks<X>(b0: seq<X>, b1: seq<X>, b2: seq<X>, k: nat, rank: X -> nat)
    requires forall i :: 0 <= i < |b0| ==> rank(b0[i]) == 0
    requires forall i :: 0 <= i < |b1| ==> rank(b1[i]) == 1
    requires forall i :: 0 <= i < |b2| ==> rank(b2[i]) == 2
    ensures OfRank(b0 + b1 + b2, k, rank) == if k == 0 then b0 else if k == 1 then b1 else if k == 2 then b2 else []
  {
    OfRankAppend(b0 + b1, b2, k, rank);
    OfRankAppend(b0, b1, k, rank);
    var r0, r1, r2 := OfRank(b0, k, rank), OfRank(b1, k, rank), OfRank(b2, k, rank);
    OfRankAll(b0, 0, k, rank);
    OfRankAll(b1, 1, k, rank);
    OfRankAll(b2, 2, k, rank);
    if k == 0 {
      assert r0 + r1 + r2 == b0;
    } else if k == 1 {
      assert r0 + r1 + r2 == b1;
    } else if k == 2 {
      assert r0 + r1 + r2 == b2;
    } else {
      assert r0 + r1 + r2 == [];
    }
  }


  /** One step of SortedIsByRank: appending an element of the highest rank so far. */
  lemma SnocByRank<X>(init: seq<X>, x: X, rank: X -> nat)
    requires rank(x) <= 2
    requires forall i :: 0 <= i < |init| ==> rank(init[i]) <= rank(x)
    requires init == ByRank(init, rank)
    ensures init + [x] == ByRank(init + [x], rank)
  {
    OfRankSnoc(init, x, 0, rank);
    OfRankSnoc(init, x, 1, rank);
    OfRankSnoc(init, x, 2, rank);
    if rank(x) == 0 {
      OfRankEmpty(init, 1, rank);
      OfRankEmpty(init, 2, rank);
    } else if rank(x) == 1 {
      OfRankEmpty(init, 2, rank);
    }
  }

  /** A list ordered by rank is its own grouping by rank. */
  lemma {:induction false} SortedIsByRank<X>(r: seq<X>, rank: X -> nat)
    requires RanksBelow3(r, rank)
    requires OrderedBy(r, rank)
    ensures r == ByRank(r, rank)
  {
    if r != [] {
      var init := r[..|r| - 1];
      var x := r[|r| - 1];
      assert r == init + [x];
      assert forall i :: 0 <= i < |init| ==> init[i] == r[i];
      SortedIsByRank(init, rank);
      SnocByRank(init, x, rank);
    }
  }

  /**
   * Any arrangement ordered by rank that keeps each rank's elements in
   * their original order is the sort's: the three properties pin it down.
   */
  lemma SortUnique<X>(s: seq<X>, r: seq<X>, rank: X -> nat)
    requires RanksBelow3(s, rank) && RanksBelow3(r, rank)
    requires OrderedBy(r, rank)
    requires forall k :: OfRank(r, k, rank) == OfRank(s, k, rank)
    ensures r == SortBy(s, rank)
  {
    SortIsByRank(s, rank);
    SortedIsByRank(r, rank);
    assert OfRank(r, 0, rank) == OfRank(s, 0, rank);
    assert OfRank(r, 1, rank) == OfRank(s, 1, rank);
    assert OfRank(r, 2, rank) == OfRank(s, 2, rank);
  }

  /** The order the page sorts by: the rank of the viewer's role in a group. */
  function RankOf(viewer: Option<nat>): GroupCard -> nat
  {
    g => RankIn(g, viewer)
  }

  /** sortedGroups: the stable sort of an array with the comparator above, and [] for anything else. */
  function SortedGroups(groups: Option<seq<GroupCard>>, viewer: Option<nat>): (r: seq<GroupCard>)
    ensures groups.Some? ==> multiset(r) == multiset(groups.value)
    ensures groups.None? ==> r == []
  {
    if groups.Some? then
      SortByPerm(groups.value, RankOf(viewer));
      SortBy(groups.value, RankOf(viewer))
    else []
  }

  /** On the page: admin groups first, then teacher groups, then the rest, each in server order. */
  lemma SortedGroupsOrder(gs: seq<GroupCard>, viewer: Option<nat>)
    ensures var r := SortedGroups(Some(gs), viewer);
      && (forall i, j :: 0 <= i < j < |r| ==> RankIn(r[i], viewer) <= RankIn(r[j], viewer))
      && (forall k :: OfRank(r, k, RankOf(viewer)) == OfRank(gs, k, RankOf(viewer)))
  {
    var rank := RankOf(viewer);
    assert forall g :: rank(g) == RankIn(g, viewer);
    assert RanksBelow3(gs, rank);
    SortedByRank(gs, rank);
    var r := SortBy(gs, rank);
    assert OrderedBy(r, rank);
    forall i, j | 0 <= i < j < |r| ensures RankIn(r[i], viewer) <= RankIn(r[j], viewer) {
      assert rank(r[i]) <= rank(r[j]);
    }
    forall k ensures OfRank(SortBy(gs, rank), k, rank) == OfRank(gs, k, rank) {
      SortIsStable(gs, k, rank);
    }
  }

  // ---------------------------------------------------------------------
  // Handlers.

  /** The delete control is offered only on groups the viewer administers, the groups delete_group accepts. */
  predicate ShowDelete(g: GroupCard, viewer: Option<nat>)
  {
    RoleIn(g, viewer) == AdminRole
  }

  lemma DeleteOfferedToAdmin(g: GroupCard, viewer: Option<nat>)
    requires ShowDelete(g, viewer)
    ensures viewer == Some(g.adminId)
  {
  }

  /** `prev.filter(g => g.id !== groupToDelete.id)`. */
  function WithoutId(gs: seq<GroupCard>, id: nat): (r: seq<GroupCard>)
    ensures |r| <= |gs|
    ensures forall g :: g in r <==> g in gs && g.id != id
  {
    if gs == [] then []
    else
      var init := WithoutId(gs[..|gs| - 1], id);
      var last := gs[|gs| - 1];
      assert gs == gs[..|gs| - 1] + [last];
      if last.id == id then init else init + [last]
  }

  const CreateFailed := "Ошибка создания группы"

  /** The page's React state that the handlers touch; `groups` is None when it is not an array. */
  datatype TeacherState = TeacherState(
    groups: Option<seq<GroupCard>>, toDelete: Option<GroupCard>, showDelete: bool,
    showCreate: bool, groupName: string, groupInfo: string, createError: Option<string>)

  class GroupsView {
    var st: TeacherState

    constructor ()
      ensures st == TeacherState(Some([]), None, false, false, "", "", None)
    {
      st := TeacherState(Some([]), None, false, false, "", "", None);
    }

    /** handleCreateGroup: the created group goes last; a non-array list becomes [it]. */
    method CreateGroup(created: Option<GroupCard>)
      modifies this
      ensures created.Some? ==> st == old(st).(
        groups := Some(if old(st).groups.Some? then old(st).groups.value + [created.value] else [created.value]),
        showCreate := false, groupName := "", groupInfo := "")
      ensures created.None? ==> st == old(st).(createError := Some(CreateFailed))
    {
      if created.Some? {
        var gs := if st.groups.Some? then st.groups.value + [created.value] else [created.value];
        st := st.(groups := Some(gs), showCreate := false, groupName := "", groupInfo := "");
      } else {
        st := st.(createError := Some(CreateFailed));
      }
    }

    /**
     * handleDeleteGroup: without a chosen group nothing happens; on success
     * exactly the groups with that id go and the dialog closes; on failure
     * the list stays (the alert is not modelled). A group is chosen from the
     * rendered array, so the list is one then.
     */
    method DeleteGroup(ok: bool) returns (sent: bool)
      requires st.toDelete.Some? ==> st.groups.Some?
      modifies this
      ensures sent <==> old(st).toDelete.Some?
      ensures !sent || !ok ==> st == old(st)
      ensures sent && ok ==> st == old(st).(
        groups := Some(WithoutId(old(st).groups.value, old(st).toDelete.value.id)),
        showDelete := false, toDelete := None)
    {
      if st.toDelete.None? {
        return false;
      }
      sent := true;
      if ok {
        st := st.(groups := Some(WithoutId(st.groups.value, st.toDelete.value.id)),
                  showDelete := false, toDelete := None);
      }
    }
  }
}
