// frontend/src/components/GroupPage.jsx: one group's page. Pure parts
// (the selection toggle, the bulk filter, attachment de-duplication, the
// controls shown per member row, the deadline and e-mail checks) are
// functions; the handlers are methods of a `GroupView` whose one field is
// the page's React state.

module GroupPage {
  import opened Common
  import opened Models
  import opened ApiSerializers
  import Dates
  import EmailPatterns
  import PostService

  type Upload = PostService.Upload

  /** A post as listed on the page; only its id matters to the handlers. */
  datatype PostItem = PostItem(id: nat, title: string)

  // ---------------------------------------------------------------------
  // Selection for bulk delete.

  /** handleSelectPost: a selected id is removed (every occurrence), another one appended. */
  function Toggle(sel: seq<nat>, id: nat): (r: seq<nat>)
    ensures id in r <==> id !in sel
    ensures forall x :: x != id ==> (x in r <==> x in sel)
    ensures id !in sel ==> r == sel + [id]
  {
    if id in sel then RemoveAll(sel, id) else sel + [id]
  }

  /** Toggling never introduces a duplicate. */
  lemma ToggleNoDup(sel: seq<nat>, id: nat)
    requires NoDup(sel)
    ensures NoDup(Toggle(sel, id))
  {
    if id !in sel {
      var r := sel + [id];
      forall i, j | 0 <= i < j < |r| ensures r[i] != r[j] {
        if j == |sel| { assert r[i] == sel[i]; }
      }
    }
  }

  /** Two toggles of the same id restore which ids are selected; from an unselected id, the very list. */
  lemma ToggleTwice(sel: seq<nat>, id: nat)
    ensures forall x :: x in Toggle(Toggle(sel, id), id) <==> x in sel
    ensures id !in sel ==> Toggle(Toggle(sel, id), id) == sel
  {
    if id !in sel {
      var r := sel + [id];
      assert r[..|sel|] == sel;
      RemoveLast(sel, id);
    }
  }

  lemma {:induction false} RemoveLast(s: seq<nat>, x: nat)
    requires x !in s
    ensures RemoveAll(s + [x], x) == s
  {
    if s != [] {
      assert (s + [x])[1..] == s[1..] + [x];
      RemoveLast(s[1..], x);
      assert s == [s[0]] + s[1..];
    }
  }

  /** `posts.filter(p => !selectedPosts.includes(p.id))`. */
  function KeepUnselected(posts: seq<PostItem>, sel: seq<nat>): (r: seq<PostItem>)
    ensures |r| <= |posts|
    ensures forall p :: p in r <==> p in posts && p.id !in sel
  {
    if posts == [] then []
    else
      var init := KeepUnselected(posts[..|posts| - 1], sel);
      var last := posts[|posts| - 1];
      assert posts == posts[..|posts| - 1] + [last];
      if last.id in sel then init else init + [last]
  }

  /** The filter keeps order: it distributes over concatenation ... */
  lemma {:induction false} KeepUnselectedAppend(a: seq<PostItem>, b: seq<PostItem>, sel: seq<nat>)
    ensures KeepUnselected(a + b, sel) == KeepUnselected(a, sel) + KeepUnselected(b, sel)
  {
    if b != [] {
      var b' := b[..|b| - 1];
      assert (a + b)[..|a + b| - 1] == a + b';
      KeepUnselectedAppend(a, b', sel);
    } else {
      assert a + b == a;
    }
  }

  /** ... and leaves a list with no selected post as it is. */
  lemma {:induction false} KeepUnselectedNone(posts: seq<PostItem>, sel: seq<nat>)
    requires forall i :: 0 <= i < |posts| ==> posts[i].id !in sel
    ensures KeepUnselected(posts, sel) == posts
  {
    if posts != [] {
      var init := posts[..|posts| - 1];
      var last := posts[|posts| - 1];
      forall i | 0 <= i < |init|
        ensures init[i].id !in sel
      {
        assert init[i] == posts[i];
      }
      KeepUnselectedNone(init, sel);
      assert last.id !in sel;
      assert KeepUnselected(posts, sel) == init + [last];
      assert posts == init + [last];
    }
  }

  // ---------------------------------------------------------------------
  // Attachments of the new post.

  /** The files of a batch not already listed with the same name and size (within the batch, duplicates stay). */
  function Fresh(prev: seq<Upload>, batch: seq<Upload>): (r: seq<Upload>)
    ensures |r| <= |batch|
    ensures forall f :: f in r <==> f in batch && f !in prev
  {
    if batch == [] then []
    else
      var init := Fresh(prev, batch[..|batch| - 1]);
      var last := batch[|batch| - 1];
      assert batch == batch[..|batch| - 1] + [last];
      if last in prev then init else init + [last]
  }

  /** The file input's onChange: listed files keep their place, the fresh ones follow. */
  function AddAttachments(prev: seq<Upload>, batch: seq<Upload>): (r: seq<Upload>)
    ensures |prev| <= |r| <= |prev| + |batch|
    ensures r[..|prev|] == prev
    ensures forall f :: f in r <==> f in prev || f in batch
  {
    prev + Fresh(prev, batch)
  }

  lemma {:induction false} FreshAllKnown(prev: seq<Upload>, batch: seq<Upload>)
    requires forall f :: f in batch ==> f in prev
    ensures Fresh(prev, batch) == []
  {
    if batch != [] {
      assert batch[|batch| - 1] in batch;
      assert forall f :: f in batch[..|batch| - 1] ==> f in batch;
      FreshAllKnown(prev, batch[..|batch| - 1]);
    }
  }

  /** Choosing the same files again adds nothing. */
  lemma AddAttachmentsIdempotent(prev: seq<Upload>, batch: seq<Upload>)
    ensures AddAttachments(AddAttachments(prev, batch), batch) == AddAttachments(prev, batch)
  {
    var once := AddAttachments(prev, batch);
    FreshAllKnown(once, batch);
    assert once + [] == once;
  }

  /** Duplicates inside one batch are not removed. */
  lemma BatchDuplicatesKept(f: Upload)
    ensures AddAttachments([], [f, f]) == [f, f]
  {
    assert [f, f][..1] == [f];
    assert Fresh([], [f]) == [f] by { assert [f][..0] == []; }
  }

  // ---------------------------------------------------------------------
  // Controls per member row; the viewer is `user?.id`.

  /** "Исключить": the viewer is the admin, the row is not the viewer and not the admin. */
  predicate ShowExclude(adminId: nat, viewer: Option<nat>, m: Member)
  {
    viewer == Some(adminId) && viewer != Some(m.id) && m.role != AdminRole
  }

  /** "Выйти": the viewer's own row, as a teacher who is not the admin, or as a student. */
  predicate ShowLeave(adminId: nat, viewer: Option<nat>, m: Member)
  {
    (viewer == Some(m.id) && m.role == TeacherRole && viewer != Some(adminId))
    || (viewer == Some(m.id) && m.role == StudentRole)
  }

  /**
   * On the member list the backend builds, "Исключить" is shown to the
   * admin on exactly the rows of other teachers and of students other than
   * the admin: the rows exclude_member accepts.
   */
  lemma ExcludeShownOnTargets(grp: Group, ts: seq<nat>, ss: seq<nat>, users: map<nat, User>, i: nat)
    requires InUsers(grp, ts, ss, users)
    requires i < |MemberList(grp, ts, ss, users)|
    ensures var m := MemberList(grp, ts, ss, users)[i];
      ShowExclude(grp.admin, Some(grp.admin), m) <==> i > 0 && m.id != grp.admin
    ensures var m := MemberList(grp, ts, ss, users)[i];
      ShowExclude(grp.admin, Some(grp.admin), m) ==> m.id in ts || m.id in ss
  {
    EntryRole(grp, ts, ss, users, i);
  }

  /** Only the first row carries the admin role; every later row is a listed teacher or student. */
  lemma EntryRole(grp: Group, ts: seq<nat>, ss: seq<nat>, users: map<nat, User>, i: nat)
    requires InUsers(grp, ts, ss, users)
    requires i < |MemberList(grp, ts, ss, users)|
    ensures MemberList(grp, ts, ss, users)[i].role == AdminRole <==> i == 0
    ensures i > 0 ==> MemberList(grp, ts, ss, users)[i].id in ts || MemberList(grp, ts, ss, users)[i].id in ss
  {
    var r := MemberList(grp, ts, ss, users);
    var f := Others(ts, grp.admin);
    MemberAt(grp, ts, ss, users, i);
    if 0 < i < 1 + |f| {
      assert f[i - 1] in f;
    } else if i > 0 {
      assert ss[i - 1 - |f|] in ss;
    }
  }

  /**
   * "Выйти" is shown only on the viewer's own row as a teacher or a
   * student. For anyone but the admin that makes them a teacher or a
   * student of the group, whom leave_group lets go; the admin sees it only
   * when also listed as a student, and leave_group answers the admin 400.
   */
  lemma LeaveShownToMember(grp: Group, ts: seq<nat>, ss: seq<nat>, users: map<nat, User>, v: nat, i: nat)
    requires InUsers(grp, ts, ss, users)
    requires i < |MemberList(grp, ts, ss, users)|
    requires ShowLeave(grp.admin, Some(v), MemberList(grp, ts, ss, users)[i])
    ensures MemberList(grp, ts, ss, users)[i].id == v
    ensures v != grp.admin ==> v in ts || v in ss
    ensures v == grp.admin ==> v in ss && MemberList(grp, ts, ss, users)[i].role == StudentRole
  {
    var f := Others(ts, grp.admin);
    MemberAt(grp, ts, ss, users, i);
    if 0 < i < 1 + |f| {
      assert f[i - 1] in f;
    } else if i > 0 {
      assert ss[i - 1 - |f|] in ss;
    }
  }

  /**
   * Conversely, an admin who is also listed as a student gets "Выйти" on
   * that student row, although leave_group refuses the admin.
   */
  lemma LeaveShownToAdminStudent(grp: Group, ts: seq<nat>, ss: seq<nat>, users: map<nat, User>, k: nat)
    requires InUsers(grp, ts, ss, users)
    requires k < |ss| && ss[k] == grp.admin
    ensures var i := 1 + |Others(ts, grp.admin)| + k;
      i < |MemberList(grp, ts, ss, users)| && ShowLeave(grp.admin, Some(grp.admin), MemberList(grp, ts, ss, users)[i])
  {
    StudentAt(grp, ts, ss, users, k);
  }

  // ---------------------------------------------------------------------
  // Checks before a request.

  /** A deadline is refused when it is set and before today as strings. */
  predicate DeadlineRefused(deadline: string, today: string)
  {
    deadline != [] && LexLess(deadline, today)
  }

  /** For ISO dates the string test is the calendar test. */
  lemma DeadlineRefusedIsCalendar(deadline: string, today: string)
    requires Dates.IsIsoDate(deadline) && Dates.IsIsoDate(today)
    ensures DeadlineRefused(deadline, today) <==> Dates.CalendarBefore(deadline, today)
  {
    Dates.IsoLexIsCalendarOrder(deadline, today);
  }

  /** A deadline of today is accepted. */
  lemma TodayAccepted(today: string)
    ensures !DeadlineRefused(today, today)
  {
    LexLessIrreflexive(today);
  }

  const DeadlineMessage := "Дедлайн не может быть раньше сегодняшнего дня"
  const CreateFailed := "Ошибка создания поста"
  const DeleteFailed := "Ошибка при удалении постов"
  const BadEmail := "Введите корректный email"
  const InviteFailed := "Ошибка отправки приглашения"

  /** The answer to an invitation request: sent, or failed with the server's `error` text if any. */
  datatype InviteOutcome = Sent | Failed(serverError: Option<string>)

  /** The page's React state that the handlers touch. */
  datatype ViewState = ViewState(
    posts: seq<PostItem>, selected: seq<nat>, massDelete: bool, deleting: bool, confirm: bool,
    error: Option<string>,
    showCreate: bool, title: string, content: string, deadline: string, deadlineError: string,
    files: seq<Upload>,
    inviteEmail: string, inviteError: string, inviteSuccess: string)

  class GroupView {
    var st: ViewState

    constructor (posts: seq<PostItem>)
      ensures st == ViewState(posts, [], false, false, false, None, false, "", "", "", "", [], "", "", "")
    {
      st := ViewState(posts, [], false, false, false, None, false, "", "", "", "", [], "", "", "");
    }

    method SelectPost(id: nat)
      modifies this
      ensures st == old(st).(selected := Toggle(old(st).selected, id))
    {
      st := st.(selected := Toggle(st.selected, id));
    }

    /**
     * handleDeleteSelected: the deletes go out one by one in selection
     * order. `failAt` is the position of the first request that fails, if
     * any; nothing after it is sent. Only when all succeed are exactly the
     * selected posts removed and the selection cleared.
     */
    method DeleteSelected(failAt: Option<nat>) returns (sent: seq<nat>)
      modifies this
      ensures var sel := old(st).selected;
        var failed := failAt.Some? && failAt.value < |sel|;
        && sent == (if failed then sel[..failAt.value + 1] else sel)
        && (!failed ==> st == old(st).(posts := KeepUnselected(old(st).posts, sel), selected := [],
                                       massDelete := false, deleting := false, confirm := false))
        && (failed ==> st == old(st).(error := Some(DeleteFailed), deleting := false, confirm := false))
    {
      var sel := st.selected;
      st := st.(deleting := true);
      sent := [];
      var i := 0;
      var failed := false;
      while i < |sel| && !failed
        invariant 0 <= i <= |sel|
        invariant sent == sel[..i]
        invariant failed <==> failAt.Some? && failAt.value < |sel| && i == failAt.value + 1
        invariant !failed ==> failAt.None? || failAt.value >= i
        invariant st == old(st).(deleting := true)
      {
        sent := sent + [sel[i]];
        if failAt == Some(i) {
          failed := true;
        }
        i := i + 1;
      }
      if failed {
        st := st.(error := Some(DeleteFailed));
      } else {
        assert sel[..i] == sel;
        st := st.(posts := KeepUnselected(st.posts, sel), selected := [], massDelete := false);
      }
      st := st.(deleting := false, confirm := false);
    }

    /**
     * handleCreatePost: a set deadline before today is refused and nothing
     * is sent; otherwise the request carries the form (an empty deadline as
     * null) and, on success, the new post goes first and the form is reset.
     */
    method CreatePost(today: string, created: Option<PostItem>) returns (req: Option<PostService.NewPost>)
      modifies this
      ensures DeadlineRefused(old(st).deadline, today) ==>
        req.None? && st == old(st).(deadlineError := DeadlineMessage)
      ensures !DeadlineRefused(old(st).deadline, today) ==>
        req == Some(PostService.NewPost(old(st).title, old(st).content,
                      if old(st).deadline == [] then None else Some(old(st).deadline), old(st).files))
      ensures !DeadlineRefused(old(st).deadline, today) && created.Some? ==>
        st == old(st).(deadlineError := "", posts := [created.value] + old(st).posts, showCreate := false,
                       title := "", content := "", files := [], deadline := "")
      ensures !DeadlineRefused(old(st).deadline, today) && created.None? ==>
        st == old(st).(deadlineError := "", error := Some(CreateFailed))
    {
      st := st.(deadlineError := "");
      if DeadlineRefused(st.deadline, today) {
        st := st.(deadlineError := DeadlineMessage);
        return None;
      }
      req := Some(PostService.NewPost(st.title, st.content,
                    if st.deadline == [] then None else Some(st.deadline), st.files));
      if created.Some? {
        st := st.(posts := [created.value] + st.posts, showCreate := false,
                  title := "", content := "", files := [], deadline := "");
      } else {
        st := st.(error := Some(CreateFailed));
      }
    }

    method ChooseFiles(batch: seq<Upload>)
      modifies this
      ensures st == old(st).(files := AddAttachments(old(st).files, batch))
    {
      st := st.(files := AddAttachments(st.files, batch));
    }

    method RemoveFile(idx: nat)
      modifies this
      ensures st == old(st).(files := DropIndex(old(st).files, idx))
    {
      st := st.(files := DropIndex(st.files, idx));
    }

    /**
     * handleInvite: an address not of the form `\S+@\S+\.\S+` is refused
     * and nothing is sent; otherwise the request goes out and its outcome
     * is reported (the later reset of the dialog is a timer, left out).
     */
    method Invite(outcome: InviteOutcome) returns (sent: bool)
      modifies this
      ensures sent <==> EmailPatterns.LooseEmail(old(st).inviteEmail)
      ensures !sent ==> st == old(st).(inviteError := BadEmail, inviteSuccess := "")
      ensures sent && outcome.Sent? ==>
        st == old(st).(inviteError := "", inviteSuccess := "Приглашение отправлено на " + old(st).inviteEmail)
      ensures sent && outcome.Failed? ==>
        st == old(st).(inviteSuccess := "",
          inviteError := if outcome.serverError.Some? && outcome.serverError.value != []
                         then outcome.serverError.value else InviteFailed)
    {
      st := st.(inviteError := "", inviteSuccess := "");
      if !EmailPatterns.LooseEmail(st.inviteEmail) {
        st := st.(inviteError := BadEmail);
        return false;
      }
      sent := true;
      if outcome.Sent? {
        st := st.(inviteSuccess := "Приглашение отправлено на " + st.inviteEmail);
      } else {
        var e := outcome.serverError;
        st := st.(inviteError := if e.Some? && e.value != [] then e.value else InviteFailed);
      }
    }
  }
}
