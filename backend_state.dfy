// The database behind backend/api/views.py as one value, the integrity the
// tables keep (foreign keys, unique e-mails, fresh ids), and the bulk
// updates and loops the handlers run over the notification, comment and
// file tables.

module BackendState {
  import opened Common
  import opened Models
  import PostService

  /** All tables. `nextId` is above every id in use, so a created row gets a fresh key. */
  datatype Db = Db(
    users: map<nat, User>, groups: map<nat, Group>, posts: map<nat, Post>,
    comments: map<nat, Comment>, files: map<nat, PostFile>, notifs: map<nat, Notif>,
    nextId: nat)

  predicate Below<V>(m: map<nat, V>, n: nat)
  {
    forall k :: k in m ==> k < n
  }

  /** `email = models.EmailField(unique=True)`. */
  predicate EmailsUnique(users: map<nat, User>)
  {
    forall a, b :: a in users && b in users && users[a].email == users[b].email ==> a == b
  }

  /** The user administers, teaches in or studies in the group. */
  predicate InGroup(grp: Group, u: nat)
  {
    grp.admin == u || u in grp.teachers || u in grp.students
  }

  /** `Q(admin=user) | Q(teachers=user) | Q(students=user)`: the groups the user belongs to. */
  function GroupsOf(groups: map<nat, Group>, u: nat): set<nat>
  {
    set g | g in groups && InGroup(groups[g], u)
  }

  predicate GroupsOk(groups: map<nat, Group>, users: map<nat, User>)
  {
    forall g :: g in groups ==>
      groups[g].admin in users && groups[g].teachers <= users.Keys && groups[g].students <= users.Keys
  }

  predicate PostsOk(posts: map<nat, Post>, groups: map<nat, Group>, users: map<nat, User>)
  {
    forall p :: p in posts ==> posts[p].group in groups && posts[p].author in users
  }

  predicate CommentsOk(comments: map<nat, Comment>, posts: map<nat, Post>, users: map<nat, User>)
  {
    forall c :: c in comments ==>
      comments[c].post in posts && comments[c].author in users
      && (comments[c].parent.Some? ==> comments[c].parent.value in comments)
  }

  predicate FilesOk(files: map<nat, PostFile>, posts: map<nat, Post>)
  {
    forall f :: f in files ==> files[f].post in posts
  }

  /** The foreign keys of a notification; an invite always names its group. */
  predicate NotifOk(n: Notif, groups: map<nat, Group>, posts: map<nat, Post>, users: map<nat, User>)
  {
    n.toUser in users && (n.fromUser.Some? ==> n.fromUser.value in users)
    && (n.group.Some? ==> n.group.value in groups) && (n.post.Some? ==> n.post.value in posts)
    && (n.kind == Invite ==> n.group.Some?)
  }

  predicate NotifsOk(notifs: map<nat, Notif>, groups: map<nat, Group>, posts: map<nat, Post>, users: map<nat, User>)
  {
    forall k :: k in notifs ==> NotifOk(notifs[k], groups, posts, users)
  }

  predicate DbOk(db: Db)
  {
    Below(db.groups, db.nextId) && Below(db.posts, db.nextId) && Below(db.comments, db.nextId)
    && Below(db.files, db.nextId) && Below(db.notifs, db.nextId)
    && EmailsUnique(db.users) && GroupsOk(db.groups, db.users) && PostsOk(db.posts, db.groups, db.users)
    && CommentsOk(db.comments, db.posts, db.users) && FilesOk(db.files, db.posts)
    && NotifsOk(db.notifs, db.groups, db.posts, db.users)
  }

  // ---------------------------------------------------------------------
  // How a notification's status may change: an invite goes from pending to
  // accepted or declined, any other notification from pending to viewed;
  // nothing else about the row changes, and a settled status stays.

  predicate StatusStep(a: Notif, b: Notif)
  {
    b == a
    || (a.status == Pending && b == a.(status := b.status)
        && (if a.kind == Invite then b.status == Accepted || b.status == Declined else b.status == Viewed))
  }

  /** Every row present before and after moved by at most one allowed step. */
  predicate Evolves(before: map<nat, Notif>, after: map<nat, Notif>)
  {
    forall k :: k in before && k in after ==> StatusStep(before[k], after[k])
  }

  /**
   * Over any run of handlers, each keeping Evolves and never reusing an id,
   * an accepted, declined or viewed notification keeps its status, and an
   * invite that is not viewed never becomes viewed.
   */
  lemma {:induction false} SettledStaysSettled(runs: seq<map<nat, Notif>>, k: nat)
    requires |runs| > 0
    requires forall i :: 0 <= i < |runs| - 1 ==> Evolves(runs[i], runs[i + 1])
    requires forall i :: 0 <= i < |runs| ==> k in runs[i]
    ensures runs[0][k].status != Pending ==> runs[|runs| - 1][k] == runs[0][k]
    ensures runs[0][k].kind == Invite && runs[0][k].status != Viewed ==> runs[|runs| - 1][k].status != Viewed
    ensures runs[|runs| - 1][k].kind == runs[0][k].kind
  {
    if |runs| > 1 {
      var init := runs[..|runs| - 1];
      SettledStaysSettled(init, k);
      assert init[0] == runs[0] && init[|init| - 1] == runs[|runs| - 2];
      var a, b := runs[|runs| - 2][k], runs[|runs| - 1][k];
      assert StatusStep(a, b);
      assert a.kind == runs[0][k].kind && b.kind == a.kind;
      if runs[0][k].kind == Invite && runs[0][k].status != Viewed {
        assert a.status != Viewed;
        assert b.status != Viewed;
      }
    }
  }

  // ---------------------------------------------------------------------
  // invite_to_group: earlier pending invites of the user to the group become
  // declined.

  predicate PendingInvite(n: Notif, u: nat, g: nat)
  {
    n.kind == Invite && n.toUser == u && n.group == Some(g) && n.status == Pending
  }

  function PendingInvites(ns: map<nat, Notif>, u: nat, g: nat): set<nat>
  {
    set k | k in ns && PendingInvite(ns[k], u, g)
  }

  /** `invites.filter(status='pending').update(status='declined')`. */
  function DeclineInvites(ns: map<nat, Notif>, u: nat, g: nat): (r: map<nat, Notif>)
    ensures r.Keys == ns.Keys
    ensures PendingInvites(r, u, g) == {}
    ensures forall k :: k in ns && !PendingInvite(ns[k], u, g) ==> r[k] == ns[k]
    ensures forall k :: k in ns && PendingInvite(ns[k], u, g) ==> r[k] == ns[k].(status := Declined)
    ensures Evolves(ns, r)
  {
    map k | k in ns :: if PendingInvite(ns[k], u, g) then ns[k].(status := Declined) else ns[k]
  }

  /** After declining the old ones and adding a fresh pending invite, it is the only pending one. */
  lemma OnePendingInvite(ns: map<nat, Notif>, u: nat, g: nat, key: nat, n: Notif)
    requires key !in ns && PendingInvite(n, u, g)
    ensures PendingInvites(DeclineInvites(ns, u, g)[key := n], u, g) == {key}
  {
    var r := DeclineInvites(ns, u, g);
    var r' := r[key := n];
    forall k | k in r' && k != key ensures !PendingInvite(r'[k], u, g) {
      assert r'[k] == r[k];
      assert k !in PendingInvites(r, u, g);
    }
    assert key in PendingInvites(r', u, g);
  }

  // ---------------------------------------------------------------------
  // mark_notifications_viewed.

  predicate Markable(n: Notif, u: nat)
  {
    n.toUser == u && n.status == Pending && n.kind != Invite
  }

  /** The user's pending notifications other than invites become viewed. */
  function MarkViewed(ns: map<nat, Notif>, u: nat): (r: map<nat, Notif>)
    ensures r.Keys == ns.Keys
    ensures forall k :: k in r ==> !Markable(r[k], u)
    ensures forall k :: k in ns && !Markable(ns[k], u) ==> r[k] == ns[k]
    ensures forall k :: k in ns && Markable(ns[k], u) ==> r[k] == ns[k].(status := Viewed)
    ensures Evolves(ns, r)
  {
    map k | k in ns :: if Markable(ns[k], u) then ns[k].(status := Viewed) else ns[k]
  }

  // ---------------------------------------------------------------------
  // get_notifications, first step: rows accepted or declined, or of type
  // exclude, and created more than seven days ago are deleted.

  predicate Stale(n: Notif, now: int)
  {
    (n.status == Accepted || n.status == Declined || n.kind == Exclude)
    && n.created < now - 7 * SecondsPerDay
  }

  function Cleanup(ns: map<nat, Notif>, now: int): (r: map<nat, Notif>)
    ensures forall k :: k in r <==> k in ns && !Stale(ns[k], now)
    ensures forall k :: k in r ==> r[k] == ns[k]
  {
    map k | k in ns && !Stale(ns[k], now) :: ns[k]
  }

  /** Cleaning twice at the same instant deletes nothing more. */
  lemma CleanupIdempotent(ns: map<nat, Notif>, now: int)
    ensures Cleanup(Cleanup(ns, now), now) == Cleanup(ns, now)
  {
  }

  // ---------------------------------------------------------------------
  // get_notifications, second step: deadline reminders.

  /** A deadline at most one day ahead (or past): `(deadline - today).days <= 1`. */
  predicate Due(p: Post, today: int)
  {
    p.deadline.Some? && p.deadline.value - today <= 1
  }

  predicate IsReminderFor(n: Notif, u: nat, p: nat, d: int)
  {
    n.kind == Reminder && n.toUser == u && n.post == Some(p) && n.deadline == Some(d)
  }

  /** The `exists()` query the loop runs before creating a reminder. */
  predicate HasReminder(ns: map<nat, Notif>, u: nat, p: nat, d: int)
  {
    exists k :: k in ns && IsReminderFor(ns[k], u, p, d)
  }

  /** Every student of every group with a due post has a reminder for that post and deadline. */
  predicate RemindersComplete(ns: map<nat, Notif>, posts: map<nat, Post>, groups: map<nat, Group>, today: int)
  {
    forall p, u ::
      (p in posts && Due(posts[p], today) && posts[p].group in groups && u in groups[posts[p].group].students)
      ==> HasReminder(ns, u, p, posts[p].deadline.value)
  }

  /** At most one reminder per (student, post, deadline). */
  predicate UniqueReminders(ns: map<nat, Notif>)
  {
    forall a, b :: a in ns && b in ns && ns[a].kind == Reminder && ns[b].kind == Reminder
      && ns[a].toUser == ns[b].toUser && ns[a].post == ns[b].post && ns[a].deadline == ns[b].deadline
      ==> a == b
  }

  /** The row the loop creates: a pending reminder for a student of the post's group. */
  predicate NewReminder(n: Notif, posts: map<nat, Post>, groups: map<nat, Group>, now: int)
  {
    n.kind == Reminder && n.status == Pending && n.fromUser.None? && n.created == now
    && n.post.Some? && n.post.value in posts
    && Due(posts[n.post.value], now / SecondsPerDay)
    && n.deadline == posts[n.post.value].deadline
    && n.group == Some(posts[n.post.value].group)
    && posts[n.post.value].group in groups
    && n.toUser in groups[posts[n.post.value].group].students
  }

  lemma HasReminderGrows(ns: map<nat, Notif>, key: nat, n: Notif)
    requires key !in ns
    ensures forall u, p, d :: HasReminder(ns, u, p, d) ==> HasReminder(ns[key := n], u, p, d)
  {
    forall u, p, d | HasReminder(ns, u, p, d) ensures HasReminder(ns[key := n], u, p, d) {
      var k :| k in ns && IsReminderFor(ns[k], u, p, d);
      assert ns[key := n][k] == ns[k];
    }
  }

  lemma UniqueInsert(ns: map<nat, Notif>, key: nat, u: nat, p: nat, d: int, n: Notif)
    requires key !in ns && UniqueReminders(ns)
    requires IsReminderFor(n, u, p, d) && !HasReminder(ns, u, p, d)
    ensures UniqueReminders(ns[key := n])
  {
    var r := ns[key := n];
    forall a, b | a in r && b in r && r[a].kind == Reminder && r[b].kind == Reminder
      && r[a].toUser == r[b].toUser && r[a].post == r[b].post && r[a].deadline == r[b].deadline
      ensures a == b
    {
      if a == key && b != key {
        assert IsReminderFor(ns[b], u, p, d);
      } else if b == key && a != key {
        assert IsReminderFor(ns[a], u, p, d);
      }
    }
  }

  /** Rows kept unchanged keep every reminder they held. */
  lemma HasReminderKept(r: map<nat, Notif>, r': map<nat, Notif>)
    requires forall k :: k in r ==> k in r' && r'[k] == r[k]
    ensures forall u, p, d :: HasReminder(r, u, p, d) ==> HasReminder(r', u, p, d)
  {
    forall u, p, d | HasReminder(r, u, p, d) ensures HasReminder(r', u, p, d) {
      var k :| k in r && IsReminderFor(r[k], u, p, d);
      assert IsReminderFor(r'[k], u, p, d);
    }
  }

  /**
   * The inner loop of get_notifications: for each student of the due post
   * `p`'s group, a reminder is created unless one for that (student, post,
   * deadline) exists.
   */
  method RemindStudents(r: map<nat, Notif>, next: nat, p: nat, posts: map<nat, Post>, groups: map<nat, Group>, now: int)
    returns (r': map<nat, Notif>, next': nat)
    requires Below(r, next)
    requires p in posts && Due(posts[p], now / SecondsPerDay) && posts[p].group in groups
    ensures next <= next' && Below(r', next')
    ensures forall k :: k in r ==> k in r' && r'[k] == r[k]
    ensures forall k :: k in r' && k !in r ==> NewReminder(r'[k], posts, groups, now) && next <= k
    ensures forall u :: u in groups[posts[p].group].students ==> HasReminder(r', u, p, posts[p].deadline.value)
    ensures (forall u :: u in groups[posts[p].group].students ==> HasReminder(r, u, p, posts[p].deadline.value))
            ==> r' == r && next' == next
    ensures UniqueReminders(r) ==> UniqueReminders(r')
  {
    var post := posts[p];
    var d := post.deadline.value;
    var students := groups[post.group].students;
    r', next' := r, next;
    var left := students;
    while left != {}
      invariant left <= students
      invariant next <= next' && Below(r', next')
      invariant forall k :: k in r ==> k in r' && r'[k] == r[k]
      invariant forall k :: k in r' && k !in r ==> NewReminder(r'[k], posts, groups, now) && next <= k
      invariant forall u :: u in students && u !in left ==> HasReminder(r', u, p, d)
      invariant (forall u :: u in students ==> HasReminder(r, u, p, d)) ==> r' == r && next' == next
      invariant UniqueReminders(r) ==> UniqueReminders(r')
      decreases |left|
    {
      var u :| u in left;
      if !HasReminder(r', u, p, d) {
        var n := Notif(Reminder, u, None, Some(post.group), Some(p), Some(d), Pending, now);
        HasReminderGrows(r', next', n);
        if UniqueReminders(r) {
          UniqueInsert(r', next', u, p, d, n);
        }
        assert IsReminderFor(r'[next' := n][next'], u, p, d);
        r' := r'[next' := n];
        next' := next' + 1;
      }
      left := left - {u};
    }
  }

  /**
   * The nested loops of get_notifications: for each post with a due
   * deadline, for each student of its group, a reminder is created unless
   * one for that (student, post, deadline) exists. Existing rows are kept;
   * afterwards every due (student, post) pair has its reminder; a table
   * that already had them all gains nothing; no duplicate is created.
   */
  method AddReminders(ns: map<nat, Notif>, next: nat, posts: map<nat, Post>, groups: map<nat, Group>, now: int)
    returns (r: map<nat, Notif>, next': nat)
    requires Below(ns, next)
    requires forall p :: p in posts ==> posts[p].group in groups
    ensures next <= next' && Below(r, next')
    ensures forall k :: k in ns ==> k in r && r[k] == ns[k]
    ensures forall k :: k in r && k !in ns ==> NewReminder(r[k], posts, groups, now) && next <= k
    ensures RemindersComplete(r, posts, groups, now / SecondsPerDay)
    ensures RemindersComplete(ns, posts, groups, now / SecondsPerDay) ==> r == ns && next' == next
    ensures UniqueReminders(ns) ==> UniqueReminders(r)
  {
    var today := now / SecondsPerDay;
    r, next' := ns, next;
    var todo := posts.Keys;
    while todo != {}
      invariant todo <= posts.Keys
      invariant next <= next' && Below(r, next')
      invariant forall k :: k in ns ==> k in r && r[k] == ns[k]
      invariant forall k :: k in r && k !in ns ==> NewReminder(r[k], posts, groups, now) && next <= k
      invariant forall p, u ::
        (p in posts && p !in todo && Due(posts[p], today) && u in groups[posts[p].group].students)
        ==> HasReminder(r, u, p, posts[p].deadline.value)
      invariant RemindersComplete(ns, posts, groups, today) ==> r == ns && next' == next
      invariant UniqueReminders(ns) ==> UniqueReminders(r)
      decreases |todo|
    {
      var p :| p in todo;
      if Due(posts[p], today) {
        var r2, next2 := RemindStudents(r, next', p, posts, groups, now);
        HasReminderKept(r, r2);
        r, next' := r2, next2;
      }
      todo := todo - {p};
    }
  }

  /**
   * get_notifications before it lists: stale rows are deleted, then the
   * missing reminders are created. The rows kept are unchanged, the rows
   * added are reminders under fresh ids, every due reminder exists
   * afterwards, nothing left is stale, no duplicate reminder appears, and a
   * table that is already clean and complete is left as is.
   */
  predicate Refreshed(ns: map<nat, Notif>, next: nat, r: map<nat, Notif>, next': nat,
                      posts: map<nat, Post>, groups: map<nat, Group>, now: int)
  {
    && next <= next' && Below(r, next')
    && (forall k :: k in ns && !Stale(ns[k], now) ==> k in r && r[k] == ns[k])
    && (forall k :: k in ns && Stale(ns[k], now) ==> k !in r)
    && (forall k :: k in r && k !in ns ==> NewReminder(r[k], posts, groups, now))
    && RemindersComplete(r, posts, groups, now / SecondsPerDay)
    && Cleanup(r, now) == r
    && (UniqueReminders(ns) ==> UniqueReminders(r))
    && (Cleanup(ns, now) == ns && RemindersComplete(ns, posts, groups, now / SecondsPerDay)
        ==> r == ns && next' == next)
    && Evolves(ns, r)
  }

  method RefreshNotifications(ns: map<nat, Notif>, next: nat, posts: map<nat, Post>, groups: map<nat, Group>, now: int)
    returns (r: map<nat, Notif>, next': nat)
    requires Below(ns, next)
    requires forall p :: p in posts ==> posts[p].group in groups
    ensures Refreshed(ns, next, r, next', posts, groups, now)
  {
    var cleaned := Cleanup(ns, now);
    r, next' := AddReminders(cleaned, next, posts, groups, now);
    if UniqueReminders(ns) {
      assert UniqueReminders(cleaned);
    }
    forall k | k in r ensures !Stale(r[k], now) {
      if k !in cleaned {
        assert NewReminder(r[k], posts, groups, now);
      }
    }
    assert Cleanup(r, now) == r;
  }

  // ---------------------------------------------------------------------
  // Cascading deletes (on_delete=CASCADE).

  /** A comment is gone when it was asked for or its parent is gone (replies follow their parent). */
  predicate ClosedUnderReplies(cs: map<nat, Comment>, gone: set<nat>)
  {
    forall c :: c in cs && c !in gone && cs[c].parent.Some? ==> cs[c].parent.value !in gone
  }

  /**
   * `gone` is what deleting `seed` removes from `cs`: the seed and, repeatedly,
   * every reply to a removed comment. Each removed comment was asked for or
   * replies to a removed one; no surviving comment replies to a removed one.
   */
  predicate Cascade(cs: map<nat, Comment>, seed: set<nat>, gone: set<nat>)
  {
    && seed * cs.Keys <= gone <= cs.Keys
    && ClosedUnderReplies(cs, gone)
    && (forall c :: c in gone ==> c in seed || (cs[c].parent.Some? && cs[c].parent.value in gone))
  }

  /** The posts of a group. */
  function PostsOf(posts: map<nat, Post>, g: nat): set<nat>
  {
    set p | p in posts && posts[p].group == g
  }

  /** The comments on the posts `gp`. */
  function CommentsOn(cs: map<nat, Comment>, gp: set<nat>): set<nat>
  {
    set c | c in cs && cs[c].post in gp
  }

  /** The cascade over `parent`, one reply at a time until no surviving comment replies to a removed one. */
  method ReplyCascade(cs: map<nat, Comment>, seed: set<nat>) returns (gone: set<nat>)
    ensures Cascade(cs, seed, gone)
  {
    gone := seed * cs.Keys;
    while exists c :: c in cs && c !in gone && cs[c].parent.Some? && cs[c].parent.value in gone
      invariant seed * cs.Keys <= gone <= cs.Keys
      invariant forall c :: c in gone ==> c in seed || (cs[c].parent.Some? && cs[c].parent.value in gone)
      decreases |cs.Keys - gone|
    {
      var c :| c in cs && c !in gone && cs[c].parent.Some? && cs[c].parent.value in gone;
      assert cs.Keys - (gone + {c}) == (cs.Keys - gone) - {c};
      gone := gone + {c};
    }
  }

  // ---------------------------------------------------------------------
  // Post files.

  /**
   * `r` is `fs` without the files of post `post` whose ids are listed; ids
   * of other posts' files and unknown ids are skipped.
   */
  ghost predicate FilesDeleted(fs: map<nat, PostFile>, ids: seq<nat>, post: nat, r: map<nat, PostFile>)
  {
    && (forall f :: f in r <==> f in fs && !(f in ids && fs[f].post == post))
    && (forall f :: f in r ==> r[f] == fs[f])
  }

  /** The PATCH loop over the ids to delete. */
  method DeleteListedFiles(fs: map<nat, PostFile>, ids: seq<nat>, post: nat) returns (r: map<nat, PostFile>)
    ensures FilesDeleted(fs, ids, post, r)
  {
    r := fs;
    var i := 0;
    while i < |ids|
      invariant 0 <= i <= |ids|
      invariant forall f :: f in r <==> f in fs && !(f in ids[..i] && fs[f].post == post)
      invariant forall f :: f in r ==> r[f] == fs[f]
    {
      var id := ids[i];
      if id in r && r[id].post == post {
        r := r - {id};
      }
      assert ids[..i + 1] == ids[..i] + [id];
      i := i + 1;
    }
    assert ids[..i] == ids;
  }

  /**
   * `r` is `fs` with one row of post `post` per upload, in upload order,
   * under the ids `next`, `next + 1`, ...; `next'` is the next free id.
   */
  ghost predicate FilesAdded(fs: map<nat, PostFile>, next: nat, post: nat, uploads: seq<PostService.Upload>,
                       r: map<nat, PostFile>, next': nat)
  {
    && next' == next + |uploads|
    && (forall k :: k in fs ==> k in r && r[k] == fs[k])
    && (forall i :: 0 <= i < |uploads| ==> next + i in r && r[next + i] == PostFile(post, uploads[i].name))
    && (forall k :: k in r ==> k in fs || next <= k < next')
  }

  /** The loop creating one `PostFile` per uploaded file. */
  method AddFiles(fs: map<nat, PostFile>, next: nat, post: nat, uploads: seq<PostService.Upload>)
    returns (r: map<nat, PostFile>, next': nat)
    requires Below(fs, next)
    ensures FilesAdded(fs, next, post, uploads, r, next') && Below(r, next')
    ensures forall k :: k in r && k !in fs ==> r[k].post == post
  {
    r, next' := fs, next;
    var i := 0;
    while i < |uploads|
      invariant 0 <= i <= |uploads| && next' == next + i && Below(r, next')
      invariant forall k :: k in fs ==> k in r && r[k] == fs[k]
      invariant forall k :: next <= k < next' ==> k in r && r[k] == PostFile(post, uploads[k - next].name)
      invariant forall k :: k in r ==> k in fs || next <= k < next'
      invariant forall k :: k in r && k !in fs ==> r[k].post == post
    {
      r := r[next' := PostFile(post, uploads[i].name)];
      next' := next' + 1;
      i := i + 1;
    }
    forall j | 0 <= j < |uploads| ensures next + j in r && r[next + j] == PostFile(post, uploads[j].name) {
      assert next <= next + j < next';
    }
  }

  /** Attaching the uploads to an existing post, as both the POST and the PATCH handlers do. */
  method AttachFiles(db: Db, post: nat, uploads: seq<PostService.Upload>) returns (db': Db)
    requires DbOk(db) && post in db.posts
    ensures DbOk(db')
    ensures db' == db.(files := db'.files, nextId := db'.nextId)
    ensures FilesAdded(db.files, db.nextId, post, uploads, db'.files, db'.nextId)
  {
    var fs, next := AddFiles(db.files, db.nextId, post, uploads);
    FilesChangedOk(db, fs, next, post);
    db' := db.(files := fs, nextId := next);
  }

  // ---------------------------------------------------------------------
  // Integrity kept by the handlers' changes.

  /** The notification refers to one of the groups `gg` or one of the posts `gp`. */
  predicate Refers(n: Notif, gg: set<nat>, gp: set<nat>)
  {
    (n.group.Some? && n.group.value in gg) || (n.post.Some? && n.post.value in gp)
  }

  /**
   * Deleting the groups `gg`, the posts `gp` and the comments `gc`; the
   * files of deleted posts and the notifications referring to a deleted
   * group or post go with them (on_delete=CASCADE).
   */
  function DropRows(db: Db, gg: set<nat>, gp: set<nat>, gc: set<nat>): Db
  {
    db.(groups := db.groups - gg, posts := db.posts - gp, comments := db.comments - gc,
        files := map f | f in db.files && db.files[f].post !in gp :: db.files[f],
        notifs := map k | k in db.notifs && !Refers(db.notifs[k], gg, gp) :: db.notifs[k])
  }

  /** The cascade leaves no dangling reference when every dependent row is deleted too. */
  lemma DropRowsOk(db: Db, gg: set<nat>, gp: set<nat>, gc: set<nat>)
    requires DbOk(db)
    requires forall p :: p in db.posts && db.posts[p].group in gg ==> p in gp
    requires forall c :: c in db.comments && db.comments[c].post in gp ==> c in gc
    requires ClosedUnderReplies(db.comments, gc)
    ensures DbOk(DropRows(db, gg, gp, gc))
  {
    var r := DropRows(db, gg, gp, gc);
    DropPostsOk(db.posts, db.groups, db.users, gg, gp);
    DropCommentsRowsOk(db.comments, db.posts, db.users, gp, gc);
    DropNotifsOk(db.notifs, db.groups, db.posts, db.users, gg, gp);
    assert FilesOk(r.files, r.posts);
  }

  lemma DropPostsOk(posts: map<nat, Post>, groups: map<nat, Group>, users: map<nat, User>, gg: set<nat>, gp: set<nat>)
    requires PostsOk(posts, groups, users)
    requires forall p :: p in posts && posts[p].group in gg ==> p in gp
    ensures PostsOk(posts - gp, groups - gg, users)
  {
  }

  lemma DropCommentsRowsOk(cs: map<nat, Comment>, posts: map<nat, Post>, users: map<nat, User>, gp: set<nat>, gc: set<nat>)
    requires CommentsOk(cs, posts, users) && ClosedUnderReplies(cs, gc)
    requires forall c :: c in cs && cs[c].post in gp ==> c in gc
    ensures CommentsOk(cs - gc, posts - gp, users)
  {
  }

  lemma DropNotifsOk(ns: map<nat, Notif>, groups: map<nat, Group>, posts: map<nat, Post>, users: map<nat, User>,
                     gg: set<nat>, gp: set<nat>)
    requires NotifsOk(ns, groups, posts, users)
    ensures NotifsOk(map k | k in ns && !Refers(ns[k], gg, gp) :: ns[k], groups - gg, posts - gp, users)
  {
    var r := map k | k in ns && !Refers(ns[k], gg, gp) :: ns[k];
    forall k | k in r ensures NotifOk(r[k], groups - gg, posts - gp, users) {
      assert r[k] == ns[k] && NotifOk(ns[k], groups, posts, users);
    }
  }

  /** Creating a post of an existing group by an existing user under the fresh id. */
  lemma AddPostOk(db: Db, p: Post)
    requires DbOk(db) && p.group in db.groups && p.author in db.users
    ensures DbOk(db.(posts := db.posts[db.nextId := p], nextId := db.nextId + 1))
  {
    var posts := db.posts[db.nextId := p];
    assert posts.Keys == db.posts.Keys + {db.nextId};
    PostKeysGrow(db.posts, posts, db.groups, db.users, db.comments, db.files, db.notifs);
  }

  /** Rows that point at posts still point at existing posts when no post id goes away. */
  lemma PostKeysGrow(posts: map<nat, Post>, posts': map<nat, Post>, groups: map<nat, Group>, users: map<nat, User>,
                     cs: map<nat, Comment>, fs: map<nat, PostFile>, ns: map<nat, Notif>)
    requires posts.Keys <= posts'.Keys
    requires CommentsOk(cs, posts, users) && FilesOk(fs, posts) && NotifsOk(ns, groups, posts, users)
    ensures CommentsOk(cs, posts', users) && FilesOk(fs, posts') && NotifsOk(ns, groups, posts', users)
  {
    forall k | k in ns ensures NotifOk(ns[k], groups, posts', users) {
      assert NotifOk(ns[k], groups, posts, users);
    }
  }

  /** Replacing a post by one of the same group and author. */
  lemma SetPostOk(db: Db, pid: nat, p: Post)
    requires DbOk(db) && pid in db.posts && p.group == db.posts[pid].group && p.author == db.posts[pid].author
    ensures DbOk(db.(posts := db.posts[pid := p]))
  {
    var posts := db.posts[pid := p];
    assert posts.Keys == db.posts.Keys;
    PostKeysGrow(db.posts, posts, db.groups, db.users, db.comments, db.files, db.notifs);
  }

  /** The file table after deleting some rows and adding rows of one existing post under fresh ids. */
  lemma FilesChangedOk(db: Db, fs: map<nat, PostFile>, next: nat, p: nat)
    requires DbOk(db) && p in db.posts && db.nextId <= next && Below(fs, next)
    requires forall k :: k in fs && k in db.files ==> fs[k] == db.files[k]
    requires forall k :: k in fs && k !in db.files ==> fs[k].post == p
    ensures DbOk(db.(files := fs, nextId := next))
  {
  }

  /** The notification table after cleanup and new reminders. */
  lemma NotifsRefreshedOk(db: Db, ns: map<nat, Notif>, next: nat, now: int)
    requires DbOk(db) && db.nextId <= next && Below(ns, next)
    requires forall k :: k in ns && k in db.notifs ==> ns[k] == db.notifs[k]
    requires forall k :: k in ns && k !in db.notifs ==> NewReminder(ns[k], db.posts, db.groups, now)
    ensures DbOk(db.(notifs := ns, nextId := next))
  {
    forall k | k in ns ensures NotifOk(ns[k], db.groups, db.posts, db.users) {
      if k !in db.notifs {
        assert NewReminder(ns[k], db.posts, db.groups, now);
      }
    }
  }

  /** Deleting comments closed under replies leaves no reply without its parent. */
  lemma DropCommentsOk(db: Db, gc: set<nat>)
    requires DbOk(db) && ClosedUnderReplies(db.comments, gc)
    ensures DbOk(db.(comments := db.comments - gc))
  {
  }

  /** A status change along StatusStep keeps every foreign key. */
  lemma EvolvesOk(db: Db, ns: map<nat, Notif>)
    requires DbOk(db) && ns.Keys == db.notifs.Keys && Evolves(db.notifs, ns)
    ensures DbOk(db.(notifs := ns))
  {
    forall k | k in ns ensures NotifOk(ns[k], db.groups, db.posts, db.users) {
      assert StatusStep(db.notifs[k], ns[k]);
    }
  }

  /** Adding a notification with valid foreign keys under the fresh id. */
  lemma AddNotifOk(db: Db, n: Notif)
    requires DbOk(db) && NotifOk(n, db.groups, db.posts, db.users)
    ensures DbOk(db.(notifs := db.notifs[db.nextId := n], nextId := db.nextId + 1))
  {
  }

  /** Replacing a group by one with the same admin whose members are users. */
  lemma SetGroupOk(db: Db, g: nat, grp: Group)
    requires DbOk(db) && g in db.groups && grp.admin == db.groups[g].admin
    requires grp.teachers <= db.users.Keys && grp.students <= db.users.Keys
    ensures DbOk(db.(groups := db.groups[g := grp]))
  {
    var r := db.(groups := db.groups[g := grp]);
    forall k | k in r.notifs ensures NotifOk(r.notifs[k], r.groups, r.posts, r.users) {
      assert NotifOk(db.notifs[k], db.groups, db.posts, db.users);
    }
  }

  // ---------------------------------------------------------------------
  // The state changes of the membership and notification handlers.

  /** create_group: a group under the fresh id, administered by its creator, who also teaches in it. */
  function NewGroup(db: Db, caller: nat, name: string): Db
  {
    db.(groups := db.groups[db.nextId := Group(name, caller, {caller}, {})], nextId := db.nextId + 1)
  }

  lemma NewGroupOk(db: Db, caller: nat, name: string)
    requires DbOk(db) && caller in db.users
    ensures DbOk(NewGroup(db, caller, name))
    ensures var g := NewGroup(db, caller, name).groups[db.nextId]; g.admin == caller && caller in g.teachers
  {
    var r := NewGroup(db, caller, name);
    forall k | k in r.notifs ensures NotifOk(r.notifs[k], r.groups, r.posts, r.users) {
      assert NotifOk(db.notifs[k], db.groups, db.posts, db.users);
    }
  }

  /** invite_to_group: earlier pending invites of `u` to `g` are declined, then a new pending one is created. */
  function InviteUser(db: Db, u: nat, g: nat, from: nat, now: int): Db
  {
    db.(notifs := DeclineInvites(db.notifs, u, g)[db.nextId := Notif(Invite, u, Some(from), Some(g), None, None, Pending, now)],
        nextId := db.nextId + 1)
  }

  /** After an invite, the new row is the user's only pending invite to the group. */
  lemma InviteUserOk(db: Db, u: nat, g: nat, from: nat, now: int)
    requires DbOk(db) && u in db.users && from in db.users && g in db.groups
    ensures DbOk(InviteUser(db, u, g, from, now))
    ensures PendingInvites(InviteUser(db, u, g, from, now).notifs, u, g) == {db.nextId}
    ensures Evolves(db.notifs, InviteUser(db, u, g, from, now).notifs)
  {
    var n := Notif(Invite, u, Some(from), Some(g), None, None, Pending, now);
    var declined := DeclineInvites(db.notifs, u, g);
    EvolvesOk(db, declined);
    var d1 := db.(notifs := declined);
    AddNotifOk(d1, n);
    assert InviteUser(db, u, g, from, now) == d1.(notifs := declined[db.nextId := n], nextId := db.nextId + 1);
    assert db.nextId !in db.notifs;
    OnePendingInvite(db.notifs, u, g, db.nextId, n);
    EvolvesFresh(db.notifs, declined, db.nextId, n);
  }

  /** A row added under a fresh id does not count as a change of status. */
  lemma EvolvesFresh(before: map<nat, Notif>, after: map<nat, Notif>, key: nat, n: Notif)
    requires key !in before && Evolves(before, after)
    ensures Evolves(before, after[key := n])
  {
  }

  /** The group with `u` added to the teachers when their role is "teacher", to the students otherwise. */
  function Join(grp: Group, u: nat, role: string): Group
  {
    if role == "teacher" then grp.(teachers := grp.teachers + {u}) else grp.(students := grp.students + {u})
  }

  /** invitation_action on a pending invite: accepting joins the group, declining changes no membership. */
  function Answer(db: Db, nid: nat, accept: bool): Db
    requires nid in db.notifs && db.notifs[nid].group.Some?
    requires accept ==> db.notifs[nid].group.value in db.groups && db.notifs[nid].toUser in db.users
  {
    var n := db.notifs[nid];
    if accept then
      var g := n.group.value;
      db.(notifs := db.notifs[nid := n.(status := Accepted)],
          groups := db.groups[g := Join(db.groups[g], n.toUser, db.users[n.toUser].role)])
    else
      db.(notifs := db.notifs[nid := n.(status := Declined)])
  }

  /** Answering keeps the integrity, moves the invite one allowed step, and an accepted invitee is a member. */
  lemma AnswerOk(db: Db, nid: nat, accept: bool)
    requires DbOk(db) && nid in db.notifs && db.notifs[nid].kind == Invite && db.notifs[nid].status == Pending
    ensures db.notifs[nid].group.Some? && db.notifs[nid].group.value in db.groups
    ensures DbOk(Answer(db, nid, accept))
    ensures Evolves(db.notifs, Answer(db, nid, accept).notifs)
    ensures accept ==>
      var g := Answer(db, nid, accept).groups[db.notifs[nid].group.value];
      db.notifs[nid].toUser in g.teachers + g.students
    ensures Answer(db, nid, accept).notifs == db.notifs[nid := db.notifs[nid].(status := if accept then Accepted else Declined)]
    ensures Answer(db, nid, accept).users == db.users && Answer(db, nid, accept).posts == db.posts
    ensures !accept ==> Answer(db, nid, accept).groups == db.groups
    ensures accept ==> Answer(db, nid, accept).groups.Keys == db.groups.Keys
    ensures accept ==> forall h :: h in db.groups && h != db.notifs[nid].group.value ==>
      Answer(db, nid, accept).groups[h] == db.groups[h]
    ensures accept && db.users[db.notifs[nid].toUser].role == "teacher" ==>
      var g := db.notifs[nid].group.value;
      Answer(db, nid, accept).groups[g] == db.groups[g].(teachers := db.groups[g].teachers + {db.notifs[nid].toUser})
    ensures accept && db.users[db.notifs[nid].toUser].role != "teacher" ==>
      var g := db.notifs[nid].group.value;
      Answer(db, nid, accept).groups[g] == db.groups[g].(students := db.groups[g].students + {db.notifs[nid].toUser})
  {
    AnswerKeepsDb(db, nid, accept);
    AnswerFrame(db, nid, accept);
  }

  /** What Answer changes: the invite's status and, on accept, the one group it joins. */
  lemma AnswerFrame(db: Db, nid: nat, accept: bool)
    requires nid in db.notifs && db.notifs[nid].group.Some?
    requires db.notifs[nid].group.value in db.groups && db.notifs[nid].toUser in db.users
    ensures Answer(db, nid, accept).notifs == db.notifs[nid := db.notifs[nid].(status := if accept then Accepted else Declined)]
    ensures Answer(db, nid, accept).users == db.users && Answer(db, nid, accept).posts == db.posts
    ensures !accept ==> Answer(db, nid, accept).groups == db.groups
    ensures accept ==> Answer(db, nid, accept).groups.Keys == db.groups.Keys
    ensures accept ==> forall h :: h in db.groups && h != db.notifs[nid].group.value ==>
      Answer(db, nid, accept).groups[h] == db.groups[h]
    ensures accept && db.users[db.notifs[nid].toUser].role == "teacher" ==>
      var g := db.notifs[nid].group.value;
      Answer(db, nid, accept).groups[g] == db.groups[g].(teachers := db.groups[g].teachers + {db.notifs[nid].toUser})
    ensures accept && db.users[db.notifs[nid].toUser].role != "teacher" ==>
      var g := db.notifs[nid].group.value;
      Answer(db, nid, accept).groups[g] == db.groups[g].(students := db.groups[g].students + {db.notifs[nid].toUser})
  {
  }

  /** The integrity part of AnswerOk. */
  lemma AnswerKeepsDb(db: Db, nid: nat, accept: bool)
    requires DbOk(db) && nid in db.notifs && db.notifs[nid].kind == Invite && db.notifs[nid].status == Pending
    ensures db.notifs[nid].group.Some? && db.notifs[nid].group.value in db.groups && db.notifs[nid].toUser in db.users
    ensures DbOk(Answer(db, nid, accept))
    ensures Evolves(db.notifs, Answer(db, nid, accept).notifs)
  {
    var n := db.notifs[nid];
    assert NotifOk(n, db.groups, db.posts, db.users);
    var st := if accept then Accepted else Declined;
    SetStatusOk(db, nid, st);
    var answered := db.(notifs := db.notifs[nid := n.(status := st)]);
    if accept {
      var g := n.group.value;
      var grp := Join(db.groups[g], n.toUser, db.users[n.toUser].role);
      SetGroupOk(answered, g, grp);
      assert Answer(db, nid, accept) == answered.(groups := answered.groups[g := grp]);
    } else {
      assert Answer(db, nid, accept) == answered;
    }
  }

  /** One notification moved along StatusStep keeps the integrity. */
  lemma SetStatusOk(db: Db, nid: nat, st: Status)
    requires DbOk(db) && nid in db.notifs && StatusStep(db.notifs[nid], db.notifs[nid].(status := st))
    ensures DbOk(db.(notifs := db.notifs[nid := db.notifs[nid].(status := st)]))
    ensures Evolves(db.notifs, db.notifs[nid := db.notifs[nid].(status := st)])
  {
    EvolvesOk(db, db.notifs[nid := db.notifs[nid].(status := st)]);
  }

  /** exclude_member: `m` leaves both member sets and gets a pending exclude notification. */
  function ExcludeUser(db: Db, g: nat, m: nat, from: nat, now: int): Db
    requires g in db.groups
  {
    var grp := db.groups[g];
    db.(groups := db.groups[g := grp.(teachers := grp.teachers - {m}, students := grp.students - {m})],
        notifs := db.notifs[db.nextId := Notif(Exclude, m, Some(from), Some(g), None, None, Pending, now)],
        nextId := db.nextId + 1)
  }

  lemma ExcludeUserOk(db: Db, g: nat, m: nat, from: nat, now: int)
    requires DbOk(db) && g in db.groups && m in db.users && from in db.users
    ensures DbOk(ExcludeUser(db, g, m, from, now))
    ensures m !in ExcludeUser(db, g, m, from, now).groups[g].teachers + ExcludeUser(db, g, m, from, now).groups[g].students
    ensures Evolves(db.notifs, ExcludeUser(db, g, m, from, now).notifs)
    ensures db.nextId !in db.notifs
    ensures ExcludeUser(db, g, m, from, now).notifs == db.notifs[db.nextId := Notif(Exclude, m, Some(from), Some(g), None, None, Pending, now)]
    ensures ExcludeUser(db, g, m, from, now).groups[g].admin == db.groups[g].admin
    ensures ExcludeUser(db, g, m, from, now).groups[g].teachers == db.groups[g].teachers - {m}
    ensures ExcludeUser(db, g, m, from, now).groups[g].students == db.groups[g].students - {m}
    ensures ExcludeUser(db, g, m, from, now).groups.Keys == db.groups.Keys
    ensures forall h :: h in db.groups && h != g ==> ExcludeUser(db, g, m, from, now).groups[h] == db.groups[h]
  {
    ExcludeKeepsDb(db, g, m, from, now);
    var grp := db.groups[g];
    var grp' := grp.(teachers := grp.teachers - {m}, students := grp.students - {m});
    var n := Notif(Exclude, m, Some(from), Some(g), None, None, Pending, now);
    assert ExcludeUser(db, g, m, from, now) == db.(groups := db.groups[g := grp'], notifs := db.notifs[db.nextId := n], nextId := db.nextId + 1);
  }

  /** The integrity part of ExcludeUserOk; the new row's id is fresh. */
  lemma ExcludeKeepsDb(db: Db, g: nat, m: nat, from: nat, now: int)
    requires DbOk(db) && g in db.groups && m in db.users && from in db.users
    ensures DbOk(ExcludeUser(db, g, m, from, now))
    ensures Evolves(db.notifs, ExcludeUser(db, g, m, from, now).notifs)
    ensures db.nextId !in db.notifs
  {
    var grp := db.groups[g];
    var grp' := grp.(teachers := grp.teachers - {m}, students := grp.students - {m});
    var n := Notif(Exclude, m, Some(from), Some(g), None, None, Pending, now);
    SetGroupOk(db, g, grp');
    AddNotifOk(db.(groups := db.groups[g := grp']), n);
    assert ExcludeUser(db, g, m, from, now) == db.(groups := db.groups[g := grp'], notifs := db.notifs[db.nextId := n], nextId := db.nextId + 1);
    assert db.nextId !in db.notifs;
  }

  /** leave_group for a member: a teacher leaves the teachers, otherwise the user leaves the students. */
  function Leave(db: Db, g: nat, u: nat): Db
    requires g in db.groups
  {
    var grp := db.groups[g];
    if u in grp.teachers then db.(groups := db.groups[g := grp.(teachers := grp.teachers - {u})])
    else db.(groups := db.groups[g := grp.(students := grp.students - {u})])
  }

  lemma LeaveOk(db: Db, g: nat, u: nat)
    requires DbOk(db) && g in db.groups
    ensures DbOk(Leave(db, g, u))
    ensures Leave(db, g, u).groups[g].admin == db.groups[g].admin
    ensures u in db.groups[g].teachers ==> u !in Leave(db, g, u).groups[g].teachers
    ensures u !in db.groups[g].teachers ==> u !in Leave(db, g, u).groups[g].students
    ensures u in db.groups[g].teachers ==>
      Leave(db, g, u).groups[g].teachers == db.groups[g].teachers - {u}
      && Leave(db, g, u).groups[g].students == db.groups[g].students
    ensures u !in db.groups[g].teachers ==>
      Leave(db, g, u).groups[g].students == db.groups[g].students - {u}
      && Leave(db, g, u).groups[g].teachers == db.groups[g].teachers
    ensures Leave(db, g, u).groups.Keys == db.groups.Keys
    ensures forall h :: h in db.groups && h != g ==> Leave(db, g, u).groups[h] == db.groups[h]
    ensures Leave(db, g, u).notifs == db.notifs && Leave(db, g, u).users == db.users && Leave(db, g, u).posts == db.posts
  {
    var grp := db.groups[g];
    var grp' := if u in grp.teachers then grp.(teachers := grp.teachers - {u}) else grp.(students := grp.students - {u});
    SetGroupOk(db, g, grp');
    assert Leave(db, g, u) == db.(groups := db.groups[g := grp']);
  }

  /**
   * The rows a user sees: `Notification.objects.filter(to_user=user)`.
   * Views.Backend.GetNotifications answers with it, ordered by OrderNewestFirst.
   */
  function Inbox(ns: map<nat, Notif>, u: nat): (r: map<nat, Notif>)
    ensures forall k :: k in r <==> k in ns && ns[k].toUser == u
    ensures forall k :: k in r ==> r[k] == ns[k]
  {
    map k | k in ns && ns[k].toUser == u :: ns[k]
  }

  /** Every id of `order` is a row of `ns`, no id repeats, and the rows go from newest to oldest. */
  predicate NewestFirst(ns: map<nat, Notif>, order: seq<nat>)
  {
    && (forall i :: 0 <= i < |order| ==> order[i] in ns)
    && NoDup(order)
    && (forall i, j :: 0 <= i < j < |order| ==> ns[order[i]].created >= ns[order[j]].created)
  }

  /** `order_by('-created_at')`: every row of `ns` exactly once, newest first. */
  method OrderNewestFirst(ns: map<nat, Notif>) returns (order: seq<nat>)
    ensures NewestFirst(ns, order)
    ensures forall k :: k in ns <==> k in order
  {
    var left := ns.Keys;
    order := [];
    while left != {}
      invariant left <= ns.Keys
      invariant NewestFirst(ns, order)
      invariant forall k :: k in ns ==> (k in order <==> k !in left)
      decreases |left|
    {
      var k :| k in left;
      order := InsertByCreated(ns, order, k);
      left := left - {k};
    }
  }

  /** Puts `k` after every row at least as new as it, keeping the order newest first. */
  method InsertByCreated(ns: map<nat, Notif>, order: seq<nat>, k: nat) returns (r: seq<nat>)
    requires k in ns && k !in order && NewestFirst(ns, order)
    ensures NewestFirst(ns, r)
    ensures forall x :: x in r <==> x in order || x == k
  {
    var i := 0;
    while i < |order| && ns[order[i]].created >= ns[k].created
      invariant 0 <= i <= |order|
      invariant forall j :: 0 <= j < i ==> ns[order[j]].created >= ns[k].created
    {
      i := i + 1;
    }
    r := order[..i] + [k] + order[i..];
    assert forall j :: i < j < |r| ==> r[j] == order[j - 1];
    assert forall j :: 0 <= j < i ==> r[j] == order[j];
  }
}
