// backend/api/views.py: the handlers, as methods of one object holding the
// database. Each handler checks its guards in the source's order (not
// found, not allowed, bad input), answers with the status code the source
// uses and, on success, changes exactly the rows the source changes. The
// authenticated caller is the `caller` parameter; the clock is `now`
// (seconds since 1970-01-01).

module Views {
  import opened Common
  import opened Models
  import opened BackendState
  import PostService
  import FileIds

  datatype Response = Ok | Err(code: nat)

  const BadRequest: nat := 400
  const Forbidden: nat := 403
  const NotFound: nat := 404
  const InternalError: nat := 500

  /** A post's fields once the serializer has accepted them. */
  datatype PostFields = PostFields(title: string, content: string, deadline: Option<int>)

  /** A partial update (PATCH): an absent field keeps its value. */
  datatype PostPatch = PostPatch(title: Option<string>, content: Option<string>, deadline: Option<Option<int>>)

  function ApplyPatch(p: Post, patch: PostPatch): Post
  {
    p.(title := if patch.title.Some? then patch.title.value else p.title,
       content := if patch.content.Some? then patch.content.value else p.content,
       deadline := if patch.deadline.Some? then patch.deadline.value else p.deadline)
  }

  /** The ids sent in 'file_ids_to_delete', as the PATCH handler reads them. */
  function IdsToDelete(form: seq<PostService.FormField>): FileIds.IdsOutcome
  {
    FileIds.ParseFileIds(PostService.Get(form, "file_ids_to_delete"))
  }

  class Backend {
    /** All tables; every handler reads and rewrites it. */
    var db: Db

    ghost predicate Valid()
      reads this
    {
      DbOk(db)
    }

    /** A database holding only registered users; ids start at 1. */
    constructor (users: map<nat, User>)
      requires EmailsUnique(users)
      ensures Valid()
      ensures db == Db(users, map[], map[], map[], map[], map[], 1)
    {
      db := Db(users, map[], map[], map[], map[], map[], 1);
    }

    /** my_groups: the groups the user administers, teaches in or studies in. */
    function MyGroups(u: nat): (r: set<nat>)
      reads this
      ensures forall g :: g in r <==> g in db.groups && InGroup(db.groups[g], u)
    {
      GroupsOf(db.groups, u)
    }

    /** The post exists and belongs to the group (`get_object_or_404(Post, id=..., group=...)`). */
    predicate PostInGroup(gid: nat, pid: nat)
      reads this
    {
      gid in db.groups && pid in db.posts && db.posts[pid].group == gid
    }

    // -------------------------------------------------------------------
    // Groups and posts.

    /** create_group: the creator becomes the admin and is also added to the teachers. */
    method CreateGroup(caller: nat, name: string, valid: bool) returns (r: Response, id: Option<nat>)
      requires Valid() && caller in db.users
      modifies this
      ensures Valid()
      ensures !valid ==> r == Err(BadRequest) && id.None? && db == old(db)
      ensures valid ==> r == Ok && id == Some(old(db.nextId)) && db == NewGroup(old(db), caller, name)
    {
      if !valid {
        return Err(BadRequest), None;
      }
      NewGroupOk(db, caller, name);
      id := Some(db.nextId);
      db := NewGroup(db, caller, name);
      r := Ok;
    }

    /** group_posts, POST: only the admin posts; the files of the request are attached in order. */
    method CreatePost(caller: nat, gid: nat, fields: Option<PostFields>, uploads: seq<PostService.Upload>)
      returns (r: Response, id: Option<nat>)
      requires Valid() && caller in db.users
      modifies this
      ensures Valid()
      ensures gid !in old(db.groups) ==> r == Err(NotFound) && db == old(db)
      ensures gid in old(db.groups) && caller != old(db.groups)[gid].admin ==> r == Err(Forbidden) && db == old(db)
      ensures (gid in old(db.groups) && caller == old(db.groups)[gid].admin && fields.None?) ==>
        r == Err(BadRequest) && db == old(db)
      ensures r == Ok <==> (gid in old(db.groups) && caller == old(db.groups)[gid].admin && fields.Some?)
      ensures r == Ok ==> (
        var pid := old(db.nextId);
        && id == Some(pid)
        && db.posts == old(db.posts)[pid := Post(gid, caller, fields.value.title, fields.value.content, fields.value.deadline)]
        && FilesAdded(old(db.files), pid + 1, pid, uploads, db.files, db.nextId)
        && db == old(db).(posts := db.posts, files := db.files, nextId := db.nextId))
    {
      if gid !in db.groups {
        return Err(NotFound), None;
      }
      if caller != db.groups[gid].admin {
        return Err(Forbidden), None;
      }
      if fields.None? {
        return Err(BadRequest), None;
      }
      var pid := db.nextId;
      var post := Post(gid, caller, fields.value.title, fields.value.content, fields.value.deadline);
      AddPostOk(db, post);
      db := db.(posts := db.posts[pid := post], nextId := pid + 1);
      db := AttachFiles(db, pid, uploads);
      id, r := Some(pid), Ok;
    }

    /** delete_group: admin only; the group's posts, their files and comments and its notifications go with it. */
    method DeleteGroup(caller: nat, gid: nat) returns (r: Response)
      requires Valid() && caller in db.users
      modifies this
      ensures Valid()
      ensures gid !in old(db.groups) ==> r == Err(NotFound) && db == old(db)
      ensures gid in old(db.groups) && caller != old(db.groups)[gid].admin ==> r == Err(Forbidden) && db == old(db)
      ensures r == Ok <==> gid in old(db.groups) && caller == old(db.groups)[gid].admin
      ensures r == Ok ==>
        var gp := PostsOf(old(db.posts), gid);
        exists gc :: Cascade(old(db.comments), CommentsOn(old(db.comments), gp), gc)
                     && db == DropRows(old(db), {gid}, gp, gc)
    {
      if gid !in db.groups {
        return Err(NotFound);
      }
      if caller != db.groups[gid].admin {
        return Err(Forbidden);
      }
      var gp := PostsOf(db.posts, gid);
      var gc := ReplyCascade(db.comments, CommentsOn(db.comments, gp));
      DropRowsOk(db, {gid}, gp, gc);
      db := DropRows(db, {gid}, gp, gc);
      r := Ok;
    }

    /** group_post_detail, DELETE: admin only; files, comments and reminders of the post go with it. */
    method DeletePost(caller: nat, gid: nat, pid: nat) returns (r: Response)
      requires Valid() && caller in db.users
      modifies this
      ensures Valid()
      ensures !old(PostInGroup(gid, pid)) ==> r == Err(NotFound) && db == old(db)
      ensures old(PostInGroup(gid, pid)) && caller != old(db.groups)[gid].admin ==> r == Err(Forbidden) && db == old(db)
      ensures r == Ok <==> old(PostInGroup(gid, pid)) && caller == old(db.groups)[gid].admin
      ensures r == Ok ==>
        exists gc :: Cascade(old(db.comments), CommentsOn(old(db.comments), {pid}), gc)
                     && db == DropRows(old(db), {}, {pid}, gc)
    {
      if !PostInGroup(gid, pid) {
        return Err(NotFound);
      }
      if caller != db.groups[gid].admin {
        return Err(Forbidden);
      }
      var gc := ReplyCascade(db.comments, CommentsOn(db.comments, {pid}));
      DropRowsOk(db, {}, {pid}, gc);
      db := DropRows(db, {}, {pid}, gc);
      r := Ok;
    }

    /**
     * group_post_detail, PATCH: admin only. A lone JSON integer in
     * 'file_ids_to_delete' is a server error before anything changes.
     * Otherwise the listed files of this post are deleted first; then the
     * serializer's verdict decides between 400 (the deletions stay) and
     * updating the post and attaching the new files.
     */
    method EditPost(caller: nat, gid: nat, pid: nat, form: seq<PostService.FormField>, patch: Option<PostPatch>)
      returns (r: Response)
      requires Valid() && caller in db.users
      modifies this
      ensures Valid()
      ensures !old(PostInGroup(gid, pid)) ==> r == Err(NotFound) && db == old(db)
      ensures old(PostInGroup(gid, pid)) && caller != old(db.groups)[gid].admin ==> r == Err(Forbidden) && db == old(db)
      ensures (old(PostInGroup(gid, pid)) && caller == old(db.groups)[gid].admin && IdsToDelete(form).ServerError?) ==>
        r == Err(InternalError) && db == old(db)
      ensures (old(PostInGroup(gid, pid)) && caller == old(db.groups)[gid].admin && IdsToDelete(form).Ids?) ==> (
        && db == old(db).(posts := db.posts, files := db.files, nextId := db.nextId)
        && (patch.None? ==> (
              && r == Err(BadRequest) && db.posts == old(db.posts) && db.nextId == old(db.nextId)
              && FilesDeleted(old(db.files), IdsToDelete(form).ids, pid, db.files)))
        && (patch.Some? ==> (
              && r == Ok && db.posts == old(db.posts)[pid := ApplyPatch(old(db.posts)[pid], patch.value)]
              && exists kept :: FilesDeleted(old(db.files), IdsToDelete(form).ids, pid, kept)
                   && FilesAdded(kept, old(db.nextId), pid, PostService.Files(form), db.files, db.nextId))))
    {
      if !PostInGroup(gid, pid) {
        return Err(NotFound);
      }
      if caller != db.groups[gid].admin {
        return Err(Forbidden);
      }
      var parsed := IdsToDelete(form);
      if parsed.ServerError? {
        return Err(InternalError);
      }
      var kept := DeleteListedFiles(db.files, parsed.ids, pid);
      FilesChangedOk(db, kept, db.nextId, pid);
      db := db.(files := kept);
      if patch.None? {
        return Err(BadRequest);
      }
      var post := ApplyPatch(db.posts[pid], patch.value);
      SetPostOk(db, pid, post);
      db := db.(posts := db.posts[pid := post]);
      db := AttachFiles(db, pid, PostService.Files(form));
      r := Ok;
    }

    /** delete_comment: the group's admin or the comment's author; replies go with it. */
    method DeleteComment(caller: nat, gid: nat, pid: nat, cid: nat) returns (r: Response)
      requires Valid() && caller in db.users
      modifies this
      ensures Valid()
      ensures !(old(PostInGroup(gid, pid)) && cid in old(db.comments) && old(db.comments)[cid].post == pid) ==>
        r == Err(NotFound) && db == old(db)
      ensures (old(PostInGroup(gid, pid)) && cid in old(db.comments) && old(db.comments)[cid].post == pid
               && caller != old(db.groups)[gid].admin && caller != old(db.comments)[cid].author) ==>
        r == Err(Forbidden) && db == old(db)
      ensures r == Ok <==> (
        && old(PostInGroup(gid, pid)) && cid in old(db.comments) && old(db.comments)[cid].post == pid
        && (caller == old(db.groups)[gid].admin || caller == old(db.comments)[cid].author))
      ensures r == Ok ==>
        exists gc :: Cascade(old(db.comments), {cid}, gc) && db == old(db).(comments := old(db.comments) - gc)
    {
      if !PostInGroup(gid, pid) || cid !in db.comments || db.comments[cid].post != pid {
        return Err(NotFound);
      }
      if caller != db.groups[gid].admin && caller != db.comments[cid].author {
        return Err(Forbidden);
      }
      var gc := ReplyCascade(db.comments, {cid});
      DropCommentsOk(db, gc);
      db := db.(comments := db.comments - gc);
      r := Ok;
    }

    // -------------------------------------------------------------------
    // Membership and notifications.

    /**
     * invite_to_group: admin only; the e-mail must be given and belong to a
     * user. Earlier pending invites of that user to the group are declined
     * and one new pending invite is created.
     */
    method InviteToGroup(caller: nat, gid: nat, email: Option<string>, now: int) returns (r: Response, nid: Option<nat>)
      requires Valid() && caller in db.users
      modifies this
      ensures Valid()
      ensures gid !in old(db.groups) ==> r == Err(NotFound) && db == old(db)
      ensures gid in old(db.groups) && caller != old(db.groups)[gid].admin ==> r == Err(Forbidden) && db == old(db)
      ensures (gid in old(db.groups) && caller == old(db.groups)[gid].admin && (email.None? || email.value == [])) ==>
        r == Err(BadRequest) && db == old(db)
      ensures (gid in old(db.groups) && caller == old(db.groups)[gid].admin && email.Some? && email.value != []
               && (forall u :: u in old(db.users) ==> old(db.users)[u].email != email.value)) ==>
        r == Err(NotFound) && db == old(db)
      ensures r == Ok <==> (
        && gid in old(db.groups) && caller == old(db.groups)[gid].admin && email.Some? && email.value != []
        && exists u :: u in old(db.users) && old(db.users)[u].email == email.value)
      ensures r == Ok ==> nid == Some(old(db.nextId)) && exists u ::
        && u in old(db.users) && old(db.users)[u].email == email.value
        && db == InviteUser(old(db), u, gid, caller, now)
        && PendingInvites(db.notifs, u, gid) == {old(db.nextId)}
      ensures Evolves(old(db.notifs), db.notifs)
    {
      if gid !in db.groups {
        return Err(NotFound), None;
      }
      if caller != db.groups[gid].admin {
        return Err(Forbidden), None;
      }
      if email.None? || email.value == [] {
        return Err(BadRequest), None;
      }
      if !exists u :: u in db.users && db.users[u].email == email.value {
        return Err(NotFound), None;
      }
      var u :| u in db.users && db.users[u].email == email.value;
      InviteUserOk(db, u, gid, caller, now);
      nid := Some(db.nextId);
      db := InviteUser(db, u, gid, caller, now);
      r := Ok;
    }

    /**
     * invitation_action: the invite must be the caller's; only a pending one
     * can be answered, with "accept" or "decline".
     */
    method InvitationAction(caller: nat, nid: nat, action: string) returns (r: Response)
      requires Valid() && caller in db.users
      modifies this
      ensures Valid()
      ensures !(nid in old(db.notifs) && old(db.notifs)[nid].toUser == caller && old(db.notifs)[nid].kind == Invite) ==>
        r == Err(NotFound) && db == old(db)
      ensures (nid in old(db.notifs) && old(db.notifs)[nid].toUser == caller && old(db.notifs)[nid].kind == Invite
               && old(db.notifs)[nid].status != Pending) ==>
        r == Err(BadRequest) && db == old(db)
      ensures action != "accept" && action != "decline" ==> r != Ok && db == old(db)
      ensures r == Ok <==> (
        && nid in old(db.notifs) && old(db.notifs)[nid].toUser == caller && old(db.notifs)[nid].kind == Invite
        && old(db.notifs)[nid].status == Pending && (action == "accept" || action == "decline"))
      ensures r == Ok ==> old(db.notifs)[nid].group.Some? && old(db.notifs)[nid].group.value in old(db.groups)
      ensures r == Ok ==> db == Answer(old(db), nid, action == "accept")
      ensures Evolves(old(db.notifs), db.notifs)
    {
      if nid !in db.notifs || db.notifs[nid].toUser != caller || db.notifs[nid].kind != Invite {
        return Err(NotFound);
      }
      if db.notifs[nid].status != Pending {
        return Err(BadRequest);
      }
      if action != "accept" && action != "decline" {
        return Err(BadRequest);
      }
      AnswerOk(db, nid, action == "accept");
      db := Answer(db, nid, action == "accept");
      r := Ok;
    }

    /**
     * exclude_member: admin only; a missing or zero user_id is refused, an
     * unknown one is not found, the admin cannot be excluded. Otherwise the
     * member leaves both sets and receives a pending exclude notification.
     */
    method ExcludeMember(caller: nat, gid: nat, userId: Option<int>, now: int) returns (r: Response)
      requires Valid() && caller in db.users
      modifies this
      ensures Valid()
      ensures gid !in old(db.groups) ==> r == Err(NotFound) && db == old(db)
      ensures gid in old(db.groups) && caller != old(db.groups)[gid].admin ==> r == Err(Forbidden) && db == old(db)
      ensures (gid in old(db.groups) && caller == old(db.groups)[gid].admin && (userId.None? || userId.value == 0)) ==>
        r == Err(BadRequest) && db == old(db)
      ensures (gid in old(db.groups) && caller == old(db.groups)[gid].admin && userId.Some? && userId.value != 0
               && (userId.value < 0 || userId.value as nat !in old(db.users))) ==>
        r == Err(NotFound) && db == old(db)
      ensures (gid in old(db.groups) && userId.Some? && userId.value == old(db.groups)[gid].admin) ==>
        r != Ok && db == old(db)
      ensures (gid in old(db.groups) && caller == old(db.groups)[gid].admin && userId.Some?
               && userId.value == old(db.groups)[gid].admin) ==>
        r == Err(BadRequest) && db == old(db)
      ensures r == Ok <==> (
        && gid in old(db.groups) && caller == old(db.groups)[gid].admin && userId.Some? && userId.value > 0
        && userId.value as nat in old(db.users) && userId.value != old(db.groups)[gid].admin)
      ensures r == Ok ==> db == ExcludeUser(old(db), gid, userId.value as nat, caller, now)
      ensures Evolves(old(db.notifs), db.notifs)
    {
      if gid !in db.groups {
        return Err(NotFound);
      }
      if caller != db.groups[gid].admin {
        return Err(Forbidden);
      }
      if userId.None? || userId.value == 0 {
        return Err(BadRequest);
      }
      if userId.value < 0 || userId.value as nat !in db.users {
        return Err(NotFound);
      }
      var m := userId.value as nat;
      if m == db.groups[gid].admin {
        return Err(BadRequest);
      }
      ExcludeUserOk(db, gid, m, caller, now);
      db := ExcludeUser(db, gid, m, caller, now);
      r := Ok;
    }

    /** leave_group: the admin cannot leave, and neither can a non-member. */
    method LeaveGroup(caller: nat, gid: nat) returns (r: Response)
      requires Valid() && caller in db.users
      modifies this
      ensures Valid()
      ensures gid !in old(db.groups) ==> r == Err(NotFound) && db == old(db)
      ensures (gid in old(db.groups)
               && (caller == old(db.groups)[gid].admin
                   || (caller !in old(db.groups)[gid].teachers && caller !in old(db.groups)[gid].students))) ==>
        r == Err(BadRequest) && db == old(db)
      ensures r == Ok <==> (
        && gid in old(db.groups) && caller != old(db.groups)[gid].admin
        && (caller in old(db.groups)[gid].teachers || caller in old(db.groups)[gid].students))
      ensures r == Ok ==> db == Leave(old(db), gid, caller)
    {
      if gid !in db.groups {
        return Err(NotFound);
      }
      var grp := db.groups[gid];
      if caller == grp.admin || (caller !in grp.teachers && caller !in grp.students) {
        return Err(BadRequest);
      }
      LeaveOk(db, gid, caller);
      db := Leave(db, gid, caller);
      r := Ok;
    }

    /** mark_notifications_viewed: the caller's pending notifications other than invites become viewed. */
    method MarkNotificationsViewed(caller: nat)
      requires Valid() && caller in db.users
      modifies this
      ensures Valid()
      ensures db == old(db).(notifs := MarkViewed(old(db.notifs), caller))
      ensures Evolves(old(db.notifs), db.notifs)
    {
      EvolvesOk(db, MarkViewed(db.notifs, caller));
      db := db.(notifs := MarkViewed(db.notifs, caller));
    }

    /** delete_notification: only the caller's own notification. */
    method DeleteNotification(caller: nat, nid: nat) returns (r: Response)
      requires Valid() && caller in db.users
      modifies this
      ensures Valid()
      ensures !(nid in old(db.notifs) && old(db.notifs)[nid].toUser == caller) ==> r == Err(NotFound) && db == old(db)
      ensures nid in old(db.notifs) && old(db.notifs)[nid].toUser == caller ==>
        r == Ok && db == old(db).(notifs := old(db.notifs) - {nid})
    {
      if nid !in db.notifs || db.notifs[nid].toUser != caller {
        return Err(NotFound);
      }
      db := db.(notifs := db.notifs - {nid});
      r := Ok;
    }

    /**
     * get_notifications: delete stale rows, create the missing deadline
     * reminders, and return the caller's notifications, newest first
     * (`order` lists the ids of `mine` in the order of the response).
     */
    method GetNotifications(caller: nat, now: int) returns (mine: map<nat, Notif>, order: seq<nat>)
      requires Valid() && caller in db.users
      modifies this
      ensures Valid()
      ensures db == old(db).(notifs := db.notifs, nextId := db.nextId)
      ensures Refreshed(old(db.notifs), old(db.nextId), db.notifs, db.nextId, db.posts, db.groups, now)
      ensures mine == Inbox(db.notifs, caller)
      ensures NewestFirst(mine, order) && forall k :: k in mine <==> k in order
    {
      var ns, next := RefreshNotifications(db.notifs, db.nextId, db.posts, db.groups, now);
      NotifsRefreshedOk(db, ns, next, now);
      db := db.(notifs := ns, nextId := next);
      mine := Inbox(ns, caller);
      order := OrderNewestFirst(mine);
    }
  }
}
