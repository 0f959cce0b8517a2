// frontend/src/components/PostPage.jsx: one post with its comments. The
// rules shown here are the reply line under a comment, who is offered the
// delete and edit controls, the comment payload, and the edit form with
// its list of files to delete. Dates are shown with Dates.FormatDate. The
// badge uses Badge.Bell.Zero, FetchedCounted, Reload and
// ClearAndStore(dispatch := true).

module PostPage {
  import opened Common
  import Dates
  import PostService
  import FileIds
  import ApiSerializers

  type Upload = PostService.Upload

  /** A comment as PostSerializer returns it; `parent` is null or a comment id. */
  datatype Comment = Comment(
    id: nat, text: string, author: nat, authorName: string, authorRole: string, parent: Option<nat>)

  /** The post as GET returns it; `deadline` is a DateField, so "YYYY-MM-DD" or null. */
  datatype PostData = PostData(
    title: string, content: string, deadline: Option<string>, author: nat, comments: seq<Comment>)

  // ---------------------------------------------------------------------
  // The reply line.

  /** `text.slice(0, 40)` followed by '…' when the text is longer than 40. */
  function Excerpt(text: string): (r: string)
    ensures |text| <= 40 ==> r == text
    ensures |text| > 40 ==> |r| == 41 && r[..40] == text[..40] && r[40] == '…'
  {
    Dates.Take(text, 40) + (if |text| > 40 then "…" else "")
  }

  /**
   * The excerpt shows the whole text exactly when the text fits in 40
   * characters, or is 41 characters ending in '…' itself.
   */
  lemma ExcerptWhole(text: string)
    ensures Excerpt(text) == text <==> |text| <= 40 || (|text| == 41 && text[40] == '…')
  {
    if |text| == 41 && text[40] == '…' {
      assert text == text[..40] + "…";
    }
  }

  /** `post.comments.find(pc => pc.id === id)`: the first comment with that id. */
  function Find(cs: seq<Comment>, id: nat): (r: Option<Comment>)
    ensures r.None? <==> forall i :: 0 <= i < |cs| ==> cs[i].id != id
    ensures r.Some? ==> exists i ::
      && 0 <= i < |cs| && cs[i] == r.value && r.value.id == id
      && forall j :: 0 <= j < i ==> cs[j].id != id
  {
    if cs == [] then None
    else if cs[0].id == id then Some(cs[0])
    else
      var r := Find(cs[1..], id);
      assert forall i :: 0 < i < |cs| ==> cs[i] == cs[1..][i - 1];
      if r.Some? then
        var k :| 0 <= k < |cs[1..]| && cs[1..][k] == r.value && r.value.id == id &&
          forall j :: 0 <= j < k ==> cs[1..][j].id != id;
        assert cs[k + 1] == r.value;
        r
      else r
  }

  /** Under a reply: the parent's author, role and excerpt, or the deleted-comment note. */
  datatype ReplyLine = RepliesTo(authorName: string, authorRole: string, excerpt: string) | ParentDeleted

  /** `c.parent && …`: no line for a top-level comment (a null or 0 parent is falsy). */
  function ParentLine(c: Comment, cs: seq<Comment>): (r: Option<ReplyLine>)
  {
    if c.parent.None? || c.parent.value == 0 then None
    else
      match Find(cs, c.parent.value)
      case Some(p) => Some(RepliesTo(p.authorName, p.authorRole, Excerpt(p.text)))
      case None => Some(ParentDeleted)
  }

  /**
   * A reply whose parent is still listed quotes that parent; the note about
   * a deleted comment appears exactly when no listed comment has the
   * parent's id.
   */
  lemma ParentLineCases(c: Comment, cs: seq<Comment>)
    ensures ParentLine(c, cs).Some? <==> c.parent.Some? && c.parent.value != 0
    ensures ParentLine(c, cs) == Some(ParentDeleted) <==>
      c.parent.Some? && c.parent.value != 0 && forall i :: 0 <= i < |cs| ==> cs[i].id != c.parent.value
    ensures ParentLine(c, cs).Some? && ParentLine(c, cs).value.RepliesTo? ==>
      exists i :: 0 <= i < |cs| && cs[i].id == c.parent.value
        && ParentLine(c, cs).value == RepliesTo(cs[i].authorName, cs[i].authorRole, Excerpt(cs[i].text))
  {
    if c.parent.Some? && c.parent.value != 0 {
      var f := Find(cs, c.parent.value);
      if f.Some? {
        var i :| 0 <= i < |cs| && cs[i] == f.value && f.value.id == c.parent.value &&
          forall j :: 0 <= j < i ==> cs[j].id != c.parent.value;
        assert cs[i].id == c.parent.value;
      }
    }
  }

  // ---------------------------------------------------------------------
  // Controls.

  /**
   * renderAuthor: a label only for a non-empty author_role; 'teacher' is
   * shown as 'Преподаватель', anything else as it is.
   */
  function RoleLabel(authorRole: string): (r: Option<string>)
    ensures r.None? <==> authorRole == []
    ensures authorRole == "teacher" ==> r == Some("Преподаватель")
    ensures authorRole != "teacher" && authorRole != [] ==> r == Some(authorRole)
  {
    if authorRole == [] then None
    else if authorRole == "teacher" then Some("Преподаватель")
    else Some(authorRole)
  }

  /**
   * With the author_role get_author_role sends, a label appears exactly for
   * teachers and admins, and it is the server's text.
   */
  lemma RoleLabelOfServerRole(role: string)
    ensures RoleLabel(ApiSerializers.AuthorRole(role)).Some? <==> role == "teacher" || role == "admin"
    ensures RoleLabel(ApiSerializers.AuthorRole(role)).Some? ==>
      RoleLabel(ApiSerializers.AuthorRole(role)).value == ApiSerializers.AuthorRole(role)
  {
  }

  /** The delete control: `isAdmin || user?.id === c.author`, isAdmin being the stored role 'admin'. */
  predicate OffersDelete(role: Option<string>, viewer: Option<nat>, c: Comment)
  {
    role == Some("admin") || viewer == Some(c.author)
  }

  /** Anyone without the 'admin' role is offered the delete control on their own comments only. */
  lemma DeleteOfferedToAuthor(role: Option<string>, viewer: Option<nat>, c: Comment)
    ensures role != Some("admin") ==> (OffersDelete(role, viewer, c) <==> viewer == Some(c.author))
    ensures viewer == Some(c.author) ==> OffersDelete(role, viewer, c)
  {
  }

  /** The edit control: `post.author === user?.id`. */
  predicate OffersEdit(p: PostData, viewer: Option<nat>)
  {
    viewer == Some(p.author)
  }

  // ---------------------------------------------------------------------
  // Comment payload and edit form.

  /** The body of addComment: the text, and `parent` only when replyTo is truthy. */
  datatype CommentPayload = CommentPayload(text: string, parent: Option<nat>)

  function Payload(comment: string, replyTo: Option<nat>): (r: CommentPayload)
    ensures r.text == comment
    ensures r.parent.Some? <==> replyTo.Some? && replyTo.value != 0
    ensures r.parent.Some? ==> r.parent == replyTo
  {
    if replyTo.Some? && replyTo.value != 0 then CommentPayload(comment, replyTo)
    else CommentPayload(comment, None)
  }

  /** The deadline field of the edit form: its first ten characters, or '' for a null or empty deadline. */
  function EditDeadline(deadline: Option<string>): (r: string)
    ensures |r| <= 10
    ensures deadline.None? ==> r == ""
    ensures deadline.Some? ==> r <= deadline.value
  {
    if deadline.Some? && deadline.value != [] then Dates.Take(deadline.value, 10) else ""
  }

  /** A served deadline is an ISO date, which the edit form holds unchanged and sends back as it was. */
  lemma EditDeadlineKeepsIsoDate(d: string)
    requires Dates.IsIsoDate(d)
    ensures EditDeadline(Some(d)) == d
  {
  }

  /** The edit form holds one file id to delete per click. */
  function MarkForDeletion(toDelete: seq<nat>, id: nat): (r: seq<nat>)
    ensures |r| == |toDelete| + 1 && r[..|toDelete|] == toDelete
    ensures multiset(r) == multiset(toDelete) + multiset{id}
  {
    toDelete + [id]
  }

  /** handleUndoFileDelete: every copy of the id is dropped. */
  function Unmark(toDelete: seq<nat>, id: nat): (r: seq<nat>)
    ensures id !in r
    ensures forall x :: x != id ==> (x in r <==> x in toDelete)
  {
    RemoveAll(toDelete, id)
  }

  lemma {:induction false} RemoveAllAppended(s: seq<nat>, x: nat)
    requires x !in s
    ensures RemoveAll(s + [x], x) == s
  {
    if s == [] {
      assert s + [x] == [x];
      assert [x][1..] == [];
    } else {
      assert (s + [x])[1..] == s[1..] + [x];
      RemoveAllAppended(s[1..], x);
    }
  }

  /**
   * Undo after a delete of a file not yet marked gives back the list as it
   * was; undo also drops every earlier copy, so after two deletes and one
   * undo the file is no longer marked.
   */
  lemma UndoAfterDelete(toDelete: seq<nat>, id: nat)
    ensures id !in toDelete ==> Unmark(MarkForDeletion(toDelete, id), id) == toDelete
    ensures id !in Unmark(MarkForDeletion(MarkForDeletion(toDelete, id), id), id)
  {
    if id !in toDelete {
      RemoveAllAppended(toDelete, id);
    }
  }

  /** The update handleEditSubmit passes to updatePost: every field defined. */
  function Update(title: string, content: string, deadline: string, toDelete: seq<nat>, files: seq<Upload>): (r: PostService.PostUpdate)
    ensures r.title == Some(title) && r.content == Some(content) && r.deadline == Some(deadline)
    ensures r.fileIdsToDelete == toDelete && r.files == files
  {
    PostService.PostUpdate(Some(title), Some(content), Some(deadline), toDelete, files)
  }

  /**
   * The ids the edit form marks reach the server intact: updatePost sends
   * them as one JSON array only when there are any, and the PATCH handler
   * reads that field back as the same list (an absent field as no ids).
   */
  lemma MarkedIdsReachServer(toDelete: seq<nat>)
    ensures var sent := if |toDelete| > 0 then Some(PostService.JsonInts(toDelete)) else None;
      FileIds.ParseFileIds(sent) == FileIds.Ids(toDelete)
  {
    if |toDelete| > 0 {
      var xs: seq<int> := toDelete;
      assert forall i :: 0 <= i < |xs| ==> xs[i] >= 0;
      FileIds.FileIdsRoundTrip(xs);
      var r := FileIds.ParseFileIds(Some(PostService.JsonInts(xs)));
      assert r.Ids? && |r.ids| == |toDelete|;
      assert r.ids == toDelete;
    }
  }

  // ---------------------------------------------------------------------
  // The page's state.

  const LoadFailed := "Ошибка загрузки поста"
  const AddFailed := "Ошибка добавления комментария"
  const DeleteFailed := "Ошибка удаления комментария"
  const SaveFailed := "Ошибка сохранения изменений"

  datatype PostState = PostState(
    post: Option<PostData>, error: Option<string>, comment: string, replyTo: Option<nat>,
    editMode: bool, editTitle: string, editContent: string, editDeadline: string,
    editFiles: seq<Upload>, toDelete: seq<nat>)

  /** The edit fields as taken from a post (handleEdit and the load effect). */
  function EditFrom(s: PostState, p: PostData): (r: PostState)
    ensures r.editTitle == p.title && r.editContent == p.content
    ensures r.editDeadline == EditDeadline(p.deadline)
    ensures r.editFiles == [] && r.toDelete == []
    ensures r.post == s.post && r.error == s.error && r.comment == s.comment
    ensures r.replyTo == s.replyTo && r.editMode == s.editMode
  {
    s.(editTitle := p.title, editContent := p.content, editDeadline := EditDeadline(p.deadline),
       editFiles := [], toDelete := [])
  }

  class PostView {
    var st: PostState

    constructor ()
      ensures st == PostState(None, None, "", None, false, "", "", "", [], [])
    {
      st := PostState(None, None, "", None, false, "", "", "", [], []);
    }

    /** fetchPost: a loaded post is shown and, outside edit mode, copied into the edit fields. */
    method Loaded(data: Option<PostData>)
      modifies this
      ensures data.None? ==> st == old(st).(error := Some(LoadFailed))
      ensures data.Some? && old(st).editMode ==> st == old(st).(post := data)
      ensures data.Some? && !old(st).editMode ==> st == EditFrom(old(st).(post := data), data.value)
    {
      if data.None? {
        st := st.(error := Some(LoadFailed));
        return;
      }
      st := st.(post := data);
      if !st.editMode {
        st := EditFrom(st, data.value);
      }
    }

    /** handleReply: answer comment `c`, the field pre-filled with "@name, ". */
    method Reply(c: Comment)
      modifies this
      ensures st == old(st).(replyTo := Some(c.id), comment := "@" + c.authorName + ", ")
      ensures Payload(st.comment, st.replyTo).parent == (if c.id != 0 then Some(c.id) else None)
    {
      st := st.(replyTo := Some(c.id), comment := "@" + c.authorName + ", ");
    }

    /**
     * handleAddComment: the payload is built from the field and replyTo; once
     * the comment is added both are cleared, and the post is reloaded; a
     * failure of either request sets the error.
     */
    method AddComment(added: bool, reloaded: Option<PostData>) returns (payload: CommentPayload)
      modifies this
      ensures payload == Payload(old(st).comment, old(st).replyTo)
      ensures !added ==> st == old(st).(error := Some(AddFailed))
      ensures added && reloaded.Some? ==> st == old(st).(comment := "", replyTo := None, post := reloaded)
      ensures added && reloaded.None? ==> st == old(st).(comment := "", replyTo := None, error := Some(AddFailed))
    {
      payload := Payload(st.comment, st.replyTo);
      if !added {
        st := st.(error := Some(AddFailed));
        return;
      }
      st := st.(comment := "", replyTo := None);
      if reloaded.Some? {
        st := st.(post := reloaded);
      } else {
        st := st.(error := Some(AddFailed));
      }
    }

    /** handleDeleteComment: the reloaded post, or the error. */
    method DeleteComment(reloaded: Option<PostData>)
      modifies this
      ensures reloaded.Some? ==> st == old(st).(post := reloaded)
      ensures reloaded.None? ==> st == old(st).(error := Some(DeleteFailed))
    {
      if reloaded.Some? {
        st := st.(post := reloaded);
      } else {
        st := st.(error := Some(DeleteFailed));
      }
    }

    /** handleEdit: edit mode with the post's fields and empty file lists. */
    method Edit()
      requires st.post.Some?
      modifies this
      ensures st == EditFrom(old(st).(editMode := true), old(st).post.value)
      ensures st.editMode && st.toDelete == [] && st.editFiles == []
    {
      st := EditFrom(st.(editMode := true), st.post.value);
    }

    method CancelEdit()
      modifies this
      ensures st == old(st).(editMode := false)
    {
      st := st.(editMode := false);
    }

    method FileDelete(id: nat)
      modifies this
      ensures st == old(st).(toDelete := MarkForDeletion(old(st).toDelete, id))
    {
      st := st.(toDelete := MarkForDeletion(st.toDelete, id));
    }

    method UndoFileDelete(id: nat)
      modifies this
      ensures st == old(st).(toDelete := Unmark(old(st).toDelete, id))
    {
      st := st.(toDelete := Unmark(st.toDelete, id));
    }

    /** handleEditSubmit: the update sent; edit mode ends on success, the error is set on failure. */
    method EditSubmit(ok: bool) returns (update: PostService.PostUpdate)
      modifies this
      ensures update == Update(old(st).editTitle, old(st).editContent, old(st).editDeadline,
                               old(st).toDelete, old(st).editFiles)
      ensures ok ==> st == old(st).(editMode := false)
      ensures !ok ==> st == old(st).(error := Some(SaveFailed))
    {
      update := Update(st.editTitle, st.editContent, st.editDeadline, st.toDelete, st.editFiles);
      if ok {
        st := st.(editMode := false);
      } else {
        st := st.(error := Some(SaveFailed));
      }
    }
  }
}
