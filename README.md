# TaskTalk core, modelled in Dafny

TaskTalk is a small classroom site. A teacher creates a group and becomes
its admin. The admin invites teachers and students by e-mail, posts
assignments with deadlines and files, and excludes members. Members
comment on posts and can leave the group. A bell icon on every page
shows how many notifications are still pending.

This project models the logic layer of that system and proves
properties of it:

- **The notification and membership state machine of the Django
  backend.** This covers invite, accept and decline, exclude, leave,
  mark viewed, the cleanup of old notifications, deadline reminders,
  and the admin and author guards of the post, group and comment
  handlers.
  - `Views.Backend` is a class. Its single field is the whole database.
  - Each handler is a method. It checks the guards in the source's
    order, answers with the source's status code, and states its new
    state through a pure transition function of `BackendState`.
  - `BackendState` proves two things about these transitions. First,
    the tables keep their integrity: foreign keys, unique e-mails and
    fresh ids. Second, a notification's status only moves forward:
    an invite goes pending → accepted or declined, any other
    notification goes pending → viewed, and a settled status never
    changes again.
- **The serializers' computed fields.** This covers the "Last F.M."
  short name, the ordered member list of a group, the comment author's
  role label, a user's role in a group, registration checks, the full
  name, and the e-mail uniqueness check.
- **The list and state updates of the React pages.**
  - The badge count and its `localStorage` mirror.
  - Role derivation and the stable role sort of the teacher's group
    list.
  - Post selection and bulk delete.
  - De-duplication of attached files.
  - Invite answers in the bell page, and its per-button loading key.
  - The reply excerpt and the file-deletion lists of the post page.
  - The random phrase tiles of the home page.
  - The profile page's edit, save and cancel state machine.
  - Each page keeps its React state in one datatype field of a class.
    Each handler is a method whose `ensures` gives the new state.
- **The multipart bodies that `postService.js` builds**, and the
  backend's parsing of `file_ids_to_delete`. These are proved to round
  trip for every list of non-negative ids.

Model decisions:

- **Dates.** The backend counts dates as whole days and clocks in
  seconds since 1970. The pages keep dates as ISO "YYYY-MM-DD" strings.
  "Now" and "today" are parameters.
- **Outcomes from outside.** Every HTTP response, serializer verdict
  and random choice that a handler depends on is a parameter, or an
  arbitrary choice (`:|`).

Where the code and the written design of the system disagree, the model
follows the code:

- **Bulk delete.** When one delete fails, the remaining deletes are
  not sent and the list of posts stays as it was
  (`GroupPage.GroupView.DeleteSelected`). It is not "the attempted ids
  removed".
- **Duplicate attachments.** Two identical files in one batch are both
  kept (`GroupPage.BatchDuplicatesKept`).
- **The `viewed` status.** Notifications have a fourth status,
  `viewed`, which mark-viewed sets on pending notifications other than
  invites.
- **The notifications page and the badge.** The page does not clear a
  badge of its own. Only after a successful mark-viewed does it store
  '0' and announce it (`Badge.Bell.MarkedViewed`).
- **The post page's badge.** It also counts `exclude` notifications
  (`Badge.CountedCount`).
- **Editing a post.** The edit form does not check the deadline
  against today.

## Model

| member | source | states |
|---|---|---|
| Views.Backend.constructor | backend/users/models.py:34 | The database starts with the registered users only and no other rows. Its invariant holds from the start. |
| Views.Backend.MyGroups | backend/api/views.py:21-25 | Exactly the groups the user administers, teaches in or studies in, each once. `UserSerializers.ListedGroupsHaveRoles` shows these are the groups where `get_role` gives a role. |
| Views.Backend.CreateGroup | backend/api/views.py:27-35 | Invalid data gives 400 and changes nothing. Otherwise a group is created under a fresh id, with the caller as its admin. |
| BackendState.NewGroupOk | backend/api/views.py:32-33 | A created group keeps the database consistent. Its creator is the admin and is also in its teachers. |
| Views.Backend.CreatePost | backend/api/views.py:37-60 | An unknown group gives 404. A caller other than the admin gives 403. Invalid fields give 400. Success happens exactly when the admin sends valid fields. Then there is one new post, plus one file row per uploaded file, in upload order, under fresh ids. Nothing else changes. |
| Views.Backend.DeleteGroup | backend/api/views.py:62-69 | 404 or 403 leaves the database unchanged. Success happens exactly for the admin. The group goes, together with its posts, their files, all comments on them (replies with their parents), and every notification that refers to them. |
| Views.Backend.DeletePost | backend/api/views.py:79-83 | A post outside the group gives 404. A caller other than the admin gives 403. On success the post goes, with its files, its comments (replies included) and its reminders. |
| Views.Backend.EditPost | backend/api/views.py:84-130 | A caller other than the admin gives 403. A lone JSON integer in `file_ids_to_delete` is a server error with no change. Otherwise the listed files of this post are deleted first. Then an invalid patch gives 400, which keeps those deletions. A valid patch updates only the fields it sends and attaches the new files. |
| Views.Backend.DeleteComment | backend/api/views.py:147-157 | A comment not on this post of this group gives 404. Success happens exactly for the group's admin or the comment's author. The comment goes with all replies that hang under it, and no other row changes. |
| Views.Backend.InviteToGroup | backend/api/views.py:159-199 | Errors come in the source's order: 404 for the group, 403 for a non-admin, 400 for a missing e-mail, 404 for an unknown user. On success every earlier pending invite of that user to the group is declined, and the new invite is the only pending one. |
| Views.Backend.InvitationAction | backend/api/views.py:244-264 | Only the caller's own invite is found. A settled invite gives 400, and so does an unknown action. In both cases nothing changes. On success the result is the `Answer` transition. |
| BackendState.AnswerOk | backend/api/views.py:250-262 | The invite alone changes, to accepted or declined, and no other notification, user or post changes. Accepting adds the user to the teachers of the invite's group if their role is "teacher" and to its students otherwise, and leaves every other group as it was. Declining changes no group. The database stays consistent. |
| Views.Backend.ExcludeMember | backend/api/views.py:266-293 | 403 for a non-admin. 400 for a missing or zero user_id. 404 for an unknown user. 400, with nothing changed, when the admin names themself. Otherwise the result is `ExcludeUser`. |
| BackendState.ExcludeUserOk | backend/api/views.py:282-292 | The excluded user is removed from the teachers and the students, and nothing else in the group changes. Other groups are unchanged. Exactly one notification is added, under a fresh id: a pending exclude notification to that user, from the admin, about the group. The database stays consistent. |
| Views.Backend.LeaveGroup | backend/api/views.py:295-310 | The admin gets 400, and so does a non-member. A member leaves with the `Leave` transition. |
| BackendState.LeaveOk | backend/api/views.py:301-310 | A teacher leaves the teachers and stays in the students if listed there. Otherwise the user leaves the students. No other membership, group, notification, user or post changes. The admin stays the same. The database stays consistent. |
| Views.Backend.MarkNotificationsViewed | backend/api/views.py:312-319 | The result is `MarkViewed` on the caller's notifications. Every status move is an allowed step. |
| BackendState.MarkViewed | backend/api/views.py:315-318 | Every pending notification of the user that is not an invite becomes viewed. Every other row is unchanged. |
| Views.Backend.DeleteNotification | backend/api/views.py:321-326 | Only the caller's own notification is deleted. Any other id gives 404. |
| Views.Backend.GetNotifications | backend/api/views.py:201-242 | Stale rows are deleted and missing reminders created (`Refreshed`). The answer is exactly the caller's notifications, listed once each and newest first. |
| BackendState.OrderNewestFirst | backend/api/views.py:241 | Lists every row exactly once, and no row is created after one listed before it. |
| BackendState.InsertByCreated | backend/api/views.py:241 | Inserting a row into a newest-first list keeps it newest first and adds only that row. |
| BackendState.Cleanup | backend/api/views.py:204-211 | Deletes exactly the rows that are accepted, declined or of type exclude and were created more than seven days before now. |
| BackendState.CleanupIdempotent | backend/api/views.py:205-211 | A second cleanup at the same instant deletes nothing more. |
| BackendState.RemindStudents | backend/api/views.py:224-240 | The inner loop. Afterwards every student of the post's group has a reminder for the post and its deadline. Only fresh reminder rows are added. If every student already had one, nothing changes. Unique reminders stay unique. |
| BackendState.AddReminders | backend/api/views.py:212-240 | After the loop over posts, every student of every group with a deadline at most one day away (or past) has a reminder. New rows are pending reminders under fresh ids. A table that is already complete is unchanged. No second reminder is made for the same student, post and deadline. |
| BackendState.RefreshNotifications | backend/api/views.py:204-240 | Cleanup, then reminders. Kept rows are unchanged and nothing stale is left. Every status move is an allowed step. A clean, complete table is left as it is. |
| BackendState.DeclineInvites | backend/api/views.py:177-184 | Exactly the user's pending invites to the group become declined. No pending invite to that group remains. |
| BackendState.OnePendingInvite | backend/api/views.py:184-194 | After declining and adding the new invite, the new one is the user's only pending invite to the group. |
| BackendState.InviteUserOk | backend/api/views.py:177-194 | The invite transition keeps the database consistent. It leaves exactly one pending invite, under the fresh id. It moves statuses only by allowed steps. |
| BackendState.SettledStaysSettled | backend/api/views.py:247-249 | Over any run of handlers, a notification that is accepted, declined or viewed keeps its status. An invite never becomes viewed. |
| BackendState.ReplyCascade | backend/api/models.py:49 | The comments deleted with a seed set. Each removed comment was in the seed or replies to a removed comment, and no surviving comment replies to a removed one. |
| BackendState.DeleteListedFiles | backend/api/views.py:115-118 | Deletes exactly the listed ids that are files of this post. Other posts' files and unknown ids are skipped. |
| BackendState.AddFiles | backend/api/views.py:126-127 | One new file row per upload, in order, under consecutive fresh ids. Existing rows are unchanged. |
| BackendState.AttachFiles | backend/api/views.py:55-56 | Only the file table and the id counter change, by `FilesAdded`. The database stays consistent. |
| BackendState.DropRowsOk | backend/api/models.py:16-65 | Deleting groups, posts and comments together with every row that depends on them leaves no dangling foreign key. |
| BackendState.Inbox | backend/api/views.py:241 | Exactly the rows addressed to the user, unchanged. |
| ApiSerializers.Strip | backend/api/serializers.py:32 | The result has no white space at either end. |
| ApiSerializers.StripIsSlice | backend/api/serializers.py:32 | The result is a slice of the input, and everything cut off on either side is white space. With the row above this fixes the result: white space goes from both ends and only there. |
| ApiSerializers.StripTrimmed | backend/api/serializers.py:32 | Stripping a string that is already trimmed changes nothing. |
| ApiSerializers.Initials | backend/api/serializers.py:27-31 | Two characters for each name present, and ending in '.' when there are any. |
| ApiSerializers.FioWithInitials | backend/api/serializers.py:26-32 | With a trimmed last name and a non-blank first or middle name, the short name is the last name, a space and the initials. The character after the space is the first name's initial. |
| ApiSerializers.FioLastNameOnly | backend/api/serializers.py:26-32 | With no first and no middle name, the short name is the trimmed last name. |
| ApiSerializers.Others | backend/api/serializers.py:92-93 | An id is in the result exactly when it is a teacher id other than the admin. The result is no longer than the teacher list. |
| ApiSerializers.OthersIsFilter | backend/api/serializers.py:92-93 | The result is exactly the filter of the teacher ids by `t != admin`: the others, in order, with their repetitions. |
| ApiSerializers.TeacherEntries | backend/api/serializers.py:92-94 | The loop over the teachers yields one teacher entry per teacher other than the admin, in query order. |
| ApiSerializers.StudentEntries | backend/api/serializers.py:95-96 | The loop over the students yields one student entry per student, in query order. |
| ApiSerializers.GetMembers | backend/api/serializers.py:82-97 | The built list is `MemberList`: the admin's entry, then the teacher entries, then the student entries. |
| ApiSerializers.AdminFirst | backend/api/serializers.py:91 | The first entry is the admin with role 'admin'. No later entry has that role. |
| ApiSerializers.TeachersWithoutAdmin | backend/api/serializers.py:92-94 | The teacher entries are exactly the teachers other than the admin, so the admin never appears as 'teacher'. |
| ApiSerializers.RolesInOrder | backend/api/serializers.py:90-97 | Roles are grouped: admin, then teachers, then students. |
| ApiSerializers.StudentsUnfiltered | backend/api/serializers.py:95-96 | Every student has its entry after the teachers, even a student who is also the admin or a teacher. |
| ApiSerializers.MembersCount | backend/api/serializers.py:90-97 | The list has 1 + \|teachers \ {admin}\| + \|students\| entries. |
| ApiSerializers.AuthorRole | backend/api/serializers.py:35-43 | 'Преподаватель' for a teacher and 'Админ' for an admin. The empty string otherwise. |
| ApiSerializers.FromUserName | backend/api/serializers.py:108-116 | The sender's short name. null exactly when there is no sender. |
| ApiSerializers.GroupName | backend/api/serializers.py:117-118 | The group's name. null exactly when the row names no group. |
| ApiSerializers.PostTitle | backend/api/serializers.py:119-120 | The post's title. null exactly when the row names no post. |
| ApiSerializers.CurrentDate | backend/api/serializers.py:121-122 | The day that contains the clock reading. |
| UserSerializers.Validate | backend/users/serializers.py:16-21 | Valid exactly when the passwords agree and a non-empty role is given. Differing passwords give their message first. A missing role gives its own message. Valid data passes unchanged. |
| UserSerializers.NewUser | backend/users/models.py:6-13 | A user is created exactly when the e-mail is non-empty. It holds the given names, e-mail and role, and it is active by the model's default. |
| UserSerializers.Create | backend/users/serializers.py:23-28 | 'password2' is dropped before the user is created. The created user is active. |
| UserSerializers.RegisteredUserActive | backend/users/serializers.py:16-28 | A registration that passes validation and has an e-mail yields an active user with that e-mail and the non-empty role sent. |
| UserSerializers.GetRole | backend/users/serializers.py:46-54 | Precedence is admin, then teacher, then student. null exactly for a non-member. |
| UserSerializers.ListedGroupsHaveRoles | backend/users/serializers.py:69-73 | The groups listed on a profile are exactly those where the user has a role. |
| UserSerializers.FullName | backend/users/serializers.py:66-67 | The three names with one space between each pair. |
| UserSerializers.FullNameSplits | backend/users/serializers.py:66-67 | When no name holds a space, splitting the full name at spaces gives back last, first and middle name. |
| UserSerializers.ValidateEmail | backend/users/serializers.py:75-79 | Refused, with the source's message, exactly when another user already holds the address. Otherwise the address is accepted unchanged. |
| UserSerializers.OwnEmailValid | backend/users/serializers.py:76-77 | A user may keep their own address. |
| UserSerializers.AcceptedEmailKeepsUnique | backend/users/models.py:34 | An accepted address keeps e-mails unique after the update. |
| PostService.Entries | frontend/src/services/postService.js:48-50 | Only text fields are appended, each under one of the given keys. |
| PostService.GetEntries | frontend/src/services/postService.js:48-50 | With distinct keys, reading a key back gives the value appended for it, or nothing when it was not appended. |
| PostService.AppendFiles | frontend/src/services/postService.js:16 | One 'files' entry per file, in order, after the existing fields. The existing fields and every text value are unchanged. |
| PostService.CreatePostBody | frontend/src/services/postService.js:9-23 | Multipart exactly when there are files, and the plain data otherwise. In multipart mode: title, content, the deadline only when truthy, then the files in order. |
| PostService.UpdatePostBody | frontend/src/services/postService.js:45-59 | Title, content and deadline each appear only when defined. `file_ids_to_delete` appears, as the JSON array, only when non-empty. The files follow in order. |
| FileIds.ParseFileIds | backend/api/views.py:93-114 | An absent or empty value deletes nothing. Every id kept is a non-negative integer. |
| FileIds.PyInt | backend/api/views.py:109-110 | `int(text)` gives a number only for non-empty text. |
| FileIds.KeepDigits | backend/api/views.py:114 | Keeps exactly the ids whose text is all digits. |
| FileIds.PyStrDigits | backend/api/views.py:114 | `str(x).isdigit()` holds exactly for non-negative x. |
| FileIds.KeepDigitsNonNegative | backend/api/views.py:114 | The filter keeps the non-negative ids, in order. |
| FileIds.JsonLoadsText | backend/api/views.py:107 | json.loads reads JSON.stringify's text of a non-empty integer list back as that list. |
| FileIds.FileIdsRoundTrip | frontend/src/services/postService.js:51-53 | The ids the page sends come back as the ids the backend deletes: the non-negative ones, in order. A list of non-negative ids arrives unchanged. |
| FileIds.LoneIntIsError | backend/api/views.py:106-114 | For every integer, its JSON text is read as that integer, which is not iterable, so the handler fails. |
| FileIds.SignedTextFallsBack | backend/api/views.py:106-114 | Every run of digits with a leading '+' is not JSON; int() reads it, and that one id is deleted. |
| FileIds.OtherTextDeletesNothing | backend/api/views.py:106-114 | Every text whose first character opens no JSON value and no number is neither JSON nor an integer, and deletes nothing. |
| FileIds.LeadingZeroFallsBack | backend/api/views.py:106-114 | Every run of two or more digits starting with '0' is not JSON; int() reads it, and that one id is deleted. |
| FileIds.NegativeLeadingZero | backend/api/views.py:106-114 | A '-' before such digits is not JSON either; int() gives a negative number, which is dropped, except that all zeros give id 0. |
| Badge.PendingCount | frontend/src/components/GroupsTeacherPage.jsx:50 | At most the number of notifications. 0 exactly when none is pending. All of them exactly when all are pending. |
| Badge.CountedCount | frontend/src/components/PostPage.jsx:59 | At most the number of notifications. 0 exactly when none is pending or of type exclude. |
| Badge.CountedAtLeastPending | frontend/src/components/PostPage.jsx:59 | The post page's count is never below the other pages'. It equals theirs exactly when every exclude notification is pending. |
| Badge.ReadStored | frontend/src/components/GroupsTeacherPage.jsx:27 | An absent entry reads as 0. A readable non-empty entry is all digits. |
| Badge.StoredRoundTrip | frontend/src/components/GroupsTeacherPage.jsx:52 | `String(n)` written to storage reads back as n. |
| Badge.Bell.FromStorage | frontend/src/components/GroupsTeacherPage.jsx:27 | The badge starts at the stored count. |
| Badge.Bell.Zero | frontend/src/components/PostPage.jsx:31 | The badge starts at 0. Storage is untouched. |
| Badge.Bell.Fetched | frontend/src/components/GroupsTeacherPage.jsx:46-59 | Shows the pending count, or 0 on failure. When mirrored, storage then reads back as the shown count. |
| Badge.Bell.FetchedCounted | frontend/src/components/PostPage.jsx:55-66 | Shows the count of pending or exclude notifications, or 0 on failure. Storage is untouched. |
| Badge.Bell.Reload | frontend/src/components/GroupsTeacherPage.jsx:61-71 | The storage listener shows the stored count. |
| Badge.Bell.ClearShown | frontend/src/components/GroupsTeacherPage.jsx:118-121 | The badge shows 0. Storage and events are untouched. |
| Badge.Bell.ClearAndStore | frontend/src/components/PostPage.jsx:162-167 | Shows 0 and stores '0', which reads back as 0. One event is dispatched exactly when asked. |
| Badge.Bell.MarkedViewed | frontend/src/components/NotificationsBellPage.jsx:31-47 | Only with a token and a successful request is '0' stored and one event dispatched. Otherwise storage and events are untouched. The shown count never changes. |
| Dates.Split | frontend/src/components/PostPage.jsx:9 | One more piece than there are separators. |
| Dates.SplitPiecesFree | frontend/src/components/PostPage.jsx:9 | No piece holds the separator. |
| Dates.JoinSplit | frontend/src/components/PostPage.jsx:9 | Joining the pieces again gives back the string. |
| Dates.FormatDate | frontend/src/components/PostPage.jsx:7-12 | '' for an empty input. Any text whose first ten characters do not split into three pieces comes back unchanged. |
| Dates.FormatDateIso | frontend/src/components/GroupPage.jsx:94-99 | An ISO date "YYYY-MM-DD" becomes "DD.MM.YYYY". |
| Dates.IsoLexIsCalendarOrder | frontend/src/components/GroupPage.jsx:68 | For ISO dates, `<` on strings is calendar order. |
| Dates.DigitsLexOrder | frontend/src/components/NotificationsBellPage.jsx:141 | For digit strings of one length, string order is numeric order. |
| EmailPatterns.StrictAcceptsParts | frontend/src/components/ProfilePage.jsx:92-93 | local@domain.tld is accepted when all three parts are non-empty and free of white space and '@'. |
| EmailPatterns.StrictImpliesLoose | frontend/src/components/GroupPage.jsx:130 | Every address the profile form accepts, the invite dialog accepts. |
| EmailPatterns.LooseAcceptsDoubleAt | frontend/src/components/GroupPage.jsx:130 | The converse fails: the invite dialog lets "a@@b.c" through. |
| Common.RemoveAll | frontend/src/components/PostPage.jsx:143 | Every copy of the value goes and every other element stays. A list without the value is unchanged. A list without repetitions keeps none. |
| Common.RemoveAllIsFilter | frontend/src/components/PostPage.jsx:143 | The result is exactly the filter by `y !== x`: the other elements stay, in order, with their repetitions. |
| Common.DropIndex | frontend/src/components/GroupPage.jsx:335 | Exactly the given position is removed. An index past the end changes nothing. |
| Common.NatToString | frontend/src/components/GroupsTeacherPage.jsx:52 | `String(n)`: non-empty, all digits, and without a leading zero. |
| Common.ParseNat | frontend/src/components/GroupsTeacherPage.jsx:27 | A number exactly for non-empty all-digit text. |
| Common.LexLessTotal | frontend/src/components/GroupPage.jsx:68 | `<` on strings is total: of two different strings, one is smaller. |
| Common.LexLessIrreflexive | frontend/src/components/GroupPage.jsx:68 | No string is smaller than itself. |
| Common.NatToStringRoundTrip | frontend/src/components/GroupStudentPage.jsx:44 | The decimal text of a number reads back as that number. |
| Common.NatToStringInjective | frontend/src/components/NotificationsBellPage.jsx:50 | Different numbers have different decimal texts. |
| GroupPage.Toggle | frontend/src/components/GroupPage.jsx:102-104 | The id is selected afterwards exactly when it was not before. Other ids keep their state. A new id is appended. |
| GroupPage.ToggleNoDup | frontend/src/components/GroupPage.jsx:103 | Toggling never creates a duplicate. |
| GroupPage.ToggleTwice | frontend/src/components/GroupPage.jsx:103 | Two toggles restore the selection. Starting from an unselected id, they restore the very list. |
| GroupPage.KeepUnselected | frontend/src/components/GroupPage.jsx:114 | Keeps exactly the posts whose id is not selected. |
| GroupPage.KeepUnselectedAppend | frontend/src/components/GroupPage.jsx:114 | The filter keeps order: it distributes over concatenation. |
| GroupPage.KeepUnselectedNone | frontend/src/components/GroupPage.jsx:114 | A list with no selected post is unchanged. |
| GroupPage.Fresh | frontend/src/components/GroupPage.jsx:326 | The files of a batch that are not already listed with the same name and size. |
| GroupPage.AddAttachments | frontend/src/components/GroupPage.jsx:326 | Listed files keep their place. The fresh ones follow, and nothing else is added. |
| GroupPage.AddAttachmentsIdempotent | frontend/src/components/GroupPage.jsx:326 | Choosing the same files again adds nothing. |
| GroupPage.BatchDuplicatesKept | frontend/src/components/GroupPage.jsx:326 | Duplicates inside one batch are both kept. |
| GroupPage.ExcludeShownOnTargets | frontend/src/components/GroupPage.jsx:234 | On a served member list, "Исключить" shows exactly on the rows of members other than the admin, and only to the admin. |
| GroupPage.LeaveShownToMember | frontend/src/components/GroupPage.jsx:241-253 | "Выйти" shows only on the viewer's own row. A viewer other than the admin who sees it is a teacher or student of the group, whom leave_group accepts. The admin sees it only on a student row, when also listed as a student, and leave_group refuses the admin with 400 (Views.Backend.LeaveGroup). |
| GroupPage.LeaveShownToAdminStudent | frontend/src/components/GroupPage.jsx:247-253 | An admin who is also listed as a student does get "Выйти" on that student row. |
| GroupPage.DeadlineRefusedIsCalendar | frontend/src/components/GroupPage.jsx:68 | For ISO dates, a deadline is refused exactly when it is an earlier calendar day than today. |
| GroupPage.TodayAccepted | frontend/src/components/GroupPage.jsx:68 | A deadline of today is accepted. |
| GroupPage.GroupView.constructor | frontend/src/components/GroupPage.jsx:10-34 | The initial React state. |
| GroupPage.GroupView.SelectPost | frontend/src/components/GroupPage.jsx:102-104 | Only the selection changes, by `Toggle`. |
| GroupPage.GroupView.DeleteSelected | frontend/src/components/GroupPage.jsx:106-124 | The deletes go out in selection order, and none after the first failure. Only when all succeed are exactly the selected posts removed (the rest in order) and the selection cleared. Otherwise the posts are unchanged and the error is set. |
| GroupPage.GroupView.CreatePost | frontend/src/components/GroupPage.jsx:65-91 | A set deadline before today is refused, with no request. Otherwise the request carries the form, with an empty deadline as null. On success the new post goes first and the form is reset. |
| GroupPage.GroupView.ChooseFiles | frontend/src/components/GroupPage.jsx:324-327 | Only the attachments change, by `AddAttachments`. |
| GroupPage.GroupView.RemoveFile | frontend/src/components/GroupPage.jsx:335 | Only the attachment at that index goes. |
| GroupPage.GroupView.Invite | frontend/src/components/GroupPage.jsx:126-145 | A request is sent exactly when the address matches `\S+@\S+\.\S+`. Then success shows the message, and failure shows the server's error or the generic one. |
| GroupsTeacherPage.RoleIn | frontend/src/components/GroupsTeacherPage.jsx:124-128 | 'admin' exactly for the group's admin, 'teacher' exactly for another member listed as teacher, 'student' otherwise. Never null. |
| GroupsTeacherPage.CompareIsRankOrder | frontend/src/components/GroupsTeacherPage.jsx:131-140 | The comparator is the order of ranks admin 0, teacher 1, other 2. Equal ranks compare as 0. |
| GroupsTeacherPage.InsertByPerm | frontend/src/components/GroupsTeacherPage.jsx:131 | One insertion step adds the element and loses nothing. |
| GroupsTeacherPage.SortByPerm | frontend/src/components/GroupsTeacherPage.jsx:131 | Sorting rearranges: the same elements, as often. |
| GroupsTeacherPage.SortIsByRank | frontend/src/components/GroupsTeacherPage.jsx:131-140 | The sort equals the reference: the elements of rank 0, then 1, then 2, each in original order. |
| GroupsTeacherPage.SortedByRank | frontend/src/components/GroupsTeacherPage.jsx:131-140 | No element ranks below an element before it. |
| GroupsTeacherPage.SortIsStable | frontend/src/components/GroupsTeacherPage.jsx:134 | The elements of each rank keep their relative order. |
| GroupsTeacherPage.SortUnique | frontend/src/components/GroupsTeacherPage.jsx:131-140 | Any rearrangement that is ordered by rank and stable is the sort's result. |
| GroupsTeacherPage.SortedGroups | frontend/src/components/GroupsTeacherPage.jsx:131-140 | A permutation of the groups when they form an array. [] otherwise. |
| GroupsTeacherPage.SortedGroupsOrder | frontend/src/components/GroupsTeacherPage.jsx:131-140 | On the page, admin groups come first, then teacher groups, then the rest, each in server order. |
| GroupsTeacherPage.DeleteOfferedToAdmin | frontend/src/components/GroupsTeacherPage.jsx:421-426 | The delete control shows only on groups the viewer administers, the only groups delete_group accepts. |
| GroupsTeacherPage.WithoutId | frontend/src/components/GroupsTeacherPage.jsx:110 | Keeps exactly the groups with another id. |
| GroupsTeacherPage.GroupsView.constructor | frontend/src/components/GroupsTeacherPage.jsx:11-27 | The initial React state. |
| GroupsTeacherPage.GroupsView.CreateGroup | frontend/src/components/GroupsTeacherPage.jsx:73-84 | The created group goes last. A list that is not an array becomes just that group. A failure sets only the error. |
| GroupsTeacherPage.GroupsView.DeleteGroup | frontend/src/components/GroupsTeacherPage.jsx:106-116 | Without a chosen group nothing is sent. On success exactly the groups with that id go. On failure nothing changes. |
| GroupStudentPage.RoleIn | frontend/src/components/GroupStudentPage.jsx:16-21 | Admin, then teacher, then student precedence. null exactly when the viewer is none of them. |
| GroupStudentPage.AgreesWithTeacherPage | frontend/src/components/GroupStudentPage.jsx:16-21 | Agrees with the teacher page wherever it has a role. Where it has none, the teacher page says 'student'. |
| GroupStudentPage.TeacherEntry | backend/api/serializers.py:92-94 | A teacher other than the admin has a teacher entry in the served list. |
| GroupStudentPage.StudentEntry | backend/api/serializers.py:95-96 | A student has a student entry in the served list. |
| GroupStudentPage.ListedAsTeacherOnServed | frontend/src/components/GroupStudentPage.jsx:18 | On a served card, the viewer is listed as teacher exactly when they are a teacher other than the admin. |
| GroupStudentPage.ListedAsStudentOnServed | frontend/src/components/GroupStudentPage.jsx:19 | On a served card, the viewer is listed as student exactly when they are a student. |
| GroupStudentPage.RoleMatchesServer | frontend/src/components/GroupStudentPage.jsx:16-21 | The role the page derives from the served list is the role get_role gives the same user. It is null exactly for a non-member. |
| GroupStudentPage.MemberCount | frontend/src/components/GroupStudentPage.jsx:114 | The fallback `members_count`, then the length of `members`, then 0. It is 0 exactly when both are falsy. |
| GroupStudentPage.ServedCountShown | frontend/src/components/GroupStudentPage.jsx:114 | A served card has no members_count, so it shows 1 + \|teachers \ {admin}\| + \|students\|. |
| GroupStudentPage.StudentView.constructor | frontend/src/components/GroupStudentPage.jsx:8-11 | The initial React state. |
| GroupStudentPage.StudentView.GroupsLoaded | frontend/src/components/GroupStudentPage.jsx:23-36 | A null body becomes the empty list. A failure keeps the list and sets the error. Loading ends either way. |
| PostPage.Excerpt | frontend/src/components/PostPage.jsx:327 | The text when it has at most 40 characters. Otherwise its first 40 characters and '…'. |
| PostPage.ExcerptWhole | frontend/src/components/PostPage.jsx:327 | The excerpt equals the text exactly when the text is short, or already looks cut. |
| PostPage.Find | frontend/src/components/PostPage.jsx:324 | The first comment with that id. None exactly when there is none. |
| PostPage.ParentLineCases | frontend/src/components/PostPage.jsx:323-331 | A line is shown exactly for a truthy parent. It is the deleted-comment note exactly when the parent is missing. Otherwise it names the first such parent, with its excerpt. |
| PostPage.RoleLabel | frontend/src/components/PostPage.jsx:108-115 | No label exactly for an empty role. 'teacher' reads as 'Преподаватель'. Any other role is shown as it is. |
| PostPage.RoleLabelOfServerRole | frontend/src/components/PostPage.jsx:108-115 | For the roles the server sends, a label shows exactly for teachers and admins, with the server's text. |
| PostPage.DeleteOfferedToAuthor | frontend/src/components/PostPage.jsx:318 | Without the stored role 'admin', the delete control shows exactly on one's own comments. The author always sees it. |
| PostPage.Payload | frontend/src/components/PostPage.jsx:83-84 | The text, plus `parent` exactly when replyTo is truthy. |
| PostPage.EditDeadline | frontend/src/components/PostPage.jsx:129 | At most ten characters, a prefix of the deadline. '' for none. |
| PostPage.EditDeadlineKeepsIsoDate | frontend/src/components/PostPage.jsx:129 | A served ISO date is held unchanged. |
| PostPage.MarkForDeletion | frontend/src/components/PostPage.jsx:138-140 | Appends one copy of the id. |
| PostPage.Unmark | frontend/src/components/PostPage.jsx:142-144 | Every copy of the id goes. The rest stay. |
| PostPage.UndoAfterDelete | frontend/src/components/PostPage.jsx:138-144 | Undo after a delete restores the list. However many times the id was marked, one undo unmarks it. |
| PostPage.Update | frontend/src/components/PostPage.jsx:149-155 | Every field of the update is defined, and carries the form's value. |
| PostPage.MarkedIdsReachServer | frontend/src/components/PostPage.jsx:146-160 | The ids marked for deletion reach the backend as exactly those ids. Nothing is sent when none is marked. |
| PostPage.EditFrom | frontend/src/components/PostPage.jsx:125-132 | The edit fields come from the post, with the deadline cut to ten characters. Both file lists are cleared. Nothing else changes. |
| PostPage.PostView.constructor | frontend/src/components/PostPage.jsx:16-31 | The initial React state. |
| PostPage.PostView.Loaded | frontend/src/components/PostPage.jsx:33-53 | A loaded post is shown. Outside edit mode it is also copied into the edit fields. A failure sets the error. |
| PostPage.PostView.Reply | frontend/src/components/PostPage.jsx:120-123 | replyTo is the comment's id and the field reads "@name, ". The next payload carries that parent. |
| PostPage.PostView.AddComment | frontend/src/components/PostPage.jsx:80-93 | The payload is `Payload`. On success the field and replyTo are cleared and the post reloaded. On failure only the error is set. |
| PostPage.PostView.DeleteComment | frontend/src/components/PostPage.jsx:95-103 | The reloaded post, or the error. |
| PostPage.PostView.Edit | frontend/src/components/PostPage.jsx:125-132 | Edit mode, with the post's fields and empty file lists. |
| PostPage.PostView.CancelEdit | frontend/src/components/PostPage.jsx:134-136 | Only edit mode ends. |
| PostPage.PostView.FileDelete | frontend/src/components/PostPage.jsx:138-140 | Only the to-delete list changes, by `MarkForDeletion`. |
| PostPage.PostView.UndoFileDelete | frontend/src/components/PostPage.jsx:142-144 | Only the to-delete list changes, by `Unmark`. |
| PostPage.PostView.EditSubmit | frontend/src/components/PostPage.jsx:146-160 | The update sent is `Update` of the form. Edit mode ends on success. The error is set on failure. |
| NotificationsBellPage.NewStatus | frontend/src/components/NotificationsBellPage.jsx:53 | 'accepted' exactly for 'accept'. 'declined' for anything else. |
| NotificationsBellPage.ApplyAction | frontend/src/components/NotificationsBellPage.jsx:53 | Only the entries with that id change, and only their status. |
| NotificationsBellPage.ShownStatusIsStored | backend/api/views.py:250-262 | After a successful answer, the status the page shows is the one the server stored. |
| NotificationsBellPage.ApplyActionPending | frontend/src/components/NotificationsBellPage.jsx:53 | Answering takes the pending entries with that id, and only those, off the pending count. |
| NotificationsBellPage.AnsweredHasNoButtons | frontend/src/components/NotificationsBellPage.jsx:95 | An answered invite loses its buttons. The other entries keep theirs. |
| NotificationsBellPage.LoadingKeyInjective | frontend/src/components/NotificationsBellPage.jsx:50 | Two buttons share a loading key only when they are the same button. |
| NotificationsBellPage.OnlyClickedButtonDisabled | frontend/src/components/NotificationsBellPage.jsx:99-104 | While an answer is in flight, exactly the clicked button is disabled. |
| NotificationsBellPage.MainList | frontend/src/components/NotificationsBellPage.jsx:83 | Exactly the notifications that are not reminders. |
| NotificationsBellPage.Reminders | frontend/src/components/NotificationsBellPage.jsx:138 | Exactly the reminders. |
| NotificationsBellPage.ListsPartition | frontend/src/components/NotificationsBellPage.jsx:83-138 | The two lists split the notifications: each lands in exactly one list, as often as it occurs. |
| NotificationsBellPage.ShownReminders | frontend/src/components/NotificationsBellPage.jsx:132 | The reminders section lists the reminders for a student, and nothing for anyone else. |
| NotificationsBellPage.OverdueIsCalendar | frontend/src/components/NotificationsBellPage.jsx:139-141 | For ISO dates, overdue means an earlier calendar day than the current date. |
| NotificationsBellPage.WithoutId | frontend/src/components/NotificationsBellPage.jsx:156 | Keeps exactly the notifications with another id. |
| NotificationsBellPage.WithoutAbsentId | frontend/src/components/NotificationsBellPage.jsx:156 | Removing an absent id leaves the list as it is. |
| NotificationsBellPage.InviterName | frontend/src/components/NotificationsBellPage.jsx:92 | The sender's name when truthy, else 'Админ'. Never empty. |
| NotificationsBellPage.BellPageView.constructor | frontend/src/components/NotificationsBellPage.jsx:8-11 | The initial React state. |
| NotificationsBellPage.BellPageView.Loaded | frontend/src/components/NotificationsBellPage.jsx:16-29 | The list that was loaded, or the error. Loading ends either way. |
| NotificationsBellPage.BellPageView.BeginAction | frontend/src/components/NotificationsBellPage.jsx:50 | Only the loading key changes, to the clicked button's key. |
| NotificationsBellPage.BellPageView.FinishAction | frontend/src/components/NotificationsBellPage.jsx:51-58 | On success the entries with that id take the new status. On failure only the error is set. The key is cleared either way. |
| NotificationsBellPage.BellPageView.RemoveReminder | frontend/src/components/NotificationsBellPage.jsx:151-159 | On success exactly that id leaves the list. On failure nothing changes. |
| HomePage.Unlisted | frontend/src/components/HomePage.jsx:25 | Exactly the indexes below n that are not avoided, each once. |
| HomePage.DropIndexMembers | frontend/src/components/HomePage.jsx:30 | splice(idx, 1) on a list without repetitions removes exactly that element. |
| HomePage.DropIndexNoDup | frontend/src/components/HomePage.jsx:30 | splice keeps the list free of repetitions. |
| HomePage.GetRandomIndexes | frontend/src/components/HomePage.jsx:24-33 | Distinct indexes below 15, none excluded. There are min(count, available) of them, and all of the available ones when count is large enough. |
| HomePage.InitialIndexes | frontend/src/components/HomePage.jsx:38 | The first tiles show four distinct phrases. |
| HomePage.SetAt | frontend/src/components/HomePage.jsx:84 | Only the clicked tile's entry changes. |
| HomePage.CandidatesNotShown | frontend/src/components/HomePage.jsx:76-77 | The candidates of a click are exactly the phrases not on screen, the tile's own included. |
| HomePage.CandidateExists | frontend/src/components/HomePage.jsx:78 | With four tiles on screen, at least eleven phrases remain to choose from. |
| HomePage.ClickKeepsDistinct | frontend/src/components/HomePage.jsx:74-87 | Swapping in a candidate keeps the four tiles distinct. |
| HomePage.Home.constructor | frontend/src/components/HomePage.jsx:38-40 | Four distinct phrases, no fading, no active tile. |
| HomePage.Home.TileClick | frontend/src/components/HomePage.jsx:74-87 | Nothing changes exactly when no candidate exists. Otherwise a phrase not on screen is chosen, the tile becomes active and fades out, and a timer is set. |
| HomePage.Home.TimerFires | frontend/src/components/HomePage.jsx:83-86 | The oldest timer puts its phrase on its tile and fades that tile back in. |
| HomePage.OverlappingClicksRepeat | frontend/src/components/HomePage.jsx:74-87 | Two clicks inside the fade-out time can show one phrase on two tiles. |
| HomePage.SequentialClicksDistinct | frontend/src/components/HomePage.jsx:74-87 | Drawing the second click against the first one's result keeps the tiles distinct. |
| ProfilePage.AsWrittenOnlyWithoutRouteId | frontend/src/components/ProfilePage.jsx:17 | As written, the profile is one's own exactly when the route has no id. |
| ProfilePage.OwnLinkIsForeign | frontend/src/components/ProfilePage.jsx:17 | As written, the user's own `/users/:id` page is not their own profile. As intended, it is. |
| ProfilePage.FetchedId | frontend/src/components/ProfilePage.jsx:36 | The route id, or else the signed-in user's id as text. |
| ProfilePage.OwnExactlyWhenFetchedSelf | frontend/src/components/ProfilePage.jsx:17-36 | The corrected test holds exactly when the page fetches the user's own profile. |
| ProfilePage.OwnRouteExactly | frontend/src/components/ProfilePage.jsx:17 | On `/users/:id` the corrected test holds exactly when the id is one's own. |
| ProfilePage.FromServer | frontend/src/components/ProfilePage.jsx:38-44 | `fullName \|\| name \|\| ""`, `about \|\| ""`, `groups \|\| []`. The e-mail and the role as served. |
| ProfilePage.ServedNameShown | backend/users/serializers.py:66-67 | A profile the server serializes shows get_fullName as the name. |
| ProfilePage.RoleLabel | frontend/src/components/ProfilePage.jsx:8-12 | A known role by its Russian name. Any other value as it is. |
| ProfilePage.ListedGroupLabels | frontend/src/components/ProfilePage.jsx:215 | Every group the server lists on a profile is labelled by name, never by the raw fallback. |
| ProfilePage.SaveError | frontend/src/components/ProfilePage.jsx:102-116 | The generic message without e-mail errors. Otherwise the first e-mail error, with the three duplicate-address messages mapped to one Russian message. |
| ProfilePage.DuplicateShownOnce | frontend/src/components/ProfilePage.jsx:105-110 | A DRF duplicate message and the validate_email message show the same text. |
| ProfilePage.Edited | frontend/src/components/ProfilePage.jsx:119-123 | Only for one's own profile: edit mode, with the current data as the snapshot. |
| ProfilePage.Cancelled | frontend/src/components/ProfilePage.jsx:125-129 | Back to the snapshot, out of edit mode, with no error. |
| ProfilePage.Typed | frontend/src/components/ProfilePage.jsx:196-201 | Only the "about" text changes. |
| ProfilePage.SaveRequest | frontend/src/components/ProfilePage.jsx:88-98 | A request is sent exactly for one's own profile with an e-mail matching the strict pattern. It carries the whole profile. |
| ProfilePage.Saved | frontend/src/components/ProfilePage.jsx:88-117 | Not one's own: no change. A bad e-mail sets only that error. Success leaves edit mode, clears the error and snapshots the data. A refusal sets `SaveError`. |
| ProfilePage.StepsKeepSync | frontend/src/components/ProfilePage.jsx:99-129 | Every handler keeps the shown data equal to the snapshot outside edit mode. |
| ProfilePage.EditCancelRestores | frontend/src/components/ProfilePage.jsx:119-129 | Edit followed by cancel changes nothing except clearing the error. |
| ProfilePage.EditTypeCancel | frontend/src/components/ProfilePage.jsx:119-129 | Whatever was typed in edit mode, cancel brings back the data from before the edit. |
| ProfilePage.SavedEditSurvivesCancel | frontend/src/components/ProfilePage.jsx:99-129 | A saved edit becomes the new snapshot, so cancelling afterwards keeps it. |
| ProfilePage.ProfileView.constructor | frontend/src/components/ProfilePage.jsx:17-30 | Ownership is fixed from the route and the signed-in user by the corrected test. It differs from line 17 as written exactly when the route holds the user's own id. The data starts blank and loading. |
| ProfilePage.ProfileView.Loaded | frontend/src/components/ProfilePage.jsx:32-59 | Both the data and the snapshot become `FromServer` of the response. A failure sets the error. Loading ends either way. |
| ProfilePage.ProfileView.Edit | frontend/src/components/ProfilePage.jsx:119-123 | The state becomes `Edited`. |
| ProfilePage.ProfileView.Cancel | frontend/src/components/ProfilePage.jsx:125-129 | The state becomes `Cancelled`. |
| ProfilePage.ProfileView.TypeAbout | frontend/src/components/ProfilePage.jsx:196-201 | The state becomes `Typed`. |
| ProfilePage.ProfileView.Save | frontend/src/components/ProfilePage.jsx:88-117 | The request sent is `SaveRequest` and the new state is `Saved`. |

## Left out

- add_comment (backend/api/views.py:132-145) and the serialization of the GET handlers are not modelled. my_groups is only the set of groups (`Views.Backend.MyGroups`), not its serialization. The handlers left out are the GET branches of group_posts and group_post_detail, and the profile views in backend/users/views.py. They only query and serialize through the ORM. Their one computed part is the member list, which is modelled in `ApiSerializers`.
- The HTTP layer is not modelled. This covers axios and fetch, JWT issuing and checking, `get_object_or_404` (modelled as a 404 answer), DRF's field validation and password hashing. Every request outcome is a parameter.
- Views.Backend.CreateGroup: whether the serializer accepts the data is a parameter. DRF's field rules are not modelled.
- Views.Backend.CreatePost: whether the serializer accepts the fields is a parameter (`fields: Option`).
- Views.Backend.EditPost: whether the serializer accepts the patch is a parameter (`patch: Option`). The list branch for `file_ids_to_delete` at backend/api/views.py:99-104 is not modelled. `data[k] = v[0]` at lines 89-91 has already made the value a string, so that branch cannot run.
- FileIds.ParseFileIds: `json.loads` is modelled only for integers and arrays of integers; the page only ever sends arrays of integers. For other values the model and the source part ways:
  - A lone JSON `null`, `true`, `false`, float, `NaN` or `Infinity` is not iterable, so the source fails with a server error. The model deletes nothing.
  - A JSON string is iterated character by character in the source, so `"12"` deletes files 1 and 2. A JSON object is iterated over its keys, so `{"7": 0}` deletes file 7. The model deletes nothing for either.
  - An array holding anything but integers is kept in the source. Its integer items count, and so do strings of ASCII digits, so `["7"]` deletes file 7. Other items are dropped. The model deletes nothing for any such array.
  - The `int()` fallback is modelled for an optional sign and ASCII digits only. Python's `int()` also strips surrounding white space (so `"+5 "` deletes file 5), accepts `_` between digits and reads non-ASCII decimal digits. The model deletes nothing for such text.
- UserSerializers.NewUser: `normalize_email` and password hashing are not modelled.
- Cross-tab synchronisation is not modelled. The `storage` and `notifCountUpdate` events are represented by a count of dispatched events (`Badge.Bell.events`) and by the `Reload` operation a listener runs. Which page receives an event is not represented.
- Badge.ReadStored: `Number()` is modelled only for the empty string and plain decimal digits. Texts that JavaScript also reads as numbers (surrounding white space, a sign, a fraction, an exponent, hexadecimal) read as not-a-number in the model. The pages write only decimal digits.
- HomePage.GetRandomIndexes: `Math.random` is an arbitrary choice (`:|`), not a uniform one. Timer delays are modelled only as the order in which timers fire (`Home.scheduled`).
- Lengths and `slice` count Unicode characters in the model. JavaScript counts UTF-16 code units, so `PostPage.Excerpt` can differ for characters outside the Basic Multilingual Plane. For the same reason `Common.LexLess` compares code points, while JavaScript's `<` compares UTF-16 code units. The two orders differ only for characters outside the Basic Multilingual Plane, and never on ISO dates.
- The regular expressions are modelled as the two specific predicates of `EmailPatterns`, not as a regex engine. `\s` is JavaScript's white-space set.
- ProfilePage.ProfileView.constructor: the page class uses the corrected ownership test (`IsOwnProfile`), not the one at frontend/src/components/ProfilePage.jsx:17 as written. On the user's own `/users/:id` route the class therefore allows `Edit` and `Save`, while the page as written hides the edit controls and returns early from both handlers. The as-written test and that divergence are stated by `ProfilePage.AsWrittenOnlyWithoutRouteId` and `ProfilePage.OwnLinkIsForeign` (see "## Findings").
- ProfilePage.RoleLabel: inherited object keys such as "constructor" are not modelled. In JavaScript these would make `ROLE_LABELS[role]` truthy.
- GroupsTeacherPage's sidebar, invite and post dialogs are not modelled. They depend on `selectedGroup`, which nothing sets, and on the hard-coded `currentUserId = 1` (frontend/src/components/GroupsTeacherPage.jsx:8). Its `handleCreatePost` (lines 86-103) is left out for the same reason.
- Views.Backend.GetNotifications: rows with the same `created_at` may come in any order. The database's order among such rows is not modelled.
- GroupPage's `handleExclude`, `handleLeave` and `refreshGroup` are not modelled. They only call the server and reload, and the server side is modelled by `Views.Backend.ExcludeMember` and `Views.Backend.LeaveGroup`. The ordering of posts by `created_at` at frontend/src/components/GroupPage.jsx:368 is also not modelled.
- The bell click of GroupStudentPage only navigates, so no operation models it. Navigation, logout and routing (frontend/src/App.js) are UI.
- PostPage offers comment deletion on the stored global role 'admin' (frontend/src/components/PostPage.jsx:22). The backend allows the group's admin. This is a gate in the interface only, and `Views.Backend.DeleteComment` states the server's rule.
- Dates are whole days and seconds in the backend. Time zones are not modelled.

## Findings

| source | as written | input that shows it | evidently intended | confidence | as-written member | corrected member |
|---|---|---|---|---|---|---|
| frontend/src/components/ProfilePage.jsx:17 | `userId === currentUser?.id` compares the route's string with a numeric id, so it is never true | user 5 opens `/users/5`: the page is not their own and the edit controls are hidden | the profile is one's own when the route id is the user's id | high (not executed) | ProfilePage.OwnLinkIsForeign | ProfilePage.OwnRouteExactly |
| frontend/src/components/HomePage.jsx:74-87 | a click draws its phrase from the screen as it was before any pending fade-out timer fires | tiles [0, 1, 2, 3]: click tile 0 and then tile 1 within 250 ms, both draws take phrase 4, and the tiles become [4, 4, 2, 3] | the four tiles always show distinct phrases | medium (not executed) | HomePage.OverlappingClicksRepeat | HomePage.SequentialClicksDistinct |
