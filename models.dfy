// backend/api/models.py and backend/users/models.py: the rows the handlers
// read and write. A row's primary key is the key it is stored under in its
// table (a map from id to row). Dates are day numbers (days since
// 1970-01-01) and timestamps are seconds since the same instant.

module Models {
  import opened Common

  /** CustomUser: the fields the handlers and serializers look at. */
  datatype User = User(
    firstName: string, middleName: string, lastName: string,
    email: string, role: string, active: bool)

  /** A group: one admin and two member sets (ManyToMany fields). */
  datatype Group = Group(name: string, admin: nat, teachers: set<nat>, students: set<nat>)

  /** A post of a group; the deadline is an optional day number. */
  datatype Post = Post(group: nat, author: nat, title: string, content: string, deadline: Option<int>)

  /** A comment on a post, possibly a reply to another comment. */
  datatype Comment = Comment(post: nat, author: nat, text: string, parent: Option<nat>)

  /** An uploaded file attached to a post. */
  datatype PostFile = PostFile(post: nat, name: string)

  datatype NotifType = Invite | Exclude | Reminder

  datatype Status = Pending | Accepted | Declined | Viewed

  /** A notification row; `created` is the created_at timestamp in seconds. */
  datatype Notif = Notif(
    kind: NotifType, toUser: nat, fromUser: Option<nat>, group: Option<nat>,
    post: Option<nat>, deadline: Option<int>, status: Status, created: int)

  /** The strings the API uses for the two choice fields. */
  function KindText(k: NotifType): string
  {
    match k
    case Invite => "invite"
    case Exclude => "exclude"
    case Reminder => "reminder"
  }

  function StatusText(s: Status): string
  {
    match s
    case Pending => "pending"
    case Accepted => "accepted"
    case Declined => "declined"
    case Viewed => "viewed"
  }

  const SecondsPerDay := 86400
}
