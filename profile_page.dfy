// frontend/src/components/ProfilePage.jsx: a user's profile. The owner can
// switch to edit mode, change the "about" text, and save or cancel; saving
// first checks the e-mail against the strict pattern and then maps the
// server's e-mail errors to one message. The bell click is
// Badge.Bell.ClearAndStore(dispatch := false).

module ProfilePage {
  import opened Common
  import opened Models
  import EmailPatterns
  import BackendState
  import UserSerializers

  // ---------------------------------------------------------------------
  // Whose profile is shown.

  /** A JavaScript value as far as `===` between a route parameter and a user id needs it. */
  datatype JsValue = JsString(s: string) | JsNumber(n: nat) | JsUndefined

  /** `===`: values of different types are never equal. */
  predicate StrictEquals(a: JsValue, b: JsValue)
  {
    match (a, b)
    case (JsString(x), JsString(y)) => x == y
    case (JsNumber(x), JsNumber(y)) => x == y
    case (JsUndefined, JsUndefined) => true
    case _ => false
  }

  /** `!userId`: the route has no `:userId`, or an empty one. */
  predicate NoRouteId(userId: Option<string>)
  {
    userId.None? || userId.value == []
  }

  /**
   * `!userId || userId === currentUser?.id`, as written: the route
   * parameter is a string and the stored user's id a number.
   */
  predicate IsOwnProfileAsWritten(userId: Option<string>, currentId: Option<nat>)
  {
    NoRouteId(userId)
    || StrictEquals(JsString(userId.value), if currentId.Some? then JsNumber(currentId.value) else JsUndefined)
  }

  /** As written, a route id never makes the profile one's own: the comparison is dead. */
  lemma AsWrittenOnlyWithoutRouteId(userId: Option<string>, currentId: Option<nat>)
    ensures IsOwnProfileAsWritten(userId, currentId) <==> NoRouteId(userId)
  {
  }

  /**
   * A user who opens /users/<own id> (user 7 on /users/7, say) cannot
   * edit: as written the page treats the profile as somebody else's,
   * where the intended test finds it their own.
   */
  lemma OwnLinkIsForeign(id: nat)
    ensures !IsOwnProfileAsWritten(Some(NatToString(id)), Some(id))
    ensures IsOwnProfile(Some(NatToString(id)), Some(id))
  {
  }

  /** The intended test: compare the route id with the id's decimal text. */
  predicate IsOwnProfile(userId: Option<string>, currentId: Option<nat>)
  {
    NoRouteId(userId) || (currentId.Some? && userId.value == NatToString(currentId.value))
  }

  /** The id whose profile the page fetches: `userId || currentUser?.id`. */
  function FetchedId(userId: Option<string>, currentId: Option<nat>): (r: Option<string>)
    ensures NoRouteId(userId) ==> r == if currentId.Some? then Some(NatToString(currentId.value)) else None
    ensures !NoRouteId(userId) ==> r == userId
  {
    if !NoRouteId(userId) then userId
    else if currentId.Some? then Some(NatToString(currentId.value))
    else None
  }

  /**
   * Corrected, a signed-in user may edit exactly the profile the page
   * fetched for their own id, whichever route led there.
   */
  lemma OwnExactlyWhenFetchedSelf(userId: Option<string>, current: nat)
    ensures IsOwnProfile(userId, Some(current)) <==> FetchedId(userId, Some(current)) == Some(NatToString(current))
  {
  }

  /** On /users/:id the page is one's own exactly when the id is one's own. */
  lemma OwnRouteExactly(routeId: nat, current: nat)
    ensures IsOwnProfile(Some(NatToString(routeId)), Some(current)) <==> routeId == current
  {
    if NatToString(routeId) == NatToString(current) {
      NatToStringInjective(routeId, current);
    }
  }

  // ---------------------------------------------------------------------
  // The profile data.

  /** A group of the profile: UserGroupSerializer's id, name and role (null when none). */
  datatype GroupEntry = GroupEntry(id: nat, name: string, role: Option<string>)

  /** `profileData`. */
  datatype ProfileData = ProfileData(fullName: string, email: string, about: string, role: string, groups: seq<GroupEntry>)

  /** The initial `profileData`: every field empty. */
  const Blank := ProfileData("", "", "", "", [])

  /** The body of the profile response; a missing key is None. */
  datatype Served = Served(
    fullName: Option<string>, name: Option<string>, email: string,
    about: Option<string>, role: string, groups: Option<seq<GroupEntry>>)

  predicate Truthy(s: Option<string>)
  {
    s.Some? && s.value != []
  }

  /** fetchProfile: `fullName || name || ""`, `about || ""`, `groups || []`. */
  function FromServer(d: Served): (r: ProfileData)
    ensures r.email == d.email && r.role == d.role
    ensures Truthy(d.fullName) ==> r.fullName == d.fullName.value
    ensures !Truthy(d.fullName) && Truthy(d.name) ==> r.fullName == d.name.value
    ensures r.fullName == [] <==> !Truthy(d.fullName) && !Truthy(d.name)
    ensures r.about == if d.about.Some? then d.about.value else []
    ensures r.groups == if d.groups.Some? then d.groups.value else []
  {
    ProfileData(
      if Truthy(d.fullName) then d.fullName.value else if Truthy(d.name) then d.name.value else "",
      d.email,
      if d.about.Some? then d.about.value else "",
      d.role,
      if d.groups.Some? then d.groups.value else [])
  }

  /**
   * UserSerializer always sends get_fullName, which holds at least the two
   * separating spaces: the page shows it, never the `name` fallback.
   */
  lemma ServedNameShown(u: User, about: string, groups: seq<GroupEntry>)
    ensures FromServer(Served(Some(UserSerializers.FullName(u)), None, u.email, Some(about), u.role, Some(groups)))
      == ProfileData(UserSerializers.FullName(u), u.email, about, u.role, groups)
  {
  }

  // ---------------------------------------------------------------------
  // Role labels.

  const StudentLabel := "Студент"
  const TeacherLabel := "Преподаватель"
  const AdminLabel := "Администратор"

  /** `ROLE_LABELS[role] || role`: a known role by its name, anything else as it is. */
  function RoleLabel(role: Option<string>): (r: Option<string>)
    ensures role == Some("student") ==> r == Some(StudentLabel)
    ensures role == Some("teacher") ==> r == Some(TeacherLabel)
    ensures role == Some("admin") ==> r == Some(AdminLabel)
    ensures role !in {Some("student"), Some("teacher"), Some("admin")} ==> r == role
  {
    if role == Some("student") then Some(StudentLabel)
    else if role == Some("teacher") then Some(TeacherLabel)
    else if role == Some("admin") then Some(AdminLabel)
    else role
  }

  /** Every group the server lists on a profile is labelled by name, never by the raw fallback. */
  lemma ListedGroupLabels(groups: map<nat, Group>, u: nat, g: nat)
    requires g in BackendState.GroupsOf(groups, u)
    ensures RoleLabel(UserSerializers.GetRole(groups[g], u)) in {Some(StudentLabel), Some(TeacherLabel), Some(AdminLabel)}
  {
    UserSerializers.ListedGroupsHaveRoles(groups, u);
  }

  // ---------------------------------------------------------------------
  // Save errors.

  const BadEmail := "Некорректный email"
  const SaveFailed := "Ошибка при сохранении профиля"
  const LoadFailed := "Ошибка загрузки профиля"
  const EmailExists := "Пользователь с таким email уже существует"

  /** The English duplicate-address messages Django and DRF produce. */
  predicate IsDuplicateMessage(m: string)
  {
    || m == "This field must be unique."
    || m == "user with this email already exists."
    || m == "A user with that email already exists."
  }

  /**
   * The catch branch of handleSave: without e-mail errors the generic
   * message; otherwise the first e-mail error, a duplicate one translated.
   * An empty error list reads `email[0]`, undefined, and shows nothing.
   */
  function SaveError(emailErrors: Option<seq<string>>): (r: Option<string>)
    ensures emailErrors.None? ==> r == Some(SaveFailed)
    ensures emailErrors == Some([]) ==> r.None?
    ensures emailErrors.Some? && emailErrors.value != [] ==>
      r.Some? && (IsDuplicateMessage(emailErrors.value[0]) ==> r.value == EmailExists)
      && (!IsDuplicateMessage(emailErrors.value[0]) ==> r.value == emailErrors.value[0])
  {
    if emailErrors.None? then Some(SaveFailed)
    else if emailErrors.value == [] then None
    else if IsDuplicateMessage(emailErrors.value[0]) then Some(EmailExists)
    else Some(emailErrors.value[0])
  }

  /**
   * A duplicate address shows one message whether it was refused by the
   * model's unique constraint or by UserSerializer.validate_email.
   */
  lemma DuplicateShownOnce(users: map<nat, User>, self: nat, value: string, m: string)
    requires IsDuplicateMessage(m)
    requires UserSerializers.ValidateEmail(users, self, value).Invalid?
    ensures SaveError(Some([m])) == SaveError(Some([UserSerializers.ValidateEmail(users, self, value).message])) == Some(EmailExists)
  {
  }

  // ---------------------------------------------------------------------
  // The edit state machine.

  /** `profileData`, `originalProfile`, `isEditing`, `error` and `loading`. */
  datatype ProfileState = ProfileState(
    data: ProfileData, original: ProfileData, isEditing: bool, error: Option<string>, loading: bool)

  /** Outside edit mode the shown data is the snapshot a cancel would restore. */
  predicate InSync(s: ProfileState)
  {
    !s.isEditing ==> s.data == s.original
  }

  /** What the update request returned: stored, or refused with the e-mail errors of its body. */
  datatype SaveOutcome = Stored | Refused(emailErrors: Option<seq<string>>)

  /** handleEdit. */
  function Edited(s: ProfileState, own: bool): (r: ProfileState)
    ensures !own ==> r == s
    ensures own ==> r.isEditing && r.original == s.data && r.data == s.data
    ensures r.error == s.error && r.loading == s.loading
  {
    if own then s.(isEditing := true, original := s.data) else s
  }

  /** handleCancel: back to the snapshot, with no error. */
  function Cancelled(s: ProfileState): (r: ProfileState)
    ensures !r.isEditing && r.error.None? && InSync(r)
    ensures r.data == s.original && r.original == s.original && r.loading == s.loading
  {
    s.(isEditing := false, data := s.original, error := None)
  }

  /** The textarea's onChange: only the "about" text changes. */
  function Typed(s: ProfileState, text: string): (r: ProfileState)
    ensures r.data.about == text
    ensures r.data == s.data.(about := text)
    ensures r.original == s.original && r.isEditing == s.isEditing && r.error == s.error
  {
    s.(data := s.data.(about := text))
  }

  /** The request handleSave sends, if any: the whole profile, for an own profile with a well-formed e-mail. */
  function SaveRequest(s: ProfileState, own: bool): (r: Option<ProfileData>)
    ensures r.Some? <==> own && EmailPatterns.StrictEmail(s.data.email)
    ensures r.Some? ==> r.value == s.data
  {
    if own && EmailPatterns.StrictEmail(s.data.email) then Some(s.data) else None
  }

  /** handleSave's effect on the state. */
  function Saved(s: ProfileState, own: bool, outcome: SaveOutcome): (r: ProfileState)
    ensures !own ==> r == s
    ensures own && !EmailPatterns.StrictEmail(s.data.email) ==> r == s.(error := Some(BadEmail))
    ensures SaveRequest(s, own).Some? && outcome.Stored? ==>
      !r.isEditing && r.error.None? && r.original == s.data && r.data == s.data && r.loading == s.loading
    ensures SaveRequest(s, own).Some? && outcome.Refused? ==> r == s.(error := SaveError(outcome.emailErrors))
  {
    if !own then s
    else if !EmailPatterns.StrictEmail(s.data.email) then s.(error := Some(BadEmail))
    else if outcome.Stored? then s.(isEditing := false, error := None, original := s.data)
    else s.(error := SaveError(outcome.emailErrors))
  }

  /** Every handler keeps the shown data and the snapshot together outside edit mode. */
  lemma StepsKeepSync(s: ProfileState, own: bool, text: string, outcome: SaveOutcome)
    requires InSync(s)
    ensures InSync(Edited(s, own)) && InSync(Cancelled(s)) && InSync(Saved(s, own, outcome))
    ensures s.isEditing ==> InSync(Typed(s, text))
  {
  }

  /** Edit followed by cancel changes nothing but the error, which it clears. */
  lemma EditCancelRestores(s: ProfileState, own: bool)
    requires InSync(s) && !s.isEditing
    ensures Cancelled(Edited(s, own)) == s.(error := None)
  {
  }

  /** The "about" text after a run of keystrokes. */
  function TypedAll(s: ProfileState, texts: seq<string>): (r: ProfileState)
    ensures r.original == s.original && r.isEditing == s.isEditing
    ensures texts == [] ==> r == s
    ensures texts != [] ==> r.data.about == texts[|texts| - 1]
  {
    if texts == [] then s else Typed(TypedAll(s, texts[..|texts| - 1]), texts[|texts| - 1])
  }

  /** Whatever was typed in edit mode, cancel brings back the data from before the edit. */
  lemma EditTypeCancel(s: ProfileState, own: bool, texts: seq<string>)
    requires InSync(s) && !s.isEditing
    ensures Cancelled(TypedAll(Edited(s, own), texts)).data == s.data
  {
  }

  /** A saved edit becomes the new snapshot: cancelling afterwards keeps it. */
  lemma SavedEditSurvivesCancel(s: ProfileState, own: bool, texts: seq<string>)
    requires InSync(s) && !s.isEditing && own
    requires SaveRequest(TypedAll(Edited(s, own), texts), own).Some?
    ensures Cancelled(Saved(TypedAll(Edited(s, own), texts), own, Stored)).data == TypedAll(Edited(s, own), texts).data
  {
  }

  class ProfileView {
    var st: ProfileState
    /**
     * isOwnProfile, fixed by the route and the signed-in user. The page holds
     * the corrected test; it differs from the test as written exactly on the
     * user's own /users/:id route.
     */
    const own: bool

    constructor (userId: Option<string>, currentId: Option<nat>)
      ensures own == IsOwnProfile(userId, currentId)
      ensures own != IsOwnProfileAsWritten(userId, currentId) <==>
        !NoRouteId(userId) && currentId.Some? && userId.value == NatToString(currentId.value)
      ensures st == ProfileState(Blank, Blank, false, None, true) && InSync(st)
    {
      AsWrittenOnlyWithoutRouteId(userId, currentId);
      own := IsOwnProfile(userId, currentId);
      st := ProfileState(Blank, Blank, false, None, true);
    }

    /** fetchProfile: `resp` is None when the request throws. Loading ends either way. */
    method Loaded(resp: Option<Served>)
      requires InSync(st)
      modifies this
      ensures InSync(st) && !st.loading && st.isEditing == old(st).isEditing
      ensures resp.Some? ==> st.data == FromServer(resp.value) && st.original == st.data && st.error == old(st).error
      ensures resp.None? ==> st == old(st).(error := Some(LoadFailed), loading := false)
    {
      st := st.(loading := true);
      if resp.Some? {
        var p := FromServer(resp.value);
        st := st.(data := p, original := p);
      } else {
        st := st.(error := Some(LoadFailed));
      }
      st := st.(loading := false);
    }

    method Edit()
      modifies this
      ensures st == Edited(old(st), own)
    {
      if !own {
        return;
      }
      st := st.(isEditing := true, original := st.data);
    }

    method Cancel()
      modifies this
      ensures st == Cancelled(old(st))
    {
      st := st.(isEditing := false, data := st.original, error := None);
    }

    /** Only rendered for the owner in edit mode. */
    method TypeAbout(text: string)
      requires own && st.isEditing
      modifies this
      ensures st == Typed(old(st), text)
    {
      st := st.(data := st.data.(about := text));
    }

    /** handleSave: `outcome` is what the update request returns, when one is sent. */
    method Save(outcome: SaveOutcome) returns (request: Option<ProfileData>)
      modifies this
      ensures request == SaveRequest(old(st), own)
      ensures st == Saved(old(st), own, outcome)
    {
      request := None;
      if !own {
        return;
      }
      if !EmailPatterns.StrictEmail(st.data.email) {
        st := st.(error := Some(BadEmail));
        return;
      }
      request := Some(st.data);
      match outcome {
        case Stored =>
          st := st.(isEditing := false, error := None, original := st.data);
        case Refused(errs) =>
          st := st.(error := SaveError(errs));
      }
    }
  }
}
