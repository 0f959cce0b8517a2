// backend/users/serializers.py: registration checks and user creation,
// a user's role in a group, the full name and the e-mail uniqueness check
// of the profile update.

module UserSerializers {
  import opened Common
  import opened Models
  import opened BackendState
  import Dates

  // ---------------------------------------------------------------------
  // RegisterSerializer.

  /** A serializer's answer: the accepted value or the validation message. */
  datatype Verdict<T> = Valid(value: T) | Invalid(message: string)

  const PasswordsDiffer := "Пароли не совпадают"
  const RoleRequired := "Роль пользователя обязательна"

  /**
   * validate: the two passwords must agree, then a role must be given and
   * be non-empty; the data is passed on unchanged.
   */
  function Validate(data: map<string, string>): (r: Verdict<map<string, string>>)
    requires "password" in data && "password2" in data
    ensures r.Valid? <==> data["password"] == data["password2"] && "role" in data && data["role"] != ""
    ensures r.Valid? ==> r.value == data
    ensures data["password"] != data["password2"] ==> r == Invalid(PasswordsDiffer)
    ensures data["password"] == data["password2"] && !("role" in data && data["role"] != "") ==> r == Invalid(RoleRequired)
  {
    if data["password"] != data["password2"] then Invalid(PasswordsDiffer)
    else if !("role" in data) || data["role"] == "" then Invalid(RoleRequired)
    else Valid(data)
  }

  /** `data.get(key)` with the empty string for an absent key (the model fields default to ''). */
  function Field(data: map<string, string>, key: string): string
  {
    if key in data then data[key] else ""
  }

  /**
   * CustomUserManager.create_user(**kwargs): an empty e-mail is refused;
   * otherwise a user row with the given names, e-mail and role, active by
   * AbstractUser's default. The password is stored hashed and is not
   * modelled.
   */
  function NewUser(kwargs: map<string, string>): (r: Option<User>)
    ensures r.Some? <==> Field(kwargs, "email") != ""
    ensures r.Some? ==> r.value.active
    ensures r.Some? ==> r.value == User(Field(kwargs, "first_name"), Field(kwargs, "middle_name"),
                                        Field(kwargs, "last_name"), kwargs["email"], Field(kwargs, "role"), true)
  {
    if Field(kwargs, "email") == "" then None
    else Some(User(Field(kwargs, "first_name"), Field(kwargs, "middle_name"), Field(kwargs, "last_name"),
                   kwargs["email"], Field(kwargs, "role"), true))
  }

  /**
   * create: 'password2' is popped from the validated data, the user is
   * created from the rest and then marked active (again: the row already is).
   */
  method Create(data: map<string, string>) returns (user: Option<User>, kwargs: map<string, string>)
    requires "password2" in data
    ensures kwargs == data - {"password2"} && "password2" !in kwargs
    ensures user.Some? <==> NewUser(kwargs).Some?
    ensures user.Some? ==> user.value == NewUser(kwargs).value.(active := true)
  {
    kwargs := data;
    kwargs := kwargs - {"password2"};
    var created := NewUser(kwargs);
    if created.None? {
      return None, kwargs;
    }
    var u := created.value;
    u := u.(active := true);
    user := Some(u);
  }

  /**
   * A registration that passes validate and has an e-mail yields an active
   * user holding the e-mail and the non-empty role that was sent.
   */
  lemma RegisteredUserActive(data: map<string, string>)
    requires "password" in data && "password2" in data
    requires Validate(data).Valid? && Field(data, "email") != ""
    ensures var kwargs := data - {"password2"};
      && NewUser(kwargs).Some?
      && NewUser(kwargs).value.active
      && NewUser(kwargs).value.email == data["email"]
      && NewUser(kwargs).value.role == data["role"] && data["role"] != ""
  {
    var kwargs := data - {"password2"};
    assert Field(kwargs, "email") == Field(data, "email");
    assert Field(kwargs, "role") == data["role"];
  }

  // ---------------------------------------------------------------------
  // UserGroupSerializer.get_role.

  /** The user's role in the group: admin before teacher before student; null for a non-member. */
  function GetRole(grp: Group, u: nat): (r: Option<string>)
    ensures r.Some? <==> InGroup(grp, u)
    ensures r == Some("admin") <==> grp.admin == u
    ensures r == Some("teacher") <==> grp.admin != u && u in grp.teachers
    ensures r == Some("student") <==> grp.admin != u && u !in grp.teachers && u in grp.students
  {
    if grp.admin == u then Some("admin")
    else if u in grp.teachers then Some("teacher")
    else if u in grp.students then Some("student")
    else None
  }

  /**
   * get_groups lists the groups of the user's profile through
   * UserGroupSerializer: every listed group has a role, and a group with a
   * role is listed.
   */
  lemma ListedGroupsHaveRoles(groups: map<nat, Group>, u: nat)
    ensures forall g :: g in GroupsOf(groups, u) <==> g in groups && GetRole(groups[g], u).Some?
  {
  }

  // ---------------------------------------------------------------------
  // UserSerializer.

  /** get_fullName: last, first and middle name separated by single spaces. */
  function FullName(u: User): (r: string)
    ensures |r| == |u.lastName| + |u.firstName| + |u.middleName| + 2
  {
    u.lastName + " " + u.firstName + " " + u.middleName
  }

  /** When no name holds a space, splitting the full name at spaces gives the three names back. */
  lemma FullNameSplits(u: User)
    requires ' ' !in u.lastName && ' ' !in u.firstName && ' ' !in u.middleName
    ensures Dates.Split(FullName(u), ' ') == [u.lastName, u.firstName, u.middleName]
  {
    var rest := u.firstName + " " + u.middleName;
    assert FullName(u) == u.lastName + [' '] + rest;
    Dates.SplitAtFirst(u.lastName, rest, ' ');
    assert rest == u.firstName + [' '] + u.middleName;
    Dates.SplitAtFirst(u.firstName, u.middleName, ' ');
    Dates.SplitFree(u.middleName, ' ');
  }

  const EmailTaken := "Пользователь с таким email уже существует"

  /** validate_email: refused exactly when another user already has the address. */
  function ValidateEmail(users: map<nat, User>, self: nat, value: string): (r: Verdict<string>)
    ensures r.Invalid? <==> exists k :: k in users && k != self && users[k].email == value
    ensures r.Invalid? ==> r.message == EmailTaken
    ensures r.Valid? ==> r.value == value
  {
    if exists k :: k in users && k != self && users[k].email == value then Invalid(EmailTaken) else Valid(value)
  }

  /** A user may keep their own address. */
  lemma OwnEmailValid(users: map<nat, User>, self: nat)
    requires EmailsUnique(users) && self in users
    ensures ValidateEmail(users, self, users[self].email).Valid?
  {
  }

  /** An accepted address keeps e-mails unique once the user's row is updated. */
  lemma AcceptedEmailKeepsUnique(users: map<nat, User>, self: nat, value: string)
    requires EmailsUnique(users) && self in users
    requires ValidateEmail(users, self, value).Valid?
    ensures EmailsUnique(users[self := users[self].(email := value)])
  {
    var r := users[self := users[self].(email := value)];
    forall a, b | a in r && b in r && a != self && b != self && r[a].email == r[b].email ensures a == b {
      assert users[a].email == users[b].email;
    }
  }
}
