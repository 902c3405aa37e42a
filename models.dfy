/**
 * The `User` record and its manager: the defaults and preconditions of
 * `create_user` and `create_superuser`, the field-level mutators, and the
 * user table as a map from id to record.
 */
module Users {
  import opened Wrappers
  import opened Text

  type UserId = nat
  /** Timestamps are opaque values that only ever move forward. */
  type Time = nat

  /** The two choices of the `role` column; `Regular` is stored as 'user'. */
  datatype Role = Admin | Regular
  /** The two choices of the `status` column. */
  datatype Status = Active | Inactive

  function RoleName(r: Role): string {
    match r
    case Admin => "admin"
    case Regular => "user"
  }

  function StatusName(s: Status): string {
    match s
    case Active => "active"
    case Inactive => "inactive"
  }

  /**
   * The stored password. `Hashed(p)` stands for the salted hash of `p`:
   * hashing is not modelled, only that a hash accepts exactly its password.
   * `Unusable` is what `set_password(None)` stores.
   */
  datatype Credential = Unusable | Hashed(secret: string)

  datatype User = User(
    id: UserId,
    email: string,
    fullName: string,
    role: Role,
    status: Status,
    createdAt: Time,
    updatedAt: Time,
    lastLogin: Option<Time>,
    isStaff: bool,
    isSuperuser: bool,
    isActive: bool,
    password: Credential)

  /** `check_password`: does the stored hash accept `raw`? */
  function CheckPassword(u: User, raw: string): (b: bool)
    ensures u.password.Unusable? ==> !b
    ensures u.password.Hashed? ==> (b <==> raw == u.password.secret)
  {
    u.password == Hashed(raw)
  }

  /** `User.is_admin`. */
  function IsAdmin(u: User): (b: bool)
    ensures b <==> RoleName(u.role) == "admin"
  {
    u.role == Admin
  }

  /** The record after `activate()`: status and `updated_at` are written. */
  function Activated(u: User, now: Time): (r: User)
    ensures r.status == Active && r.updatedAt == now
  {
    u.(status := Active, updatedAt := now)
  }

  /** The record after `deactivate()`. */
  function Deactivated(u: User, now: Time): (r: User)
    ensures r.status == Inactive && r.updatedAt == now
  {
    u.(status := Inactive, updatedAt := now)
  }

  /** The record after `update_last_login()`. */
  function LoggedIn(u: User, now: Time): (r: User)
    ensures r.lastLogin == Some(now)
  {
    u.(lastLogin := Some(now))
  }

  /** Activation and deactivation touch nothing but `status` and `updated_at`. */
  lemma StatusMutatorsFrame(u: User, now: Time)
    ensures Activated(u, now).(status := u.status, updatedAt := u.updatedAt) == u
    ensures Deactivated(u, now).(status := u.status, updatedAt := u.updatedAt) == u
    ensures Activated(u, now).email == u.email && Deactivated(u, now).email == u.email
  {
  }

  /** Applying either mutator twice gives the state of applying it once. */
  lemma StatusMutatorsIdempotent(u: User, t1: Time, t2: Time)
    ensures Activated(Activated(u, t1), t2) == Activated(u, t2)
    ensures Deactivated(Deactivated(u, t1), t2) == Deactivated(u, t2)
    ensures Activated(Deactivated(u, t1), t2) == Activated(u, t2)
    ensures Deactivated(Activated(u, t1), t2) == Deactivated(u, t2)
  {
  }

  /** `update_last_login` touches nothing but `last_login`. */
  lemma LoggedInFrame(u: User, now: Time)
    ensures LoggedIn(u, now).(lastLogin := u.lastLogin) == u
  {
  }

  /**
   * `get_short_name` as written: `full_name.split()[0]` when `full_name` is
   * non-empty. A name made only of whitespace splits into no words, and
   * indexing the empty list raises `IndexError` (the `Failure` case).
   */
  function ShortNameAsWritten(u: User): (r: Result<string, string>)
    ensures r.Failure? <==> u.fullName != [] && AllSpace(u.fullName)
  {
    if u.fullName != [] then
      var ws := Words(u.fullName);
      if ws == [] then Failure("IndexError: list index out of range") else Success(ws[0])
    else Success(u.email)
  }

  /**
   * The short name as evidently intended: the first word of the full name,
   * falling back to the email when the name has no words.
   */
  function ShortName(u: User): (r: string)
    ensures AllSpace(u.fullName) ==> r == u.email
    ensures !AllSpace(u.fullName) ==>
      r != [] && StartsWithWord(u.fullName, r) && forall k :: 0 <= k < |r| ==> !IsSpace(r[k])
  {
    var ws := Words(u.fullName);
    if ws == [] then u.email
    else ws[0]
  }

  /** The two agree on every record whose name is empty or has a word. */
  lemma ShortNameAgrees(u: User)
    requires u.fullName == [] || !AllSpace(u.fullName)
    ensures ShortNameAsWritten(u) == Success(ShortName(u))
  {
  }

  /** A name of one space makes the code as written raise. */
  lemma ShortNameBlankRaises(u: User)
    requires u.fullName == " "
    ensures ShortNameAsWritten(u).Failure?
    ensures ShortName(u) == u.email
  {
    assert AllSpace(u.fullName);
  }

  /** The keyword arguments `create_user` accepts beside email and password. */
  datatype ExtraFields = ExtraFields(
    fullName: Option<string>,
    role: Option<Role>,
    status: Option<Status>,
    isStaff: Option<bool>,
    isSuperuser: Option<bool>)

  /**
   * `normalize_email` of Django's base user manager: strip, split at the last
   * '@' and lower-case the domain; an address without '@' is left as it is.
   */
  function NormalizeEmail(email: string): (r: string)
    ensures '@' !in Strip(email) ==> r == email
    ensures '@' in Strip(email) ==> |r| == |Strip(email)|
    ensures '@' in Strip(email) ==>
      var s := Strip(email);
      exists k :: 0 <= k < |s| && s[k] == '@' && '@' !in s[k + 1..] && r == s[..k] + "@" + Lower(s[k + 1..])
  {
    var s := Strip(email);
    match LastIndexOf(s, '@')
    case None => email
    case Some(k) =>
      assert '@' !in s[k + 1..] by {
        var rest := s[k + 1..];
        forall j | 0 <= j < |rest| ensures rest[j] != '@' {
          assert rest[j] == s[k + 1 + j];
        }
      }
      s[..k] + "@" + Lower(s[k + 1..])
  }

  /** Lower-case email without surrounding whitespace normalises to itself. */
  lemma NormalizeLowerEmail(e: string)
    requires Lower(e) == e && Strip(e) == e
    ensures NormalizeEmail(e) == e
  {
    if '@' in e {
      var k := NormalizeSplit(e);
      LowerSuffix(e, k + 1);
      LowerDomain(e, k);
    }
  }

  /** Where `normalize_email` splits an address that is its own strip. */
  lemma NormalizeSplit(e: string) returns (k: nat)
    requires Strip(e) == e && '@' in e
    ensures k < |e| && e[k] == '@' && NormalizeEmail(e) == e[..k] + "@" + Lower(e[k + 1..])
  {
    k := LastIndexOf(e, '@').value;
  }

  lemma LowerDomain(e: string, k: nat)
    requires k < |e| && e[k] == '@' && Lower(e[k + 1..]) == e[k + 1..]
    ensures e[..k] + "@" + Lower(e[k + 1..]) == e
  {
    assert [e[k]] == "@";
    assert e == e[..k] + [e[k]] + e[k + 1..];
  }

  lemma LowerSuffix(e: string, a: nat)
    requires Lower(e) == e && a <= |e|
    ensures Lower(e[a..]) == e[a..]
  {
    var d := e[a..];
    forall m | 0 <= m < |d| ensures Lower(d)[m] == d[m] {
      assert Lower(e)[a + m] == e[a + m];
    }
  }

  /** The record `create_user` builds, with the documented defaults. */
  function NewUser(id: UserId, email: string, password: Option<string>, extra: ExtraFields, now: Time): (u: User)
    ensures u.id == id && u.email == email
    ensures extra.role.None? ==> u.role == Regular
    ensures extra.status.None? ==> u.status == Active
    ensures extra.role.Some? ==> u.role == extra.role.value
    ensures extra.status.Some? ==> u.status == extra.status.value
    ensures u.isActive && u.lastLogin.None? && u.createdAt == u.updatedAt == now
    ensures password.Some? ==> CheckPassword(u, password.value)
    ensures password.None? ==> forall raw :: !CheckPassword(u, raw)
  {
    User(
      id := id,
      email := email,
      fullName := extra.fullName.GetOr(""),
      role := extra.role.GetOr(Regular),
      status := extra.status.GetOr(Active),
      createdAt := now,
      updatedAt := now,
      lastLogin := None,
      isStaff := extra.isStaff.GetOr(false),
      isSuperuser := extra.isSuperuser.GetOr(false),
      isActive := true,
      password := if password.Some? then Hashed(password.value) else Unusable)
  }

  /** Without `role`/`status` arguments the new user is an active regular user. */
  lemma NewUserDefaults(id: UserId, email: string, password: Option<string>, extra: ExtraFields, now: Time)
    requires extra.role.None? && extra.status.None? && extra.isStaff.None? && extra.isSuperuser.None?
    ensures var u := NewUser(id, email, password, extra, now);
      u.role == Regular && u.status == Active && !u.isStaff && !u.isSuperuser
      && u.lastLogin.None? && u.createdAt == u.updatedAt == now
      && (password.Some? ==> CheckPassword(u, password.value))
  {
  }

  /** The defaults `create_superuser` fills in before delegating. */
  function SuperuserExtra(extra: ExtraFields): (full: ExtraFields)
    ensures full.fullName == extra.fullName
    ensures full.isStaff.Some? && full.isSuperuser.Some? && full.role.Some? && full.status.Some?
    ensures extra.isStaff != Some(false) ==> full.isStaff == Some(true)
    ensures extra.isSuperuser != Some(false) ==> full.isSuperuser == Some(true)
    ensures full.role == Some(if extra.role.Some? then extra.role.value else Admin)
    ensures full.status == Some(if extra.status.Some? then extra.status.value else Active)
  {
    assert extra.isStaff != Some(false) ==> extra.isStaff.GetOr(true);
    assert extra.isSuperuser != Some(false) ==> extra.isSuperuser.GetOr(true);
    extra.(isStaff := Some(extra.isStaff.GetOr(true)),
           isSuperuser := Some(extra.isSuperuser.GetOr(true)),
           role := Some(extra.role.GetOr(Admin)),
           status := Some(extra.status.GetOr(Active)))
  }

  /**
   * Why a user could not be created: the three `ValueError`s the manager
   * raises, and `DuplicateEmail`, the database's unique-constraint failure
   * (an `IntegrityError`) when the row is saved.
   */
  datatype CreateError = EmptyEmail | NotStaff | NotSuperuser | DuplicateEmail

  /** Some stored user has exactly this email. */
  predicate EmailTaken(users: map<UserId, User>, email: string) {
    exists id | id in users :: users[id].email == email
  }

  /** The `unique=True` constraint of the email column. */
  ghost predicate EmailsUnique(users: map<UserId, User>) {
    forall a, b :: a in users && b in users && users[a].email == users[b].email ==> a == b
  }

  /** Adding a record under a fresh id with an email nobody holds keeps emails unique. */
  lemma InsertKeepsEmailsUnique(users: map<UserId, User>, id: UserId, u: User)
    requires EmailsUnique(users) && id !in users && !EmailTaken(users, u.email)
    ensures EmailsUnique(users[id := u])
  {
    var m := users[id := u];
    assert forall b :: b in users ==> users[b].email != u.email;
    forall a, b | a in m && b in m && m[a].email == m[b].email ensures a == b {
      if a != id && b != id {
        assert users[a].email == users[b].email;
      }
    }
  }

  /** A record added under the next id keeps the ids dense and matching their keys. */
  lemma InsertKeepsIds(users: map<UserId, User>, next: UserId, u: User, added: map<UserId, User>)
    requires forall id :: id in users <==> 0 < id < next
    requires forall id :: id in users ==> users[id].id == id
    requires 0 < next && u.id == next && added == users[next := u]
    ensures next !in users
    ensures forall id :: id in added <==> 0 < id < next + 1
    ensures forall id :: id in added ==> added[id].id == id
  {
  }

  /** Replacing a record by one with the same email keeps emails unique. */
  lemma ReplaceKeepsEmailsUnique(users: map<UserId, User>, id: UserId, u: User)
    requires EmailsUnique(users) && id in users && u.email == users[id].email
    ensures EmailsUnique(users[id := u])
  {
    var m := users[id := u];
    forall a, b | a in m && b in m && m[a].email == m[b].email ensures a == b {
      assert users[a].email == m[a].email && users[b].email == m[b].email;
    }
  }

  /**
   * The user table. Ids are handed out in order from 1 and rows are never
   * deleted, so the ids in use are exactly 1 .. nextId - 1.
   */
  class UserStore {
    var users: map<UserId, User>
    var nextId: UserId

    ghost predicate Valid()
      reads this
    {
      0 < nextId
      && (forall id :: id in users <==> 0 < id < nextId)
      && (forall id :: id in users ==> users[id].id == id)
      && EmailsUnique(users)
    }

    constructor ()
      ensures Valid() && users == map[] && nextId == 1
    {
      users := map[];
      nextId := 1;
    }

    /** The rows of the table, in id order. */
    function Rows(): (rows: seq<User>)
      requires Valid()
      reads this
      ensures |rows| == nextId - 1
      ensures forall u :: u in rows <==> u in users.Values
    {
      var m, n := users, nextId - 1;
      var rows := seq(n, i requires 0 <= i < n && i + 1 in m => m[i + 1]);
      assert forall u :: u in users.Values ==> u in rows by {
        forall u | u in users.Values ensures u in rows {
          var id :| id in users && users[id] == u;
          assert rows[id - 1] == u;
        }
      }
      rows
    }

    /**
     * `UserManager.create_user`: an empty email is refused and nothing is
     * created; the email is normalised; role and status default to 'user'
     * and 'active'; the unique email column refuses a second row with the
     * same address.
     */
    method CreateUser(email: string, password: Option<string>, extra: ExtraFields, now: Time)
      returns (r: Result<UserId, CreateError>)
      requires Valid()
      modifies this
      ensures Valid()
      ensures email == [] ==> r == Failure(EmptyEmail)
      ensures r.Success? <==> email != [] && !EmailTaken(old(users), NormalizeEmail(email))
      ensures r == Failure(DuplicateEmail) <==> email != [] && EmailTaken(old(users), NormalizeEmail(email))
      ensures r.Failure? ==> users == old(users) && nextId == old(nextId)
      ensures r.Success? ==>
        r.value == old(nextId) && r.value !in old(users) && nextId == old(nextId) + 1
        && users == old(users)[r.value := NewUser(r.value, NormalizeEmail(email), password, extra, now)]
    {
      if email == [] {
        return Failure(EmptyEmail);
      }
      var normalized := NormalizeEmail(email);
      if EmailTaken(users, normalized) {
        return Failure(DuplicateEmail);
      }
      var id := nextId;
      var u := NewUser(id, normalized, password, extra, now);
      InsertKeepsIds(users, id, u, users[id := u]);
      InsertKeepsEmailsUnique(users, id, u);
      users := users[id := u];
      nextId := nextId + 1;
      r := Success(id);
    }

    /**
     * `UserManager.create_superuser`: fills in staff, superuser, 'admin' and
     * 'active' unless given, refuses an explicit non-True `is_staff` and
     * then `is_superuser`, and delegates to `create_user`.
     */
    method CreateSuperuser(email: string, password: Option<string>, extra: ExtraFields, now: Time)
      returns (r: Result<UserId, CreateError>)
      requires Valid()
      modifies this
      ensures Valid()
      ensures extra.isStaff == Some(false) ==> r == Failure(NotStaff)
      ensures extra.isStaff != Some(false) && extra.isSuperuser == Some(false) ==> r == Failure(NotSuperuser)
      ensures r.Failure? ==> users == old(users) && nextId == old(nextId)
      ensures r.Success? ==>
        r.value == old(nextId) && nextId == old(nextId) + 1
        && users == old(users)[r.value := NewUser(r.value, NormalizeEmail(email), password, SuperuserExtra(extra), now)]
      ensures r.Success? ==>
        var u := users[r.value];
        u.isStaff && u.isSuperuser && u.role == extra.role.GetOr(Admin) && u.status == extra.status.GetOr(Active)
      ensures extra.isStaff != Some(false) && extra.isSuperuser != Some(false) ==>
        (r.Success? <==> email != [] && !EmailTaken(old(users), NormalizeEmail(email)))
      ensures extra.isStaff != Some(false) && extra.isSuperuser != Some(false) && r.Failure? ==>
        r == Failure(if email == [] then EmptyEmail else DuplicateEmail)
    {
      var full := SuperuserExtra(extra);
      // `extra_fields.get(...) is not True`; after the defaults both are present
      if !full.isStaff.GetOr(false) {
        return Failure(NotStaff);
      }
      if !full.isSuperuser.GetOr(false) {
        return Failure(NotSuperuser);
      }
      r := CreateUser(email, password, full, now);
    }

    /** `User.activate` on the stored record `id`. */
    method Activate(id: UserId, now: Time)
      requires Valid() && id in users
      modifies this
      ensures Valid() && nextId == old(nextId)
      ensures users == old(users)[id := Activated(old(users)[id], now)]
    {
      ReplaceKeepsEmailsUnique(users, id, Activated(users[id], now));
      users := users[id := Activated(users[id], now)];
    }

    /** `User.deactivate` on the stored record `id`. */
    method Deactivate(id: UserId, now: Time)
      requires Valid() && id in users
      modifies this
      ensures Valid() && nextId == old(nextId)
      ensures users == old(users)[id := Deactivated(old(users)[id], now)]
    {
      ReplaceKeepsEmailsUnique(users, id, Deactivated(users[id], now));
      users := users[id := Deactivated(users[id], now)];
    }

    /** `User.update_last_login` on the stored record `id`. */
    method UpdateLastLogin(id: UserId, now: Time)
      requires Valid() && id in users
      modifies this
      ensures Valid() && nextId == old(nextId)
      ensures users == old(users)[id := LoggedIn(old(users)[id], now)]
    {
      ReplaceKeepsEmailsUnique(users, id, LoggedIn(users[id], now));
      users := users[id := LoggedIn(users[id], now)];
    }
  }
}
