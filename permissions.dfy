/**
 * The permission classes and the permission lists of the endpoints. A
 * permission is a boolean function of the requesting user (and, for object
 * permissions, of the object); an endpoint admits a request when all of its
 * permissions hold.
 */
module Permissions {
  import opened Wrappers
  import opened Users
  import opened Exceptions

  /** `request.user`: the anonymous user, or a user resolved from an access token. */
  datatype RequestUser = Anonymous | Authenticated(user: User)

  /** `IsAdmin.has_permission`. */
  function HasAdminPermission(ru: RequestUser): (b: bool)
    ensures b <==> ru.Authenticated? && ru.user.role == Admin
  {
    ru.Authenticated? && RoleName(ru.user.role) == "admin"
  }

  /** `IsActiveUser.has_permission`. */
  function HasActivePermission(ru: RequestUser): (b: bool)
    ensures b <==> ru.Authenticated? && ru.user.status == Active
  {
    ru.Authenticated? && StatusName(ru.user.status) == "active"
  }

  /** `IsOwnerOrAdmin.has_object_permission`, for an object `obj` that is a user record. */
  function HasOwnerOrAdminPermission(user: User, obj: User): (b: bool)
    ensures user.role == Admin ==> b
    ensures user.role == Regular ==> (b <==> obj.id == user.id)
  {
    RoleName(user.role) == "admin" || obj.id == user.id
  }

  /** The admin permission looks at the role only, never at the status. */
  lemma AdminPermissionIgnoresStatus(u: User, s: Status)
    ensures HasAdminPermission(Authenticated(u)) == HasAdminPermission(Authenticated(u.(status := s)))
    ensures HasAdminPermission(Authenticated(u)) <==> IsAdmin(u)
    ensures !HasAdminPermission(Anonymous)
  {
  }

  /** The active-user permission holds exactly for signed-in users whose status is active. */
  lemma ActivePermissionExact(ru: RequestUser)
    ensures HasActivePermission(ru) <==> ru.Authenticated? && ru.user.status == Active
  {
  }

  /** An admin may act on any user; anyone else only on their own record. */
  lemma OwnerOrAdminExact(user: User, obj: User)
    ensures user.role == Admin ==> HasOwnerOrAdminPermission(user, obj)
    ensures user.role == Regular ==> (HasOwnerOrAdminPermission(user, obj) <==> obj.id == user.id)
  {
  }

  /** The permission classes the endpoints name. */
  datatype Permission = AllowAny | IsAuthenticated | IsAdminUser | IsActiveUser

  predicate Holds(p: Permission, ru: RequestUser) {
    match p
    case AllowAny => true
    case IsAuthenticated => ru.Authenticated?
    case IsAdminUser => HasAdminPermission(ru)
    case IsActiveUser => HasActivePermission(ru)
  }

  /** The `message` a permission class gives when it refuses. */
  function DenialMessage(p: Permission): string {
    match p
    case IsAdminUser => "You must be an admin to perform this action."
    case IsActiveUser => "Your account is inactive. Please contact an administrator."
    case _ => "You do not have permission to perform this action."
  }

  datatype Endpoint =
    | Signup | Login | Logout | CurrentUser | Profile | ChangePassword
    | AdminUserList | AdminUserDetail | AdminActivate | AdminDeactivate

  /** `permission_classes` of each view, in the order they are listed. */
  function PermissionClasses(e: Endpoint): (ps: seq<Permission>)
    ensures ps != []
    ensures AllowAny in ps <==> e.Signup? || e.Login?
    ensures !(e.Signup? || e.Login?) ==> ps[0] == IsAuthenticated
    ensures IsActiveUser in ps <==> e.CurrentUser? || e.Profile? || e.ChangePassword?
    ensures IsAdminUser in ps <==> e.AdminUserList? || e.AdminUserDetail? || e.AdminActivate? || e.AdminDeactivate?
    ensures IsAdminUser in ps ==> IsActiveUser !in ps
  {
    match e
    case Signup => [AllowAny]
    case Login => [AllowAny]
    case Logout => [IsAuthenticated]
    case CurrentUser => [IsAuthenticated, IsActiveUser]
    case Profile => [IsAuthenticated, IsActiveUser]
    case ChangePassword => [IsAuthenticated, IsActiveUser]
    case AdminUserList => [IsAuthenticated, IsAdminUser]
    case AdminUserDetail => [IsAuthenticated, IsAdminUser]
    case AdminActivate => [IsAuthenticated, IsAdminUser]
    case AdminDeactivate => [IsAuthenticated, IsAdminUser]
  }

  /** The first permission of `ps` that refuses `ru`, if any. */
  function FirstRefusal(ps: seq<Permission>, ru: RequestUser): (r: Option<Permission>)
    ensures r.None? <==> forall p :: p in ps ==> Holds(p, ru)
    ensures r.Some? ==> r.value in ps && !Holds(r.value, ru)
    ensures r.Some? ==>
      exists k :: 0 <= k < |ps| && ps[k] == r.value && forall j :: 0 <= j < k ==> Holds(ps[j], ru)
  {
    if ps == [] then None
    else if !Holds(ps[0], ru) then Some(ps[0])
    else
      var r := FirstRefusal(ps[1..], ru);
      if r.None? then r
      else
        var k :| 0 <= k < |ps[1..]| && ps[1..][k] == r.value && forall j :: 0 <= j < k ==> Holds(ps[1..][j], ru);
        assert ps[k + 1] == r.value && forall j :: 0 <= j < k + 1 ==> Holds(ps[j], ru);
        r
  }

  /**
   * The exception a request is refused with: `NotAuthenticated` when nobody
   * is signed in, otherwise `PermissionDenied` carrying the refusing
   * permission's message.
   */
  function Refusal(e: Endpoint, ru: RequestUser): (r: Option<Exc>)
    ensures r.None? <==> forall p :: p in PermissionClasses(e) ==> Holds(p, ru)
    ensures r.Some? && ru.Anonymous? ==> r.value == NotAuthenticated(Text(NotProvidedMessage))
    ensures r.Some? && ru.Authenticated? ==>
      r.value == PermissionDenied(Text(DenialMessage(FirstRefusal(PermissionClasses(e), ru).value)))
  {
    match FirstRefusal(PermissionClasses(e), ru)
    case None => None
    case Some(p) =>
      if ru.Anonymous? then Some(NotAuthenticated(Text(NotProvidedMessage)))
      else Some(PermissionDenied(Text(DenialMessage(p))))
  }

  predicate IsAdminEndpoint(e: Endpoint) {
    e in {AdminUserList, AdminUserDetail, AdminActivate, AdminDeactivate}
  }

  predicate IsSelfServiceEndpoint(e: Endpoint) {
    e in {CurrentUser, Profile, ChangePassword}
  }

  /**
   * A deactivated admin still passes every admin endpoint, while the
   * self-service endpoints refuse them with the inactive-account message.
   */
  lemma DeactivatedAdminKeepsAdminAccess(u: User, e: Endpoint)
    requires u.role == Admin && u.status == Inactive
    ensures IsAdminEndpoint(e) ==> Refusal(e, Authenticated(u)).None?
    ensures IsSelfServiceEndpoint(e) ==>
      Refusal(e, Authenticated(u)) == Some(PermissionDenied(Text(DenialMessage(IsActiveUser))))
  {
    var ps := PermissionClasses(e);
    if IsSelfServiceEndpoint(e) {
      assert ps == [IsAuthenticated, IsActiveUser];
      assert ps[1..] == [IsActiveUser];
      assert FirstRefusal(ps, Authenticated(u)) == Some(IsActiveUser);
    } else if IsAdminEndpoint(e) {
      assert ps == [IsAuthenticated, IsAdminUser];
      assert ps[1..] == [IsAdminUser];
      assert ps[1..][1..] == [];
      assert FirstRefusal(ps, Authenticated(u)) == None;
    }
  }

  /**
   * Any deactivated user, admin or not, is refused the self-service
   * endpoints with the inactive-account message, and the envelope says 403.
   */
  lemma InactiveUserForbiddenSelfService(u: User, e: Endpoint, status: int, data: Payload, repr: Detail -> string)
    requires u.status == Inactive && IsSelfServiceEndpoint(e)
    ensures Refusal(e, Authenticated(u)) == Some(PermissionDenied(Text(DenialMessage(IsActiveUser))))
    ensures Handle(Refusal(e, Authenticated(u)).value, status, data, repr)
      == Handled(403, Envelope(false, Text(DenialMessage(IsActiveUser)), None))
  {
    var ps := PermissionClasses(e);
    assert ps == [IsAuthenticated, IsActiveUser];
    assert ps[1..] == [IsActiveUser];
    assert FirstRefusal(ps, Authenticated(u)) == Some(IsActiveUser);
  }

  /** A regular user asking for an admin endpoint is refused, and the envelope says 403. */
  lemma RegularUserForbidden(u: User, e: Endpoint, status: int, data: Payload, repr: Detail -> string)
    requires u.role == Regular && IsAdminEndpoint(e)
    ensures Refusal(e, Authenticated(u)) == Some(PermissionDenied(Text(DenialMessage(IsAdminUser))))
    ensures Handle(Refusal(e, Authenticated(u)).value, status, data, repr)
      == Handled(403, Envelope(false, Text("You must be an admin to perform this action."), None))
  {
    var ps := PermissionClasses(e);
    assert ps == [IsAuthenticated, IsAdminUser];
    assert ps[1..] == [IsAdminUser];
    assert FirstRefusal(ps, Authenticated(u)) == Some(IsAdminUser);
  }

  /** Without a signed-in user every endpoint but signup and login answers 401. */
  lemma AnonymousRefused(e: Endpoint, status: int, data: Payload, repr: Detail -> string)
    requires e != Signup && e != Login
    ensures Refusal(e, Anonymous) == Some(NotAuthenticated(Text(NotProvidedMessage)))
    ensures Handle(Refusal(e, Anonymous).value, status, data, repr).status == 401
  {
  }
}
