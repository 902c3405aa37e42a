/**
 * The endpoints of the user API that hold rules of their own: the outcome
 * shape of signup, login and logout, the guards of the admin activate and
 * deactivate endpoints, and the filter pipeline of the admin user list.
 * Token issuing and revoking belong to the JWT library and enter as
 * parameters.
 */
module Views {
  import opened Wrappers
  import opened Text
  import opened Users
  import opened Serializers
  import opened Exceptions

  /** The `tokens` payload: a refresh token and its access token. */
  datatype TokenPair = TokenPair(refresh: string, access: string)

  /**
   * A response: the status code and the `success`, `message`, `errors`,
   * `data.user` and `data.tokens` members of its body.
   */
  datatype Reply = Reply(
    status: int,
    success: bool,
    message: string,
    errors: Option<ErrorMap>,
    user: Option<User>,
    tokens: Option<TokenPair>)

  /** The 400 answer to a request whose serializer rejected it. */
  function ValidationFailure(errors: ErrorMap): Reply {
    Reply(400, false, ValidationMessage, Some(errors), None, None)
  }

  /** A 400 answer carrying a message only. */
  function Refused(message: string): Reply {
    Reply(400, false, message, None, None, None)
  }

  /** What `get_object_or_404` leads to once the exception handler has shaped it. */
  const NotFoundReply := Reply(404, false, NotFoundMessage, None, None, None)

  /** The 404 answer is the envelope the exception handler builds for `Http404`. */
  lemma NotFoundReplyIsHandled(status: int, data: Payload, repr: Detail -> string)
    ensures Handle(Http404, status, data, repr)
      == Handled(NotFoundReply.status, Envelope(NotFoundReply.success, Text(NotFoundReply.message), None))
  {
  }

  // ---------------------------------------------------------------- signup

  /**
   * `SignupView.post`: the fields are trimmed and validated; a rejected
   * request is answered 400 with the serializer errors and creates nothing;
   * an accepted one creates an active regular user under the next id and is
   * answered 201 with the user and tokens issued for it.
   */
  method SignupPost(store: UserStore, d: SignupData, builtin: seq<string>, issue: UserId -> TokenPair, now: Time)
    returns (reply: Reply)
    requires store.Valid()
    modifies store
    ensures store.Valid()
    ensures ValidateSignup(TrimSignup(d), old(store.users), builtin).Failure? ==>
      reply == ValidationFailure(ValidateSignup(TrimSignup(d), old(store.users), builtin).error)
      && store.users == old(store.users) && store.nextId == old(store.nextId)
    ensures ValidateSignup(TrimSignup(d), old(store.users), builtin).Success? ==>
      var v := ValidateSignup(TrimSignup(d), old(store.users), builtin).value;
      var id := old(store.nextId);
      store.nextId == id + 1
      && store.users == old(store.users)[id := NewUser(id, v.email, Some(v.password), SignupExtra(v), now)]
      && reply == Reply(201, true, "User registered successfully.", None, Some(store.users[id]), Some(issue(id)))
    ensures reply.success ==>
      reply.user.Some? && reply.user.value.email == Lower(Strip(d.email))
      && reply.user.value.role == Regular && reply.user.value.status == Active
  {
    var t := TrimSignup(d);
    var r := ValidateSignup(t, store.users, builtin);
    if r.Failure? {
      return ValidationFailure(r.error);
    }
    AcceptedEmailIsNormal(t.email);
    var c := CreateFromSignup(store, r.value, now);
    assert c.Success?;
    var id := c.value;
    reply := Reply(201, true, "User registered successfully.", None, Some(store.users[id]), Some(issue(id)));
  }

  // ----------------------------------------------------------------- login

  /**
   * `LoginView.post`: both fields are trimmed and validated; a rejected
   * request is answered 400 with the
   * serializer errors and changes nothing; an accepted one records the login
   * time on the user first and answers 200 with that updated user and its
   * tokens.
   */
  method LoginPost(store: UserStore, email: Option<string>, password: Option<string>,
                   authenticate: (string, string) -> Option<UserId>, issue: UserId -> TokenPair, now: Time)
    returns (reply: Reply)
    requires store.Valid()
    requires forall e, p :: authenticate(e, p).Some? ==> authenticate(e, p).value in store.users
    modifies store
    ensures store.Valid() && store.nextId == old(store.nextId)
    ensures ValidateLogin(TrimField(email), TrimField(password), old(store.users), authenticate).Failure? ==>
      reply == ValidationFailure(ValidateLogin(TrimField(email), TrimField(password), old(store.users), authenticate).error)
      && store.users == old(store.users)
    ensures ValidateLogin(TrimField(email), TrimField(password), old(store.users), authenticate).Success? ==>
      var id := ValidateLogin(TrimField(email), TrimField(password), old(store.users), authenticate).value;
      store.users == old(store.users)[id := LoggedIn(old(store.users)[id], now)]
      && reply == Reply(200, true, "Login successful.", None, Some(store.users[id]), Some(issue(id)))
    ensures reply.success ==> reply.user.Some? && reply.user.value.lastLogin == Some(now)
  {
    var r := ValidateLogin(TrimField(email), TrimField(password), store.users, authenticate);
    if r.Failure? {
      return ValidationFailure(r.error);
    }
    var id := r.value;
    store.UpdateLastLogin(id, now);
    reply := Reply(200, true, "Login successful.", None, Some(store.users[id]), Some(issue(id)));
  }

  // ---------------------------------------------------------------- logout

  const RefreshRequiredMessage := "Refresh token is required."
  const FieldRequiredMessage := "This field is required."
  const LoggedOutMessage := "Logged out successfully."
  const InvalidTokenMessage := "Invalid or expired token."

  /**
   * `LogoutView.post`. `revoke` stands for parsing and blacklisting the
   * refresh token: it gives the text of the `TokenError` it raises, or
   * `None` when the token was blacklisted. A missing or empty token is
   * refused before `revoke` is reached.
   */
  function LogoutPost(refresh: Option<string>, revoke: string -> Option<string>): (reply: Reply)
    ensures !Truthy(refresh) ==>
      reply == Reply(400, false, RefreshRequiredMessage, Some(map[RefreshField := [FieldRequiredMessage]]), None, None)
    ensures Truthy(refresh) ==> (reply.success <==> revoke(refresh.value).None?)
    ensures reply.success ==> reply.status == 200 && reply.message == LoggedOutMessage && reply.errors.None?
    ensures Truthy(refresh) && revoke(refresh.value).Some? ==>
      reply.status == 400 && reply.message == InvalidTokenMessage
      && reply.errors == Some(map[RefreshField := [revoke(refresh.value).value]])
  {
    if !Truthy(refresh) then
      Reply(400, false, RefreshRequiredMessage, Some(map[RefreshField := [FieldRequiredMessage]]), None, None)
    else
      match revoke(refresh.value)
      case None => Reply(200, true, LoggedOutMessage, None, None, None)
      case Some(err) => Reply(400, false, InvalidTokenMessage, Some(map[RefreshField := [err]]), None, None)
  }

  /** Without a refresh token the answer does not depend on the blacklist at all. */
  lemma LogoutGuardSkipsRevoke(refresh: Option<string>, revoke1: string -> Option<string>, revoke2: string -> Option<string>)
    requires !Truthy(refresh)
    ensures LogoutPost(refresh, revoke1) == LogoutPost(refresh, revoke2)
    ensures !LogoutPost(refresh, revoke1).success
  {
  }

  // ------------------------------------------------------ admin activation

  /**
   * `AdminActivateUserView.post`: an unknown id is answered 404, an active
   * user 400 with the record untouched; otherwise the user is activated and
   * the answer names its email. The caller may target their own record.
   */
  method AdminActivatePost(store: UserStore, targetId: UserId, now: Time) returns (reply: Reply)
    requires store.Valid()
    modifies store
    ensures store.Valid() && store.nextId == old(store.nextId)
    ensures targetId !in old(store.users) ==> reply == NotFoundReply && store.users == old(store.users)
    ensures targetId in old(store.users) && old(store.users)[targetId].status == Active ==>
      reply == Refused("User is already active.") && store.users == old(store.users)
    ensures targetId in old(store.users) && old(store.users)[targetId].status == Inactive ==>
      store.users == old(store.users)[targetId := Activated(old(store.users)[targetId], now)]
      && reply == Reply(200, true, "User " + old(store.users)[targetId].email + " has been activated successfully.",
                        None, Some(store.users[targetId]), None)
    ensures reply.success <==> targetId in old(store.users) && old(store.users)[targetId].status == Inactive
  {
    if targetId !in store.users {
      return NotFoundReply;
    }
    var user := store.users[targetId];
    if user.status == Active {
      return Refused("User is already active.");
    }
    store.Activate(targetId, now);
    reply := Reply(200, true, "User " + user.email + " has been activated successfully.",
                   None, Some(store.users[targetId]), None);
  }

  /**
   * `AdminDeactivateUserView.post`: an unknown id is answered 404; then the
   * caller's own record is refused, before the already-inactive check;
   * otherwise the user is deactivated and the answer names its email.
   */
  method AdminDeactivatePost(store: UserStore, callerId: UserId, targetId: UserId, now: Time) returns (reply: Reply)
    requires store.Valid()
    modifies store
    ensures store.Valid() && store.nextId == old(store.nextId)
    ensures targetId !in old(store.users) ==> reply == NotFoundReply && store.users == old(store.users)
    ensures targetId in old(store.users) && targetId == callerId ==>
      reply == Refused("You cannot deactivate your own account.") && store.users == old(store.users)
    ensures targetId in old(store.users) && targetId != callerId && old(store.users)[targetId].status == Inactive ==>
      reply == Refused("User is already inactive.") && store.users == old(store.users)
    ensures targetId in old(store.users) && targetId != callerId && old(store.users)[targetId].status == Active ==>
      store.users == old(store.users)[targetId := Deactivated(old(store.users)[targetId], now)]
      && reply == Reply(200, true, "User " + old(store.users)[targetId].email + " has been deactivated successfully.",
                        None, Some(store.users[targetId]), None)
    ensures reply.success <==>
      targetId in old(store.users) && targetId != callerId && old(store.users)[targetId].status == Active
  {
    if targetId !in store.users {
      return NotFoundReply;
    }
    var user := store.users[targetId];
    if user.id == callerId {
      return Refused("You cannot deactivate your own account.");
    }
    if user.status == Inactive {
      return Refused("User is already inactive.");
    }
    store.Deactivate(targetId, now);
    reply := Reply(200, true, "User " + user.email + " has been deactivated successfully.",
                   None, Some(store.users[targetId]), None);
  }

  // ------------------------------------------------------- admin user list

  /** `created_at` never increases along the sequence. */
  predicate NewestFirst(s: seq<User>) {
    forall i, j :: 0 <= i < j < |s| ==> s[i].createdAt >= s[j].createdAt
  }

  /** Every user of `s` was created no later than `t`. */
  predicate CreatedBy(s: seq<User>, t: Time) {
    forall i :: 0 <= i < |s| ==> s[i].createdAt <= t
  }

  lemma {:induction false} NewestFirstTail(s: seq<User>)
    requires NewestFirst(s) && s != []
    ensures NewestFirst(s[1..]) && CreatedBy(s[1..], s[0].createdAt)
  {
    assert forall k :: 0 <= k < |s| - 1 ==> s[1..][k] == s[k + 1];
  }

  lemma {:induction false} NewestFirstCons(u: User, s: seq<User>)
    requires NewestFirst(s) && CreatedBy(s, u.createdAt)
    ensures NewestFirst([u] + s)
  {
    assert forall k :: 0 <= k < |s| ==> ([u] + s)[k + 1] == s[k];
  }

  /** `r` is `s` with some elements left out and the rest kept in order. */
  ghost predicate SubsequenceOf(r: seq<User>, s: seq<User>)
    decreases |s|
  {
    r == [] || (s != [] && ((r[0] == s[0] && SubsequenceOf(r[1..], s[1..])) || SubsequenceOf(r, s[1..])))
  }

  /** Places `u` into a newest-first sequence ahead of every user created no later. */
  function InsertNewest(u: User, s: seq<User>): (r: seq<User>)
    requires NewestFirst(s)
    ensures NewestFirst(r)
    ensures multiset(r) == multiset(s) + multiset{u}
  {
    if s == [] then [u]
    else if u.createdAt >= s[0].createdAt then
      NewestFirstTail(s);
      assert CreatedBy(s, u.createdAt);
      NewestFirstCons(u, s);
      [u] + s
    else
      NewestFirstTail(s);
      var t := InsertNewest(u, s[1..]);
      assert s == [s[0]] + s[1..];
      assert CreatedBy(t, s[0].createdAt) by {
        forall i | 0 <= i < |t| ensures t[i].createdAt <= s[0].createdAt {
          assert t[i] in multiset(t);
          if t[i] != u {
            assert t[i] in multiset(s[1..]);
            var k :| 0 <= k < |s[1..]| && s[1..][k] == t[i];
          }
        }
      }
      NewestFirstCons(s[0], t);
      [s[0]] + t
  }

  /** `order_by('-created_at')`: the same users, newest first. */
  function SortNewestFirst(rows: seq<User>): (r: seq<User>)
    ensures NewestFirst(r)
    ensures multiset(r) == multiset(rows)
  {
    if rows == [] then []
    else
      assert rows == [rows[0]] + rows[1..];
      InsertNewest(rows[0], SortNewestFirst(rows[1..]))
  }

  /** `queryset.filter(...)`: the users satisfying `keep`, in their order. */
  function Filter(s: seq<User>, keep: User -> bool): (r: seq<User>)
    ensures forall u :: multiset(r)[u] == if keep(u) then multiset(s)[u] else 0
    ensures NewestFirst(s) ==> NewestFirst(r)
    ensures SubsequenceOf(r, s)
  {
    if s == [] then []
    else
      var t := Filter(s[1..], keep);
      assert s == [s[0]] + s[1..];
      if keep(s[0]) then
        KeptBehindHead(s, t);
        assert ([s[0]] + t)[1..] == t;
        [s[0]] + t
      else
        if NewestFirst(s) then NewestFirstTail(s); t else t
  }

  /** Users drawn from the tail of a newest-first sequence may follow its head. */
  lemma {:induction false} KeptBehindHead(s: seq<User>, t: seq<User>)
    requires s != []
    requires forall u :: multiset(t)[u] <= multiset(s[1..])[u]
    ensures NewestFirst(s) && NewestFirst(t) ==> NewestFirst([s[0]] + t)
  {
    if NewestFirst(s) && NewestFirst(t) {
      NewestFirstTail(s);
      assert CreatedBy(t, s[0].createdAt) by {
        forall i | 0 <= i < |t| ensures t[i].createdAt <= s[0].createdAt {
          assert t[i] in multiset(t);
          assert t[i] in multiset(s[1..]);
          var k :| 0 <= k < |s[1..]| && s[1..][k] == t[i];
        }
      }
      NewestFirstCons(s[0], t);
    }
  }

  /** Filtering twice keeps what both filters keep. */
  lemma {:induction false} FilterFuse(s: seq<User>, p: User -> bool, q: User -> bool, both: User -> bool)
    requires forall u :: both(u) == (p(u) && q(u))
    ensures Filter(Filter(s, p), q) == Filter(s, both)
  {
    if s != [] {
      FilterFuse(s[1..], p, q, both);
      if p(s[0]) {
        assert Filter(s, p) == [s[0]] + Filter(s[1..], p);
        assert Filter(s, p)[1..] == Filter(s[1..], p);
      }
    }
  }

  /** Filters that agree on every user give the same result. */
  lemma {:induction false} FilterCongruent(s: seq<User>, p: User -> bool, q: User -> bool)
    requires forall u :: p(u) == q(u)
    ensures Filter(s, p) == Filter(s, q)
  {
    if s != [] {
      FilterCongruent(s[1..], p, q);
    }
  }

  /** The query parameters `status`, `role` and `search`, each possibly absent. */
  datatype ListParams = ListParams(status: Option<string>, role: Option<string>, search: Option<string>)

  /** The status filter applies only to the two whitelisted values. */
  predicate StatusFilterApplies(p: ListParams) {
    p.status == Some("active") || p.status == Some("inactive")
  }

  /** The role filter applies only to the two whitelisted values. */
  predicate RoleFilterApplies(p: ListParams) {
    p.role == Some("admin") || p.role == Some("user")
  }

  /** `email__icontains=search | full_name__icontains=search`. */
  function MatchesSearch(u: User, search: string): (b: bool)
    ensures search == [] ==> b
    ensures Contains(u.email, search) || Contains(u.fullName, search) ==> b
    ensures b <==> ContainsIgnoringCase(u.email, Lower(search)) || ContainsIgnoringCase(u.fullName, Lower(search))
  {
    LowerIdempotent(search);
    assert [] <= Lower(u.email)[0..];
    ContainsIgnoresCase(u.email, search);
    ContainsIgnoresCase(u.fullName, search);
    ContainsIgnoringCase(u.email, search) || ContainsIgnoringCase(u.fullName, search)
  }

  predicate StatusKeep(p: ListParams, u: User) {
    StatusFilterApplies(p) ==> StatusName(u.status) == p.status.value
  }

  predicate RoleKeep(p: ListParams, u: User) {
    RoleFilterApplies(p) ==> RoleName(u.role) == p.role.value
  }

  predicate SearchKeep(p: ListParams, u: User) {
    Truthy(p.search) ==> MatchesSearch(u, p.search.value)
  }

  /** The users the admin list shows for the given parameters. */
  function Selected(p: ListParams, u: User): (b: bool)
    ensures b <==>
      (p.status == Some("active") ==> u.status == Active)
      && (p.status == Some("inactive") ==> u.status == Inactive)
      && (p.role == Some("admin") ==> u.role == Admin)
      && (p.role == Some("user") ==> u.role == Regular)
      && (Truthy(p.search) ==> MatchesSearch(u, p.search.value))
  {
    StatusKeep(p, u) && RoleKeep(p, u) && SearchKeep(p, u)
  }

  /**
   * A parameter outside its whitelist, or an empty search, selects as if it
   * were absent; the whitelisted ones select exactly the matching users.
   */
  lemma SelectedExact(p: ListParams, u: User)
    ensures !StatusFilterApplies(p) ==> Selected(p, u) == Selected(p.(status := None), u)
    ensures !RoleFilterApplies(p) ==> Selected(p, u) == Selected(p.(role := None), u)
    ensures !Truthy(p.search) ==> Selected(p, u) == Selected(p.(search := None), u)
    ensures p.status == Some("active") && Selected(p, u) ==> u.status == Active
    ensures p.status == Some("inactive") && Selected(p, u) ==> u.status == Inactive
    ensures p.role == Some("admin") && Selected(p, u) ==> u.role == Admin
    ensures p.role == Some("user") && Selected(p, u) ==> u.role == Regular
    ensures Selected(ListParams(None, None, None), u)
  {
  }

  /** The status and role steps of `get_queryset`, common to both versions below. */
  method FilterByStatusAndRole(rows: seq<User>, p: ListParams) returns (queryset: seq<User>)
    ensures queryset == Filter(SortNewestFirst(rows), u => StatusKeep(p, u) && RoleKeep(p, u))
  {
    var sorted := SortNewestFirst(rows);
    queryset := sorted;
    ghost var byStatus: User -> bool := u => StatusKeep(p, u);
    if StatusFilterApplies(p) {
      var status := p.status.value;
      queryset := Filter(queryset, (u: User) => StatusName(u.status) == status);
      FilterCongruent(sorted, (u: User) => StatusName(u.status) == status, byStatus);
    } else {
      FilterCongruent(sorted, u => true, byStatus);
      assert Filter(sorted, u => true) == sorted by { FilterAll(sorted, u => true); }
    }
    ghost var byBoth: User -> bool := u => StatusKeep(p, u) && RoleKeep(p, u);
    if RoleFilterApplies(p) {
      var role := p.role.value;
      queryset := Filter(queryset, (u: User) => RoleName(u.role) == role);
      FilterFuse(sorted, byStatus, (u: User) => RoleName(u.role) == role, byBoth);
    } else {
      FilterCongruent(sorted, byStatus, byBoth);
    }
  }

  /** A filter that keeps everybody changes nothing. */
  lemma {:induction false} FilterAll(s: seq<User>, keep: User -> bool)
    requires forall u :: keep(u)
    ensures Filter(s, keep) == s
  {
    if s != [] {
      FilterAll(s[1..], keep);
      assert Filter(s, keep) == [s[0]] + Filter(s[1..], keep);
      assert s == [s[0]] + s[1..];
    }
  }

  /**
   * `AdminUserListView.get_queryset` with the search step as evidently
   * intended: the selected users, newest first, in the order of the sorted
   * table.
   */
  method GetQueryset(store: UserStore, p: ListParams) returns (queryset: seq<User>)
    requires store.Valid()
    ensures queryset == Filter(SortNewestFirst(store.Rows()), u => Selected(p, u))
    ensures NewestFirst(queryset)
    ensures forall u :: multiset(queryset)[u] == if Selected(p, u) then multiset(store.Rows())[u] else 0
    ensures forall u :: u in queryset <==> u in store.users.Values && Selected(p, u)
    ensures SubsequenceOf(queryset, SortNewestFirst(store.Rows()))
  {
    var rows := store.Rows();
    queryset := FilterByStatusAndRole(rows, p);
    ghost var sorted := SortNewestFirst(rows);
    ghost var byBoth: User -> bool := u => StatusKeep(p, u) && RoleKeep(p, u);
    ghost var selected: User -> bool := u => Selected(p, u);
    if Truthy(p.search) {
      var search := p.search.value;
      queryset := Filter(queryset, u => MatchesSearch(u, search));
      FilterFuse(sorted, byBoth, u => MatchesSearch(u, search), selected);
    } else {
      FilterCongruent(sorted, byBoth, selected);
    }
  }

  const NameErrorMessage := "NameError: name 'models' is not defined"

  /**
   * `AdminUserListView.get_queryset` as written: the search step refers to
   * `models.Q`, and `models` is never imported, so any non-empty search
   * raises instead of filtering.
   */
  method GetQuerysetAsWritten(store: UserStore, p: ListParams) returns (r: Result<seq<User>, string>)
    requires store.Valid()
    ensures r.Failure? <==> Truthy(p.search)
    ensures r.Failure? ==> r.error == NameErrorMessage
    ensures r.Success? ==> r.value == Filter(SortNewestFirst(store.Rows()), u => Selected(p, u))
  {
    var rows := store.Rows();
    var queryset := FilterByStatusAndRole(rows, p);
    if Truthy(p.search) {
      return Failure(NameErrorMessage);
    }
    FilterCongruent(SortNewestFirst(rows), u => StatusKeep(p, u) && RoleKeep(p, u), u => Selected(p, u));
    r := Success(queryset);
  }
}
