/**
 * The input rules of the serializers: the password policy, the email shape
 * and uniqueness checks, full-name trimming, the cross-field confirmations of
 * signup and change-password, the login classification and the admin status
 * whitelist. Each rule is a function from the field values (and the user
 * table where the rule reads it) to the cleaned value or the error map the
 * request is answered with. The field values are those left after each
 * field's own whitespace trimming, which `TrimSignup` and `TrimField` apply.
 */
module Serializers {
  import opened Wrappers
  import opened Text
  import opened Users

  /** The keys under which serializer errors are reported. */
  datatype Field =
    | EmailField | FullNameField | PasswordField | ConfirmPasswordField
    | CurrentPasswordField | NewPasswordField | ConfirmNewPasswordField
    | DetailField | RefreshField

  /** Serializer errors: field to its list of messages. */
  type ErrorMap = map<Field, seq<string>>

  /**
   * A character field's own cleaning: its `trim_whitespace` option, on by
   * default, strips the submitted value before any validator sees it.
   */
  function TrimField(o: Option<string>): (r: Option<string>)
    ensures r.None? <==> o.None?
    ensures r.Some? ==>
      exists i, j :: 0 <= i <= j <= |o.value| && r.value == o.value[i..j] && AllSpace(o.value[..i]) && AllSpace(o.value[j..])
    ensures r.Some? ==> Strip(r.value) == r.value
    ensures r.Some? ==> (r.value == [] <==> AllSpace(o.value))
  {
    if o.Some? then StripIdempotent(o.value); Some(Strip(o.value)) else None
  }

  // ---------------------------------------------------------------------
  // Password policy

  /** The punctuation a password must contain at least one of. */
  const SpecialCharacters: string := "!@#$%^&*(),.?\":{}|<>"

  ghost predicate HasUpper(p: string) { exists i :: 0 <= i < |p| && IsUpper(p[i]) }
  ghost predicate HasLower(p: string) { exists i :: 0 <= i < |p| && IsLower(p[i]) }
  ghost predicate HasDigit(p: string) { exists i :: 0 <= i < |p| && IsDigit(p[i]) }
  ghost predicate HasSpecial(p: string) { exists i :: 0 <= i < |p| && p[i] in SpecialCharacters }

  /** The kinds of character the policy requires one of each. */
  datatype CharClass = UpperCase | LowerCase | Digit | Special

  predicate InClass(c: char, k: CharClass) {
    match k
    case UpperCase => IsUpper(c)
    case LowerCase => IsLower(c)
    case Digit => IsDigit(c)
    case Special => c in SpecialCharacters
  }

  /** Whether some character of `s` belongs to the class `k`. */
  function Search(s: string, k: CharClass): (b: bool)
    ensures b <==> exists i :: 0 <= i < |s| && InClass(s[i], k)
  {
    if s == [] then false
    else
      var b := InClass(s[0], k) || Search(s[1..], k);
      assert forall i :: 0 < i < |s| ==> s[i] == s[1..][i - 1];
      b
  }

  /** The checks of `validate_password`, in the order they are made. */
  datatype PasswordFailure =
    | TooShort
    | NoUppercase
    | NoLowercase
    | NoDigit
    | NoSpecialCharacter
    | Rejected(messages: seq<string>)  // Django's configured validators

  /** Position of a check in the order of the checks. */
  function CheckRank(f: PasswordFailure): nat {
    match f
    case TooShort => 0
    case NoUppercase => 1
    case NoLowercase => 2
    case NoDigit => 3
    case NoSpecialCharacter => 4
    case Rejected(_) => 5
  }

  /**
   * Does the check `f` fail for `p`? `builtin` holds the messages Django's
   * own password validators produce for `p` (empty when they accept it).
   */
  ghost predicate Fails(p: string, builtin: seq<string>, f: PasswordFailure) {
    match f
    case TooShort => |p| < 8
    case NoUppercase => !HasUpper(p)
    case NoLowercase => !HasLower(p)
    case NoDigit => !HasDigit(p)
    case NoSpecialCharacter => !HasSpecial(p)
    case Rejected(ms) => builtin != [] && ms == builtin
  }

  function PasswordMessages(f: PasswordFailure): seq<string> {
    match f
    case TooShort => ["Password must be at least 8 characters long."]
    case NoUppercase => ["Password must contain at least one uppercase letter."]
    case NoLowercase => ["Password must contain at least one lowercase letter."]
    case NoDigit => ["Password must contain at least one digit."]
    case NoSpecialCharacter => ["Password must contain at least one special character."]
    case Rejected(ms) => ms
  }

  /**
   * `validate_password` of signup, and `validate_new_password` of
   * change-password: the first failing check is reported, or `None` when
   * the password is accepted.
   */
  function PasswordPolicy(p: string, builtin: seq<string>): (r: Option<PasswordFailure>)
    ensures r.Some? ==> Fails(p, builtin, r.value)
    ensures r.Some? ==> forall f :: CheckRank(f) < CheckRank(r.value) ==> !Fails(p, builtin, f)
    ensures r.None? <==> forall f :: !Fails(p, builtin, f)
  {
    if |p| < 8 then
      assert Fails(p, builtin, TooShort);
      Some(TooShort)
    else if !Search(p, UpperCase) then
      assert Fails(p, builtin, NoUppercase);
      Some(NoUppercase)
    else if !Search(p, LowerCase) then
      assert Fails(p, builtin, NoLowercase);
      Some(NoLowercase)
    else if !Search(p, Digit) then
      assert Fails(p, builtin, NoDigit);
      Some(NoDigit)
    else if !Search(p, Special) then
      assert Fails(p, builtin, NoSpecialCharacter);
      Some(NoSpecialCharacter)
    else if builtin != [] then
      assert Fails(p, builtin, Rejected(builtin));
      Some(Rejected(builtin))
    else None
  }

  /** The policy accepts exactly the passwords with every required kind of character. */
  lemma PolicyAccepts(p: string, builtin: seq<string>)
    ensures PasswordPolicy(p, builtin).None? <==>
      |p| >= 8 && HasUpper(p) && HasLower(p) && HasDigit(p) && HasSpecial(p) && builtin == []
  {
    if builtin != [] { assert Fails(p, builtin, Rejected(builtin)); }
  }

  /** Letters, digits and the hyphen are none of the special characters. */
  lemma NotSpecial(c: char)
    requires IsLetter(c) || IsDigit(c) || c == '-'
    ensures c !in SpecialCharacters
  {
    forall j | 0 <= j < |SpecialCharacters| ensures SpecialCharacters[j] != c {
      var x := SpecialCharacters[j];
      assert !IsLetter(x) && !IsDigit(x) && x != '-';
    }
  }

  /** Worked case: a hyphen is not one of the special characters. */
  lemma PolicyRejectsHyphen()
    ensures PasswordPolicy("Passw0rd-", []) == Some(NoSpecialCharacter)
  {
    var p := "Passw0rd-";
    assert InClass(p[0], UpperCase) && InClass(p[1], LowerCase) && InClass(p[5], Digit);
    assert !Search(p, Special) by {
      forall i | 0 <= i < |p| ensures !InClass(p[i], Special) {
        assert IsLetter(p[i]) || IsDigit(p[i]) || p[i] == '-';
        NotSpecial(p[i]);
      }
    }
  }

  /** Worked case: no uppercase letter, reported before the missing digit and symbol. */
  lemma PolicyRejectsAllLower()
    ensures PasswordPolicy("password", []) == Some(NoUppercase)
  {
    var p := "password";
    assert !HasUpper(p) by {
      forall i | 0 <= i < |p| ensures !IsUpper(p[i]) {
        assert p[i] in p;
      }
    }
  }

  /** Worked case: a password with every kind of character. */
  lemma PolicyAcceptsExample()
    ensures PasswordPolicy("Passw0rd!", []) == None
  {
    var p := "Passw0rd!";
    assert IsUpper(p[0]) && IsLower(p[1]) && IsDigit(p[5]) && p[8] in SpecialCharacters;
  }

  // ---------------------------------------------------------------------
  // Email

  predicate IsLocalChar(c: char) { IsLetter(c) || IsDigit(c) || c in "._%+-" }
  predicate IsDomainChar(c: char) { IsLetter(c) || IsDigit(c) || c == '.' || c == '-' }

  predicate AllLocal(s: string) { forall i :: 0 <= i < |s| ==> IsLocalChar(s[i]) }
  predicate AllDomain(s: string) { forall i :: 0 <= i < |s| ==> IsDomainChar(s[i]) }
  predicate AllLetters(s: string) { forall i :: 0 <= i < |s| ==> IsLetter(s[i]) }

  /**
   * `s` splits as local part `s[..a]`, '@', domain `s[a+1..d]`, '.', and a
   * top-level part `s[d+1..]` of at least two letters.
   */
  predicate EmailParts(s: string, a: nat, d: nat) {
    1 <= a && a + 1 < d && d + 3 <= |s|
    && AllLocal(s[..a]) && s[a] == '@' && AllDomain(s[a + 1..d]) && s[d] == '.' && AllLetters(s[d + 1..])
  }

  /** `re.match(r'^[a-zA-Z0-9._%+-]+@[a-zA-Z0-9.-]+\.[a-zA-Z]{2,}$', s)`. */
  ghost predicate MatchesEmailPattern(s: string) {
    exists a: nat, d: nat :: EmailParts(s, a, d)
  }

  /**
   * The decision procedure: the '@' of the pattern is the first '@' (the
   * local part cannot hold one), and the '.' before the top-level part is
   * the last '.' (the top-level part is letters only).
   */
  function EmailShapeOk(s: string): bool {
    match IndexOf(s, '@')
    case None => false
    case Some(a) =>
      match LastIndexOf(s[a + 1..], '.')
      case None => false
      case Some(j) => EmailParts(s, a, a + 1 + j)
  }

  lemma EmailShapeCorrect(s: string)
    ensures EmailShapeOk(s) <==> MatchesEmailPattern(s)
  {
    if EmailShapeOk(s) {
      var a := IndexOf(s, '@').value;
      var j := LastIndexOf(s[a + 1..], '.').value;
      assert EmailParts(s, a, a + 1 + j);
    }
    if MatchesEmailPattern(s) {
      EmailShapeComplete(s);
    }
  }

  /** An address matching the pattern is split where the decision procedure looks. */
  lemma EmailShapeComplete(s: string)
    requires MatchesEmailPattern(s)
    ensures EmailShapeOk(s)
  {
    var a: nat, d: nat :| EmailParts(s, a, d);
    forall i | 0 <= i < a ensures s[i] != '@' {
      assert IsLocalChar(s[..a][i]);
    }
    IndexOfAt(s, '@', a);
    var rest, j := s[a + 1..], d - a - 1;
    forall i | j < i < |rest| ensures rest[i] != '.' {
      assert rest[i] == s[d + 1..][i - j - 1];
    }
    LastIndexOfAt(rest, '.', j);
  }

  const InvalidEmailMessage := "Please enter a valid email address."
  const DuplicateEmailMessage := "A user with this email already exists."

  /**
   * `UserSignupSerializer.validate_email`: the shape is checked first, then
   * the lower-cased address against the stored ones; an accepted address is
   * returned lower-cased.
   */
  function ValidateSignupEmail(value: string, users: map<UserId, User>): (r: Result<string, string>)
    ensures !MatchesEmailPattern(value) ==> r == Failure(InvalidEmailMessage)
    ensures MatchesEmailPattern(value) && EmailTaken(users, Lower(value)) ==> r == Failure(DuplicateEmailMessage)
    ensures r.Success? <==> MatchesEmailPattern(value) && !EmailTaken(users, Lower(value))
    ensures r.Success? ==> r.value == Lower(value) && !EmailTaken(users, r.value)
  {
    EmailShapeCorrect(value);
    if !EmailShapeOk(value) then Failure(InvalidEmailMessage)
    else if EmailTaken(users, Lower(value)) then Failure(DuplicateEmailMessage)
    else Success(Lower(value))
  }

  /** An address of the right shape starts and ends with a non-whitespace character. */
  lemma AcceptedEmailEnds(value: string)
    requires MatchesEmailPattern(value)
    ensures value != [] && !IsSpace(LowerChar(value[0])) && !IsSpace(LowerChar(value[|value| - 1]))
  {
    var a: nat, d: nat :| EmailParts(value, a, d);
    assert value[..a][0] == value[0];
    assert IsLocalChar(value[0]);
    assert value[d + 1..][|value| - d - 2] == value[|value| - 1];
    assert IsLetter(value[|value| - 1]);
  }

  /** An address of the right shape, lower-cased, is left alone by `normalize_email`. */
  lemma AcceptedEmailIsNormal(value: string)
    requires MatchesEmailPattern(value)
    ensures Lower(value) != [] && NormalizeEmail(Lower(value)) == Lower(value)
  {
    var e := Lower(value);
    LowerIdempotent(value);
    AcceptedEmailEnds(value);
    StripUnchanged(e);
    NormalizeLowerEmail(e);
  }

  /** Some user other than `me` has exactly this email. */
  predicate EmailTakenByOther(users: map<UserId, User>, email: string, me: UserId) {
    exists id | id in users && id != me :: users[id].email == email
  }

  /**
   * `UserUpdateSerializer.validate_email`: as on signup, except that the
   * requesting user's own row does not count as a duplicate.
   */
  function ValidateUpdateEmail(value: string, users: map<UserId, User>, me: UserId): (r: Result<string, string>)
    ensures !MatchesEmailPattern(value) ==> r == Failure(InvalidEmailMessage)
    ensures MatchesEmailPattern(value) && EmailTakenByOther(users, Lower(value), me) ==> r == Failure(DuplicateEmailMessage)
    ensures r.Success? <==> MatchesEmailPattern(value) && !EmailTakenByOther(users, Lower(value), me)
    ensures r.Success? ==> r.value == Lower(value)
  {
    EmailShapeCorrect(value);
    if !EmailShapeOk(value) then Failure(InvalidEmailMessage)
    else if EmailTakenByOther(users, Lower(value), me) then Failure(DuplicateEmailMessage)
    else Success(Lower(value))
  }

  /** Re-submitting one's own (stored, lower-case) email on profile update is accepted. */
  lemma OwnEmailAccepted(users: map<UserId, User>, me: UserId, value: string)
    requires EmailsUnique(users) && me in users
    requires Lower(value) == users[me].email && MatchesEmailPattern(value)
    ensures ValidateUpdateEmail(value, users, me) == Success(users[me].email)
    ensures EmailTaken(users, Lower(value))
  {
    forall id | id in users && id != me ensures users[id].email != Lower(value) {
      assert users[id].email == users[me].email ==> id == me;
    }
  }

  /** Every address accepted on signup is accepted on profile update, whoever asks. */
  lemma UpdateEmailWeaker(users: map<UserId, User>, me: UserId, value: string)
    requires ValidateSignupEmail(value, users).Success?
    ensures ValidateUpdateEmail(value, users, me) == ValidateSignupEmail(value, users)
  {
  }

  // ---------------------------------------------------------------------
  // Full name

  const FullNameMessage := "Full name must be at least 2 characters long."

  /**
   * `validate_full_name` (signup and profile update): an empty value or one
   * of fewer than two characters once stripped is refused; otherwise the
   * stripped value is returned.
   */
  function ValidateFullName(value: string): (r: Result<string, string>)
    ensures r.Failure? ==> r.error == FullNameMessage
    ensures r.Success? <==> |Strip(value)| >= 2
    ensures r.Success? ==> r.value == Strip(value)
  {
    if value == [] || |Strip(value)| < 2 then Failure(FullNameMessage) else Success(Strip(value))
  }

  /** An accepted name has no surrounding whitespace and is a slice of the input. */
  lemma FullNameTrimmed(value: string)
    requires ValidateFullName(value).Success?
    ensures var n := ValidateFullName(value).value;
      2 <= |n| <= |value| && !IsSpace(n[0]) && !IsSpace(n[|n| - 1])
      && Contains(value, n)
  {
    var i, j := StripSlice(value);
    assert Strip(value) <= value[i..];
  }

  // ---------------------------------------------------------------------
  // Signup

  datatype SignupData = SignupData(email: string, fullName: string, password: string, confirmPassword: string)
  datatype ValidSignup = ValidSignup(email: string, fullName: string, password: string)

  /** The four signup fields, each after its own whitespace trimming. */
  function TrimSignup(d: SignupData): (t: SignupData)
    ensures Strip(t.email) == t.email && Strip(t.fullName) == t.fullName
    ensures Strip(t.password) == t.password && Strip(t.confirmPassword) == t.confirmPassword
    ensures t.email == [] <==> AllSpace(d.email)
    ensures t.fullName == [] <==> AllSpace(d.fullName)
    ensures t.password == [] <==> AllSpace(d.password)
    ensures t.confirmPassword == [] <==> AllSpace(d.confirmPassword)
  {
    StripIdempotent(d.email);
    StripIdempotent(d.fullName);
    StripIdempotent(d.password);
    StripIdempotent(d.confirmPassword);
    SignupData(Strip(d.email), Strip(d.fullName), Strip(d.password), Strip(d.confirmPassword))
  }

  const PasswordsMismatchMessage := "Passwords do not match."

  /** Records the messages of a rejected field under its key; an accepted field adds nothing. */
  function AddError(m: ErrorMap, f: Field, rejected: Option<seq<string>>): (r: ErrorMap)
    ensures r.Keys == if rejected.Some? then m.Keys + {f} else m.Keys
    ensures rejected.Some? ==> r[f] == rejected.value
    ensures forall g :: g in m && g != f ==> r[g] == m[g]
  {
    if rejected.Some? then m[f := rejected.value] else m
  }

  /** The messages of a rejected single-message field, or `None`. */
  function Messages(v: Result<string, string>): Option<seq<string>> {
    if v.Failure? then Some([v.error]) else None
  }

  /** The messages of a rejected password, or `None`. */
  function PolicyMessages(p: Option<PasswordFailure>): Option<seq<string>> {
    if p.Some? then Some(PasswordMessages(p.value)) else None
  }

  /**
   * The errors of the signup field validators, all collected before
   * `validate` runs, given what each validator returned.
   */
  function SignupFieldErrors(email: Result<string, string>, fullName: Result<string, string>,
                             password: Option<PasswordFailure>): (errs: ErrorMap)
    ensures EmailField in errs <==> email.Failure?
    ensures FullNameField in errs <==> fullName.Failure?
    ensures PasswordField in errs <==> password.Some?
    ensures EmailField in errs ==> errs[EmailField] == [email.error]
    ensures FullNameField in errs ==> errs[FullNameField] == [fullName.error]
    ensures PasswordField in errs ==> errs[PasswordField] == PasswordMessages(password.value)
    ensures errs.Keys <= {EmailField, FullNameField, PasswordField}
    ensures errs.Keys == {} <==> email.Success? && fullName.Success? && password.None?
  {
    var m := AddError(map[], EmailField, Messages(email));
    var m := AddError(m, FullNameField, Messages(fullName));
    AddError(m, PasswordField, PolicyMessages(password))
  }

  /**
   * `UserSignupSerializer.is_valid`: the field errors if there are any,
   * otherwise the password/confirmation comparison of `validate`, keyed on
   * `confirm_password`.
   */
  function ValidateSignup(d: SignupData, users: map<UserId, User>, builtin: seq<string>): (r: Result<ValidSignup, ErrorMap>)
    ensures r.Success? <==>
      ValidateSignupEmail(d.email, users).Success? && ValidateFullName(d.fullName).Success?
      && PasswordPolicy(d.password, builtin).None? && d.password == d.confirmPassword
    ensures r.Success? ==>
      r.value.email == Lower(d.email) && !EmailTaken(users, r.value.email)
      && r.value.fullName == Strip(d.fullName) && |r.value.fullName| >= 2
      && r.value.password == d.password == d.confirmPassword
    ensures var errs := SignupFieldErrors(ValidateSignupEmail(d.email, users), ValidateFullName(d.fullName),
                                          PasswordPolicy(d.password, builtin));
      (errs.Keys != {} ==> r == Failure(errs))
      && (errs.Keys == {} && d.password != d.confirmPassword ==>
            r == Failure(map[ConfirmPasswordField := [PasswordsMismatchMessage]]))
  {
    var errs := SignupFieldErrors(ValidateSignupEmail(d.email, users), ValidateFullName(d.fullName),
                                  PasswordPolicy(d.password, builtin));
    if errs.Keys != {} then Failure(errs)
    else
      if d.password != d.confirmPassword then
        Failure(map[ConfirmPasswordField := [PasswordsMismatchMessage]])
      else
        Success(ValidSignup(ValidateSignupEmail(d.email, users).value, ValidateFullName(d.fullName).value, d.password))
  }

  /** The keyword arguments `create` passes beside email and password. */
  function SignupExtra(v: ValidSignup): ExtraFields {
    ExtraFields(fullName := Some(v.fullName), role := None, status := None, isStaff := None, isSuperuser := None)
  }

  /**
   * `UserSignupSerializer.create`: drops the confirmation and calls
   * `create_user` with the cleaned email, password and full name. The new
   * user is an active regular user carrying the cleaned full name.
   */
  method CreateFromSignup(store: UserStore, v: ValidSignup, now: Time) returns (r: Result<UserId, CreateError>)
    requires store.Valid()
    modifies store
    ensures store.Valid()
    ensures r.Success? <==> v.email != [] && !EmailTaken(old(store.users), NormalizeEmail(v.email))
    ensures r.Failure? ==> store.users == old(store.users) && store.nextId == old(store.nextId)
    ensures r.Success? ==>
      r.value == old(store.nextId) && store.nextId == old(store.nextId) + 1
      && store.users == old(store.users)[r.value := NewUser(r.value, NormalizeEmail(v.email), Some(v.password), SignupExtra(v), now)]
    ensures r.Success? ==>
      var u := store.users[r.value];
      u.role == Regular && u.status == Active && u.fullName == v.fullName && u.password == Hashed(v.password)
  {
    r := store.CreateUser(v.email, Some(v.password), SignupExtra(v), now);
  }

  /** A mismatch alone is reported on `confirm_password` and nowhere else. */
  lemma SignupMismatchKeyedOnConfirm(d: SignupData, users: map<UserId, User>, builtin: seq<string>)
    requires ValidateSignupEmail(d.email, users).Success? && ValidateFullName(d.fullName).Success?
    requires PasswordPolicy(d.password, builtin).None?
    requires d.password != d.confirmPassword
    ensures ValidateSignup(d, users, builtin) == Failure(map[ConfirmPasswordField := [PasswordsMismatchMessage]])
  {
  }

  /** An email already stored (in its lower-case form) always makes signup fail. */
  lemma SignupDuplicateFails(d: SignupData, users: map<UserId, User>, builtin: seq<string>)
    requires EmailTaken(users, Lower(d.email))
    ensures ValidateSignup(d, users, builtin).Failure?
    ensures EmailField in ValidateSignup(d, users, builtin).error
  {
  }

  // ---------------------------------------------------------------------
  // Login

  /** Python truthiness of an optional string: present and non-empty. */
  predicate Truthy(o: Option<string>) { o.Some? && o.value != [] }

  const BothRequiredMessage := "Both email and password are required."
  const InvalidCredentialsMessage := "Invalid email or password."
  const DeactivatedMessage := "Your account has been deactivated. Please contact an administrator."

  /**
   * `UserLoginSerializer.validate`. `authenticate` stands for Django's
   * authentication backend: it maps an email and a password to the id of
   * the stored user they identify, if any. The email reaching it has already
   * been lower-cased by `validate_email`.
   */
  function ValidateLogin(email: Option<string>, password: Option<string>, users: map<UserId, User>,
                         authenticate: (string, string) -> Option<UserId>): (r: Result<UserId, ErrorMap>)
    requires forall e, p :: authenticate(e, p).Some? ==> authenticate(e, p).value in users
    ensures !(Truthy(email) && Truthy(password)) ==> r == Failure(map[DetailField := [BothRequiredMessage]])
    ensures Truthy(email) && Truthy(password) && authenticate(Lower(email.value), password.value).None? ==>
      r == Failure(map[DetailField := [InvalidCredentialsMessage]])
    ensures r.Success? <==>
      Truthy(email) && Truthy(password) && authenticate(Lower(email.value), password.value).Some?
      && users[authenticate(Lower(email.value), password.value).value].status == Active
    ensures r.Success? ==> r == Success(authenticate(Lower(email.value), password.value).value)
    ensures r.Failure? ==> r.error.Keys == {DetailField} && |r.error[DetailField]| == 1
  {
    var e := if email.Some? then Some(Lower(email.value)) else None;
    assert Truthy(e) <==> Truthy(email);
    if Truthy(e) && Truthy(password) then
      match authenticate(e.value, password.value)
      case None => Failure(map[DetailField := [InvalidCredentialsMessage]])
      case Some(id) =>
        if users[id].status == Inactive then Failure(map[DetailField := [DeactivatedMessage]])
        else
          assert e.value == Lower(email.value);
          assert authenticate(Lower(email.value), password.value) == Some(id);
          assert users[id].status == Active;
          Success(id)
    else Failure(map[DetailField := [BothRequiredMessage]])
  }

  /**
   * An unknown email and a wrong password are answered alike: whenever the
   * backend identifies nobody, the error does not depend on the request.
   */
  lemma LoginHidesIdentity(e1: string, p1: string, e2: string, p2: string, users: map<UserId, User>,
                           authenticate: (string, string) -> Option<UserId>)
    requires forall e, p :: authenticate(e, p).Some? ==> authenticate(e, p).value in users
    requires e1 != [] && p1 != [] && e2 != [] && p2 != []
    requires authenticate(Lower(e1), p1).None? && authenticate(Lower(e2), p2).None?
    ensures ValidateLogin(Some(e1), Some(p1), users, authenticate) == ValidateLogin(Some(e2), Some(p2), users, authenticate)
  {
  }

  /** A deactivated account whose credentials are right gets the deactivated message. */
  lemma LoginInactive(email: string, password: string, users: map<UserId, User>,
                      authenticate: (string, string) -> Option<UserId>)
    requires forall e, p :: authenticate(e, p).Some? ==> authenticate(e, p).value in users
    requires email != [] && password != []
    requires authenticate(Lower(email), password).Some?
    requires users[authenticate(Lower(email), password).value].status == Inactive
    ensures ValidateLogin(Some(email), Some(password), users, authenticate) == Failure(map[DetailField := [DeactivatedMessage]])
  {
  }

  // ---------------------------------------------------------------------
  // Change password

  datatype ChangePasswordData = ChangePasswordData(current: string, newPassword: string, confirm: string)

  const WrongCurrentMessage := "Current password is incorrect."
  const NewMismatchMessage := "New passwords do not match."
  const SameAsCurrentMessage := "New password must be different from current password."

  /**
   * The errors of the `ChangePasswordSerializer` field validators, given
   * whether the current password checks and what the policy returned.
   */
  function ChangePasswordFieldErrors(currentChecks: bool, newPassword: Option<PasswordFailure>): (errs: ErrorMap)
    ensures CurrentPasswordField in errs <==> !currentChecks
    ensures NewPasswordField in errs <==> newPassword.Some?
    ensures CurrentPasswordField in errs ==> errs[CurrentPasswordField] == [WrongCurrentMessage]
    ensures NewPasswordField in errs ==> errs[NewPasswordField] == PasswordMessages(newPassword.value)
    ensures errs.Keys <= {CurrentPasswordField, NewPasswordField}
    ensures errs.Keys == {} <==> currentChecks && newPassword.None?
  {
    var m := AddError(map[], CurrentPasswordField, if currentChecks then None else Some([WrongCurrentMessage]));
    AddError(m, NewPasswordField, PolicyMessages(newPassword))
  }

  /**
   * `ChangePasswordSerializer.is_valid`: field errors first; then a
   * new/confirm mismatch (on `confirm_new_password`) is reported before the
   * new password equal to the current one (on `new_password`). The result is
   * the new password.
   */
  function ValidateChangePassword(d: ChangePasswordData, user: User, builtin: seq<string>): (r: Result<string, ErrorMap>)
    ensures r.Success? <==>
      CheckPassword(user, d.current) && PasswordPolicy(d.newPassword, builtin).None?
      && d.newPassword == d.confirm && d.newPassword != d.current
    ensures r.Success? ==> r.value == d.newPassword
    ensures var errs := ChangePasswordFieldErrors(CheckPassword(user, d.current), PasswordPolicy(d.newPassword, builtin));
      (errs.Keys != {} ==> r == Failure(errs))
      && (errs.Keys == {} && d.newPassword != d.confirm ==>
            r == Failure(map[ConfirmNewPasswordField := [NewMismatchMessage]]))
      && (errs.Keys == {} && d.newPassword == d.confirm && d.newPassword == d.current ==>
            r == Failure(map[NewPasswordField := [SameAsCurrentMessage]]))
  {
    var errs := ChangePasswordFieldErrors(CheckPassword(user, d.current), PasswordPolicy(d.newPassword, builtin));
    if errs.Keys != {} then Failure(errs)
    else
      if d.newPassword != d.confirm then Failure(map[ConfirmNewPasswordField := [NewMismatchMessage]])
      else if d.current == d.newPassword then Failure(map[NewPasswordField := [SameAsCurrentMessage]])
      else Success(d.newPassword)
  }

  /** A wrong current password is always refused, on `current_password`. */
  lemma ChangePasswordWrongCurrent(d: ChangePasswordData, user: User, builtin: seq<string>)
    requires !CheckPassword(user, d.current)
    ensures ValidateChangePassword(d, user, builtin).Failure?
    ensures CurrentPasswordField in ValidateChangePassword(d, user, builtin).error
  {
  }

  /** With valid fields, the mismatch check wins over the same-as-current check. */
  lemma ChangePasswordCheckOrder(d: ChangePasswordData, user: User, builtin: seq<string>)
    requires CheckPassword(user, d.current) && PasswordPolicy(d.newPassword, builtin).None?
    ensures d.newPassword != d.confirm ==>
      ValidateChangePassword(d, user, builtin) == Failure(map[ConfirmNewPasswordField := [NewMismatchMessage]])
    ensures d.newPassword == d.confirm && d.newPassword == d.current ==>
      ValidateChangePassword(d, user, builtin) == Failure(map[NewPasswordField := [SameAsCurrentMessage]])
  {
  }

  // ---------------------------------------------------------------------
  // Admin status update

  const StatusChoiceMessage := "Status must be either \"active\" or \"inactive\"."

  /** `AdminUserUpdateSerializer.validate_status`: only the two status names pass. */
  function ValidateStatus(value: string): (r: Result<Status, string>)
    ensures r.Success? <==> value == "active" || value == "inactive"
    ensures r.Success? ==> StatusName(r.value) == value
    ensures r.Failure? ==> r.error == StatusChoiceMessage
  {
    if value == "active" then Success(Active)
    else if value == "inactive" then Success(Inactive)
    else Failure(StatusChoiceMessage)
  }
}
