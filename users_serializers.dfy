/**
 * Registration, the field-by-field account update and the student-parent link check,
 * over an in-memory copy of the accounts tables.
 */
module UserSerializers {
  import opened Common
  import opened Text
  import opened Fields
  import opened UserModels

  // ---------------------------------------------------------------------------
  // Invariants of the accounts tables
  // ---------------------------------------------------------------------------

  /** Every profile belongs to an existing user. */
  ghost predicate ProfilesOwned(d: Directory)
  {
    forall p :: p in d.profiles ==> exists u :: u in d.users && u.id == p.userId
  }

  /** What the database guarantees of the accounts tables. */
  ghost predicate DirectoryValid(d: Directory)
  {
    && AccountsUnique(d.users)
    && OneProfilePerUser(d.profiles)
    && ProfilesOwned(d)
  }

  predicate EmailFree(users: seq<User>, email: string)
  {
    forall u :: u in users ==> u.email != email
  }

  predicate UsernameFree(users: seq<User>, username: string)
  {
    forall u :: u in users ==> u.username != username
  }

  /** The accounts the unique validators compare with on an update: every one but the
      requester's own. */
  function Others(users: seq<User>, me: Id): (r: seq<User>)
    ensures forall u :: u in r <==> u in users && u.id != me
  {
    Filter(users, (u: User) => u.id != me)
  }

  // ---------------------------------------------------------------------------
  // The account fields of a request body
  // ---------------------------------------------------------------------------

  /** The validators the account fields carry besides length and uniqueness:
      `UnicodeUsernameValidator` on `username`, `EmailValidator` on `email` and
      `validate_password` on `password`. */
  datatype Validators = Validators(username: string -> bool, email: string -> bool, password: string -> bool)

  /** A key of the account request bodies. */
  datatype AccountField =
    | UsernameKey | EmailKey | FullNameKey | PasswordKey | Password2Key | RoleKey | ProfileKey
    | ClassNumberKey | ClassLetterKey | PhoneKey | AddressKey

  datatype AccountError =
    | Invalid(field: AccountField, why: FieldError)
    | PasswordRejected   // the `validate_password` validator of `password`
    | PasswordsDiffer    // `RegisterSerializer.validate`: password != password2
    | NoProfile          // `instance.profile` raised: the user has no profile row

  /** Column widths: AbstractUser's `username`, the default `EmailField`, `full_name`. */
  const UsernameLength: nat := 150
  const EmailLength: nat := 254
  const FullNameLength: nat := 255

  /** `username` is accepted against the accounts `others`. */
  predicate UsernameAccepted(others: seq<User>, v: Supplied<string>, ok: Validators)
  {
    AcceptedText(v, Some(UsernameLength)) && ok.username(Strip(v.v)) && UsernameFree(others, Strip(v.v))
  }

  /** `email` is accepted against the accounts `others`. */
  predicate EmailAccepted(others: seq<User>, v: Supplied<string>, ok: Validators)
  {
    AcceptedText(v, Some(EmailLength)) && ok.email(Strip(v.v)) && EmailFree(others, Strip(v.v))
  }

  /** `username`: a `CharField` of at most 150 characters matching the username pattern,
      unique once stripped. */
  function CheckUsername(others: seq<User>, v: Supplied<string>, ok: Validators): (r: Result<string, FieldError>)
    ensures r.Ok? <==> UsernameAccepted(others, v, ok)
    ensures r.Ok? ==> r.value == Strip(v.v) && forall u :: u in others ==> u.username != r.value
  {
    match CheckText(v, Some(UsernameLength))
    case Err(e) => Err(e)
    case Ok(t) =>
      if !ok.username(t) then Err(BadFormat)
      else if !UsernameFree(others, t) then Err(NotUnique)
      else Ok(t)
  }

  /** `email`: an `EmailField` of at most 254 characters that is a valid address, unique once
      stripped. */
  function CheckEmail(others: seq<User>, v: Supplied<string>, ok: Validators): (r: Result<string, FieldError>)
    ensures r.Ok? <==> EmailAccepted(others, v, ok)
    ensures r.Ok? ==> r.value == Strip(v.v) && forall u :: u in others ==> u.email != r.value
  {
    match CheckText(v, Some(EmailLength))
    case Err(e) => Err(e)
    case Ok(t) =>
      if !ok.email(t) then Err(BadFormat)
      else if !EmailFree(others, t) then Err(NotUnique)
      else Ok(t)
  }

  /** `role`: a required choice field; the value is taken as given, without stripping. */
  function CheckRole(v: Supplied<string>): (r: Result<Role, FieldError>)
    ensures r.Ok? <==> v.Given? && v.v in {"teacher", "parent", "student"}
    ensures r.Ok? ==> IsChoice(r.value) && RoleValue(r.value) == v.v
  {
    match v
    case Omitted => Err(Required)
    case Null => Err(NotNull)
    case Given(s) => if IsChoice(RoleOf(s)) then Ok(RoleOf(s)) else Err(NotAChoice)
  }

  /** The nested `profile` object of a body: each key left out, null, or given. */
  datatype ProfileRequest = ProfileRequest(
    classNumber: Supplied<int>,
    classLetter: Supplied<string>,
    phone: Supplied<string>,
    address: Supplied<string>)

  /** Every given profile key fits its column: a small non-negative class number, a letter of
      at most one character and a phone of at most 15 once stripped, no NUL in any text. */
  predicate ProfileAccepted(p: ProfileRequest)
  {
    && ClassNumberNatural(p) && (p.classNumber.Given? ==> p.classNumber.v <= MaxSmallInt)
    && (p.classLetter.Given? ==> TextFits(Strip(p.classLetter.v), Some(1)))
    && (p.phone.Given? ==> TextFits(Strip(p.phone.v), Some(15)))
    && (p.address.Given? ==> TextFits(Strip(p.address.v), None))
  }

  /** A given class number is not negative. */
  predicate ClassNumberNatural(p: ProfileRequest)
  {
    p.classNumber.Given? ==> 0 <= p.classNumber.v
  }

  /** What the validated data holds for profile attribute `a`: nothing when the key was left
      out, an empty value for null, the (stripped) value otherwise. */
  function SuppliedProfileValue(p: ProfileRequest, a: ProfileAttr): Option<ProfileField>
    requires ClassNumberNatural(p)
  {
    match a
    case ClassNumberAttr =>
      if p.classNumber.Omitted? then None
      else Some(ClassNumber(if p.classNumber.Given? then Some(p.classNumber.v as nat) else None))
    case ClassLetterAttr => if p.classLetter.Omitted? then None else Some(ClassLetter(NullableText(p.classLetter)))
    case PhoneAttr => if p.phone.Omitted? then None else Some(Phone(NullableText(p.phone)))
    case AddressAttr => if p.address.Omitted? then None else Some(Address(NullableText(p.address)))
  }

  /** A nullable text column as a supplied key sets it: stripped, or empty for null. */
  function NullableText(v: Supplied<string>): Option<string>
  {
    if v.Given? then Some(Strip(v.v)) else None
  }

  /** `SuppliedProfileValue` as a piece of the validated data. */
  function ProfilePiece(p: ProfileRequest, a: ProfileAttr): (r: seq<ProfileField>)
    requires ClassNumberNatural(p)
    ensures |r| <= 1
    ensures r == [] <==> SuppliedProfileValue(p, a).None?
    ensures r != [] ==> ProfileAttrOf(r[0]) == a && SuppliedProfileValue(p, a) == Some(r[0])
  {
    match SuppliedProfileValue(p, a)
    case None => []
    case Some(f) => [f]
  }

  /** The validated profile data, one entry per supplied key in declaration order. */
  function ProfileFieldsOf(p: ProfileRequest): seq<ProfileField>
    requires ClassNumberNatural(p)
  {
    ProfilePiece(p, ClassNumberAttr) + ProfilePiece(p, ClassLetterAttr) + ProfilePiece(p, PhoneAttr)
    + ProfilePiece(p, AddressAttr)
  }

  /** `ProfileSerializer.is_valid`: the keys checked in declaration order. */
  function CheckProfile(p: ProfileRequest): (r: Result<seq<ProfileField>, (AccountField, FieldError)>)
    ensures r.Ok? <==> ProfileAccepted(p)
    ensures r.Ok? ==> forall f :: f in r.value ==> ProfileFieldValid(f)
    ensures r.Ok? ==> forall a :: LastProfileField(r.value, a) == SuppliedProfileValue(p, a)
    ensures p.classNumber.Given? && p.classNumber.v < 0 ==> r == Err((ClassNumberKey, OutOfRange))
  {
    if p.classNumber.Given? && !(0 <= p.classNumber.v <= MaxSmallInt) then Err((ClassNumberKey, OutOfRange))
    else if CheckNullableText(p.classLetter, Some(1)).Err? then
      Err((ClassLetterKey, CheckNullableText(p.classLetter, Some(1)).error))
    else if CheckNullableText(p.phone, Some(15)).Err? then
      Err((PhoneKey, CheckNullableText(p.phone, Some(15)).error))
    else if CheckNullableText(p.address, None).Err? then
      Err((AddressKey, CheckNullableText(p.address, None).error))
    else
      ProfileFieldsFacts(p);
      Ok(ProfileFieldsOf(p))
  }

  /** The validated profile data sets each attribute as `SuppliedProfileValue` says, within
      the column limits. */
  lemma ProfileFieldsFacts(p: ProfileRequest)
    requires ProfileAccepted(p)
    ensures forall f :: f in ProfileFieldsOf(p) ==> ProfileFieldValid(f)
    ensures forall a :: LastProfileField(ProfileFieldsOf(p), a) == SuppliedProfileValue(p, a)
  {
    forall a ensures LastProfileField(ProfileFieldsOf(p), a) == SuppliedProfileValue(p, a) {
      ProfileFieldFact(p, a);
    }
  }

  lemma ProfileFieldFact(p: ProfileRequest, a: ProfileAttr)
    requires ClassNumberNatural(p)
    ensures LastProfileField(ProfileFieldsOf(p), a) == SuppliedProfileValue(p, a)
  {
    var n, l, ph, ad := ProfilePiece(p, ClassNumberAttr), ProfilePiece(p, ClassLetterAttr),
                        ProfilePiece(p, PhoneAttr), ProfilePiece(p, AddressAttr);
    ProfileFieldsBeforeAddress(p, a);
    LastProfileFieldPiece(n + l + ph, ad, a);
  }

  /** The class number, letter and phone pieces set each of those attributes as supplied. */
  lemma ProfileFieldsBeforeAddress(p: ProfileRequest, a: ProfileAttr)
    requires ClassNumberNatural(p)
    ensures var n, l, ph := ProfilePiece(p, ClassNumberAttr), ProfilePiece(p, ClassLetterAttr), ProfilePiece(p, PhoneAttr);
      LastProfileField(n + l + ph, a) == if a == AddressAttr then None else SuppliedProfileValue(p, a)
  {
    var n, l, ph := ProfilePiece(p, ClassNumberAttr), ProfilePiece(p, ClassLetterAttr), ProfilePiece(p, PhoneAttr);
    ProfileFieldsBeforePhone(p, a);
    LastProfileFieldPiece(n + l, ph, a);
  }

  /** The class number and letter pieces set those two attributes as supplied. */
  lemma ProfileFieldsBeforePhone(p: ProfileRequest, a: ProfileAttr)
    requires ClassNumberNatural(p)
    ensures var n, l := ProfilePiece(p, ClassNumberAttr), ProfilePiece(p, ClassLetterAttr);
      LastProfileField(n + l, a) ==
        if a == ClassNumberAttr || a == ClassLetterAttr then SuppliedProfileValue(p, a) else None
  {
    var n, l := ProfilePiece(p, ClassNumberAttr), ProfilePiece(p, ClassLetterAttr);
    assert LastProfileField(n, a) == if a == ClassNumberAttr then SuppliedProfileValue(p, a) else None by {
      if n != [] {
        assert n[..|n| - 1] == [];
      }
    }
    LastProfileFieldPiece(n, l, a);
  }

  /** Appending at most one field: the last entry for `attr` is that field if it sets `attr`. */
  lemma LastProfileFieldPiece(x: seq<ProfileField>, q: seq<ProfileField>, attr: ProfileAttr)
    requires |q| <= 1
    ensures LastProfileField(x + q, attr) ==
      if q != [] && ProfileAttrOf(q[0]) == attr then Some(q[0]) else LastProfileField(x, attr)
  {
    if q == [] {
      assert x + q == x;
    } else {
      assert (x + q)[..|x + q| - 1] == x;
    }
  }

  // ---------------------------------------------------------------------------
  // RegisterSerializer
  // ---------------------------------------------------------------------------

  /** The nested profile data of a registration; absent keys are `None`. */
  datatype ProfileData = ProfileData(
    classNumber: Option<nat>,
    classLetter: Option<string>,
    phone: Option<string>,
    address: Option<string>)

  /** The `defaults` dictionary built from an accepted nested profile: a given key gives its
      (stripped) value, a null or omitted key leaves the column empty. */
  function DefaultsOf(p: ProfileRequest): ProfileData
    requires ProfileAccepted(p)
  {
    ProfileData(
      if p.classNumber.Given? then Some(p.classNumber.v as nat) else None,
      if p.classLetter.Given? then Some(Strip(p.classLetter.v)) else None,
      if p.phone.Given? then Some(Strip(p.phone.v)) else None,
      if p.address.Given? then Some(Strip(p.address.v)) else None)
  }

  /** A registration body. The avatar upload is its stored name. */
  datatype RegisterRequest = RegisterRequest(
    username: Supplied<string>,
    email: Supplied<string>,
    fullName: Supplied<string>,
    password: Supplied<string>,
    password2: Supplied<string>,
    role: Supplied<string>,
    avatar: Supplied<string>,
    profile: Supplied<ProfileRequest>)

  /** The validated data: `validate` has popped `password2`, so this record has no such field. */
  datatype RegisterData = RegisterData(
    username: string,
    email: string,
    fullName: string,
    password: string,
    role: Role,
    avatar: Option<string>,
    profile: Option<ProfileData>)

  /** Every field of a registration body passes its own checks. */
  predicate RegistrationFieldsAccepted(users: seq<User>, req: RegisterRequest, ok: Validators)
  {
    && UsernameAccepted(users, req.username, ok)
    && EmailAccepted(users, req.email, ok)
    && AcceptedText(req.fullName, Some(FullNameLength))
    && AcceptedText(req.password, None) && ok.password(Strip(req.password.v))
    && AcceptedText(req.password2, None)
    && req.role.Given? && req.role.v in {"teacher", "parent", "student"}
    && !req.profile.Null? && (req.profile.Given? ==> ProfileAccepted(req.profile.v))
  }

  /**
   * `RegisterSerializer.is_valid()`: the field checks in declaration order, then `validate`,
   * which compares the two stripped passwords and pops `password2`.
   */
  function ValidateRegistration(users: seq<User>, req: RegisterRequest, ok: Validators)
    : (r: Result<RegisterData, AccountError>)
    ensures r.Ok? <==> RegistrationFieldsAccepted(users, req, ok) && Strip(req.password.v) == Strip(req.password2.v)
    ensures RegistrationFieldsAccepted(users, req, ok) && Strip(req.password.v) != Strip(req.password2.v) ==>
      r == Err(PasswordsDiffer)
    ensures r.Ok? ==>
      && r.value.username == Strip(req.username.v) && r.value.email == Strip(req.email.v)
      && r.value.fullName == Strip(req.fullName.v) && r.value.password == Strip(req.password.v)
      && r.value.role == RoleOf(req.role.v) && IsChoice(r.value.role)
      && r.value.avatar == (if req.avatar.Given? then Some(req.avatar.v) else None)
      && (r.value.profile.Some? <==> req.profile.Given?)
      && (req.profile.Given? ==> r.value.profile.value == DefaultsOf(req.profile.v))
  {
    match CheckUsername(users, req.username, ok)
    case Err(e) => Err(Invalid(UsernameKey, e))
    case Ok(username) =>
    match CheckEmail(users, req.email, ok)
    case Err(e) => Err(Invalid(EmailKey, e))
    case Ok(email) =>
    match CheckText(req.fullName, Some(FullNameLength))
    case Err(e) => Err(Invalid(FullNameKey, e))
    case Ok(fullName) =>
    match CheckText(req.password, None)
    case Err(e) => Err(Invalid(PasswordKey, e))
    case Ok(password) =>
    if !ok.password(password) then Err(PasswordRejected)
    else
    match CheckText(req.password2, None)
    case Err(e) => Err(Invalid(Password2Key, e))
    case Ok(password2) =>
    match CheckRole(req.role)
    case Err(e) => Err(Invalid(RoleKey, e))
    case Ok(role) =>
    var avatar := if req.avatar.Given? then Some(req.avatar.v) else None;
    match req.profile
    case Null => Err(Invalid(ProfileKey, NotNull))
    case Omitted =>
      if password != password2 then Err(PasswordsDiffer)
      else Ok(RegisterData(username, email, fullName, password, role, avatar, None))
    case Given(p) =>
      match CheckProfile(p)
      case Err((key, e)) => Err(Invalid(key, e))
      case Ok(_) =>
        if password != password2 then Err(PasswordsDiffer)
        else Ok(RegisterData(username, email, fullName, password, role, avatar, Some(DefaultsOf(p))))
  }

  /** `Profile.objects.get_or_create(user=user, defaults=profile_data or {})`. */
  function GetOrCreateProfile(profiles: seq<Profile>, userId: Id, defaults: Option<ProfileData>)
    : (r: (seq<Profile>, Profile))
  {
    match ProfileOf(profiles, userId)
    case Some(p) => (profiles, p)
    case None =>
      var d := defaults.GetOr(ProfileData(None, None, None, None));
      var p := Profile(NextKey(profiles, (q: Profile) => q.id), userId,
                       d.classNumber, d.classLetter, d.phone, d.address);
      (profiles + [p], p)
  }

  /** An existing profile is returned and kept as it is; otherwise one new profile carrying the
      defaults is added. Either way the user then has exactly one profile. */
  lemma GetOrCreateProfileFacts(profiles: seq<Profile>, userId: Id, defaults: Option<ProfileData>)
    requires OneProfilePerUser(profiles)
    ensures var (profiles', p) := GetOrCreateProfile(profiles, userId, defaults);
      && OneProfilePerUser(profiles')
      && ProfileOf(profiles', userId) == Some(p)
      && (ProfileOf(profiles, userId).Some? ==> profiles' == profiles)
      && (ProfileOf(profiles, userId).None? ==>
            && profiles' == profiles + [p]
            && (defaults.Some? ==>
                  p.classNumber == defaults.value.classNumber && p.classLetter == defaults.value.classLetter
                  && p.phone == defaults.value.phone && p.address == defaults.value.address))
  {
    var (profiles', p) := GetOrCreateProfile(profiles, userId, defaults);
    if ProfileOf(profiles, userId).None? {
      AppendNextKeyDistinct(profiles, (q: Profile) => q.id, p);
      assert KeysDistinct(profiles, (q: Profile) => q.id);
      ProfileOfAppend(profiles, p, userId);
    }
  }

  lemma {:induction false} ProfileOfAppend(profiles: seq<Profile>, p: Profile, userId: Id)
    requires ProfileOf(profiles, userId).None? && p.userId == userId
    ensures ProfileOf(profiles + [p], userId) == Some(p)
  {
    if profiles != [] {
      assert (profiles + [p])[1..] == profiles[1..] + [p];
      ProfileOfAppend(profiles[1..], p, userId);
    }
  }

  /** The user row `create` inserts: the given fields, the password through `hash`. */
  function NewUser(id: Id, data: RegisterData, hash: string -> string): User
  {
    User(id, data.username, data.email, data.fullName, data.role, hash(data.password), data.avatar)
  }

  /** `RegisterSerializer.create`: insert the user, then get or create its profile. */
  function Registered(d: Directory, data: RegisterData, hash: string -> string): (r: (Directory, User))
  {
    var u := NewUser(NextKey(d.users, (v: User) => v.id), data, hash);
    var (profiles', _) := GetOrCreateProfile(d.profiles, u.id, data.profile);
    (Directory(d.users + [u], profiles', d.links), u)
  }

  /** A registration of a free e-mail and username appends exactly one user, with the given
      fields and the hashed password, leaves the links alone, gives the new user exactly one
      profile, and keeps the tables valid. */
  lemma RegisteredFacts(d: Directory, data: RegisterData, hash: string -> string)
    requires DirectoryValid(d)
    requires EmailFree(d.users, data.email) && UsernameFree(d.users, data.username)
    ensures var (d', u) := Registered(d, data, hash);
      && DirectoryValid(d')
      && d'.users == d.users + [u]
      && d'.links == d.links
      && u.username == data.username && u.email == data.email && u.fullName == data.fullName
      && u.role == data.role && u.avatar == data.avatar && u.password == hash(data.password)
      && ProfileOf(d'.profiles, u.id).Some?
      && |d'.profiles| == |d.profiles| + 1
  {
    var (d', u) := Registered(d, data, hash);
    assert ProfileOf(d.profiles, u.id).None? by {
      forall p | p in d.profiles ensures p.userId != u.id {
        var v :| v in d.users && v.id == p.userId;
      }
    }
    GetOrCreateProfileFacts(d.profiles, u.id, data.profile);
    AppendUserKeepsUnique(d.users, u);
  }

  /** Appending an account whose key, e-mail and username no row has keeps the accounts unique. */
  lemma AppendUserKeepsUnique(users: seq<User>, u: User)
    requires AccountsUnique(users)
    requires forall k :: 0 <= k < |users| ==> users[k].id != u.id
    requires EmailFree(users, u.email) && UsernameFree(users, u.username)
    ensures AccountsUnique(users + [u])
  {
    var users' := users + [u];
    forall i, j | 0 <= i < j < |users'|
      ensures users'[i].id != users'[j].id && users'[i].email != users'[j].email
           && users'[i].username != users'[j].username
    {
      assert users'[i] == users[i];
      if j < |users| { assert users'[j] == users[j]; }
    }
  }

  // ---------------------------------------------------------------------------
  // UserUpdateSerializer.update: setattr over the supplied fields
  // ---------------------------------------------------------------------------

  /** One supplied account field with its value. */
  datatype UserField =
    | Username(username: string)
    | Email(email: string)
    | FullName(fullName: string)
    | RoleField(role: Role)
    | Avatar(avatar: Option<string>)

  datatype UserAttr = UsernameAttr | EmailAttr | FullNameAttr | RoleAttr | AvatarAttr

  function UserAttrOf(f: UserField): UserAttr
  {
    match f
    case Username(_) => UsernameAttr
    case Email(_) => EmailAttr
    case FullName(_) => FullNameAttr
    case RoleField(_) => RoleAttr
    case Avatar(_) => AvatarAttr
  }

  /** `getattr(user, attr)`, as a field value. */
  function GetUserField(u: User, a: UserAttr): (f: UserField)
    ensures UserAttrOf(f) == a
  {
    match a
    case UsernameAttr => Username(u.username)
    case EmailAttr => Email(u.email)
    case FullNameAttr => FullName(u.fullName)
    case RoleAttr => RoleField(u.role)
    case AvatarAttr => Avatar(u.avatar)
  }

  /** `setattr(user, attr, value)`: that attribute takes the value, nothing else changes. */
  function SetUserField(u: User, f: UserField): (v: User)
    ensures v.id == u.id && v.password == u.password
    ensures GetUserField(v, UserAttrOf(f)) == f
    ensures forall a :: a != UserAttrOf(f) ==> GetUserField(v, a) == GetUserField(u, a)
  {
    match f
    case Username(x) => u.(username := x)
    case Email(x) => u.(email := x)
    case FullName(x) => u.(fullName := x)
    case RoleField(x) => u.(role := x)
    case Avatar(x) => u.(avatar := x)
  }

  /** A user row is determined by its key, its password and the five editable attributes. */
  lemma UserDeterminedByAttrs(u: User, v: User)
    requires u.id == v.id && u.password == v.password
    requires forall a :: GetUserField(u, a) == GetUserField(v, a)
    ensures u == v
  {
    assert GetUserField(u, UsernameAttr) == GetUserField(v, UsernameAttr);
    assert GetUserField(u, EmailAttr) == GetUserField(v, EmailAttr);
    assert GetUserField(u, FullNameAttr) == GetUserField(v, FullNameAttr);
    assert GetUserField(u, RoleAttr) == GetUserField(v, RoleAttr);
    assert GetUserField(u, AvatarAttr) == GetUserField(v, AvatarAttr);
  }

  /** The last field of `fields` that sets attribute `a`, if any. */
  function LastUserField(fields: seq<UserField>, a: UserAttr): (r: Option<UserField>)
    ensures r.Some? ==> r.value in fields && UserAttrOf(r.value) == a
    ensures r.None? ==> forall f :: f in fields ==> UserAttrOf(f) != a
  {
    if fields == [] then None
    else if UserAttrOf(fields[|fields| - 1]) == a then Some(fields[|fields| - 1])
    else
      var r := LastUserField(fields[..|fields| - 1], a);
      assert fields == fields[..|fields| - 1] + [fields[|fields| - 1]];
      r
  }

  /** The loop `for attr, value in validated_data.items(): setattr(instance, attr, value)`:
      a supplied attribute takes its (last) supplied value, every other attribute, the key
      and the password stay as they were. */
  method ApplyUserFields(u: User, fields: seq<UserField>) returns (v: User)
    ensures v.id == u.id && v.password == u.password
    ensures forall a :: GetUserField(v, a) == LastUserField(fields, a).GetOr(GetUserField(u, a))
  {
    v := u;
    var i := 0;
    while i < |fields|
      invariant 0 <= i <= |fields|
      invariant v.id == u.id && v.password == u.password
      invariant forall a :: GetUserField(v, a) == LastUserField(fields[..i], a).GetOr(GetUserField(u, a))
    {
      assert fields[..i + 1][..i] == fields[..i];
      v := SetUserField(v, fields[i]);
      i := i + 1;
    }
    assert fields[..|fields|] == fields;
  }

  /** One supplied profile field with its value. */
  datatype ProfileField =
    | ClassNumber(classNumber: Option<nat>)
    | ClassLetter(classLetter: Option<string>)
    | Phone(phone: Option<string>)
    | Address(address: Option<string>)

  datatype ProfileAttr = ClassNumberAttr | ClassLetterAttr | PhoneAttr | AddressAttr

  function ProfileAttrOf(f: ProfileField): ProfileAttr
  {
    match f
    case ClassNumber(_) => ClassNumberAttr
    case ClassLetter(_) => ClassLetterAttr
    case Phone(_) => PhoneAttr
    case Address(_) => AddressAttr
  }

  function GetProfileField(p: Profile, a: ProfileAttr): (f: ProfileField)
    ensures ProfileAttrOf(f) == a
  {
    match a
    case ClassNumberAttr => ClassNumber(p.classNumber)
    case ClassLetterAttr => ClassLetter(p.classLetter)
    case PhoneAttr => Phone(p.phone)
    case AddressAttr => Address(p.address)
  }

  function SetProfileField(p: Profile, f: ProfileField): (q: Profile)
    ensures q.id == p.id && q.userId == p.userId
    ensures GetProfileField(q, ProfileAttrOf(f)) == f
    ensures forall a :: a != ProfileAttrOf(f) ==> GetProfileField(q, a) == GetProfileField(p, a)
  {
    match f
    case ClassNumber(x) => p.(classNumber := x)
    case ClassLetter(x) => p.(classLetter := x)
    case Phone(x) => p.(phone := x)
    case Address(x) => p.(address := x)
  }

  function LastProfileField(fields: seq<ProfileField>, a: ProfileAttr): (r: Option<ProfileField>)
    ensures r.Some? ==> r.value in fields && ProfileAttrOf(r.value) == a
    ensures r.None? ==> forall f :: f in fields ==> ProfileAttrOf(f) != a
  {
    if fields == [] then None
    else if ProfileAttrOf(fields[|fields| - 1]) == a then Some(fields[|fields| - 1])
    else
      var r := LastProfileField(fields[..|fields| - 1], a);
      assert fields == fields[..|fields| - 1] + [fields[|fields| - 1]];
      r
  }

  /** The same setattr loop over the nested profile data. */
  method ApplyProfileFields(p: Profile, fields: seq<ProfileField>) returns (q: Profile)
    ensures q.id == p.id && q.userId == p.userId
    ensures forall a :: GetProfileField(q, a) == LastProfileField(fields, a).GetOr(GetProfileField(p, a))
  {
    q := p;
    var i := 0;
    while i < |fields|
      invariant 0 <= i <= |fields|
      invariant q.id == p.id && q.userId == p.userId
      invariant forall a :: GetProfileField(q, a) == LastProfileField(fields[..i], a).GetOr(GetProfileField(p, a))
    {
      assert fields[..i + 1][..i] == fields[..i];
      q := SetProfileField(q, fields[i]);
      i := i + 1;
    }
    assert fields[..|fields|] == fields;
  }

  predicate ProfileFieldValid(f: ProfileField)
  {
    match f
    case ClassNumber(n) => n.Some? ==> n.value <= MaxSmallInt
    case ClassLetter(l) => l.Some? ==> |l.value| <= 1
    case Phone(ph) => ph.Some? ==> |ph.value| <= 15
    case Address(_) => true
  }

  /** A profile keeps its column limits when every supplied field respects them. */
  lemma ProfileUpdateKeepsLimits(p: Profile, q: Profile, fields: seq<ProfileField>)
    requires ProfileFieldsValid(p)
    requires forall f :: f in fields ==> ProfileFieldValid(f)
    requires forall a :: GetProfileField(q, a) == LastProfileField(fields, a).GetOr(GetProfileField(p, a))
    ensures ProfileFieldsValid(q)
  {
    assert GetProfileField(q, ClassNumberAttr) == LastProfileField(fields, ClassNumberAttr).GetOr(GetProfileField(p, ClassNumberAttr));
    assert GetProfileField(q, ClassLetterAttr) == LastProfileField(fields, ClassLetterAttr).GetOr(GetProfileField(p, ClassLetterAttr));
    assert GetProfileField(q, PhoneAttr) == LastProfileField(fields, PhoneAttr).GetOr(GetProfileField(p, PhoneAttr));
  }

  /** An account update body. On a partial update (PATCH) every key may be left out; on a full
      one (PUT) every required key must be present. */
  datatype UpdateRequest = UpdateRequest(
    username: Supplied<string>,
    email: Supplied<string>,
    fullName: Supplied<string>,
    role: Supplied<string>,
    avatar: Supplied<string>,
    profile: Supplied<ProfileRequest>)

  /** The account keys of an update body pass their own checks: a left-out key only on a
      partial update, uniqueness against the accounts `others`. */
  predicate AccountKeysAccepted(others: seq<User>, req: UpdateRequest, partial: bool, ok: Validators)
  {
    && (if req.username.Omitted? then partial else UsernameAccepted(others, req.username, ok))
    && (if req.email.Omitted? then partial else EmailAccepted(others, req.email, ok))
    && (if req.fullName.Omitted? then partial else AcceptedText(req.fullName, Some(FullNameLength)))
    && (if req.role.Omitted? then partial else req.role.Given? && req.role.v in {"teacher", "parent", "student"})
  }

  /** Every key of an update body by user `me` passes its own checks (the avatar is never
      required, and it accepts any stored name or null). */
  predicate UpdateAccepted(users: seq<User>, me: Id, req: UpdateRequest, partial: bool, ok: Validators)
  {
    && AccountKeysAccepted(Others(users, me), req, partial, ok)
    && (if req.profile.Omitted? then partial else req.profile.Given? && ProfileAccepted(req.profile.v))
  }

  /** What the validated data holds for account attribute `a`: nothing when the key was left
      out, the stripped text, the role, or the avatar (empty for null) otherwise. */
  function SuppliedUserValue(req: UpdateRequest, a: UserAttr): Option<UserField>
  {
    match a
    case UsernameAttr => if req.username.Given? then Some(Username(Strip(req.username.v))) else None
    case EmailAttr => if req.email.Given? then Some(Email(Strip(req.email.v))) else None
    case FullNameAttr => if req.fullName.Given? then Some(FullName(Strip(req.fullName.v))) else None
    case RoleAttr => if req.role.Given? then Some(RoleField(RoleOf(req.role.v))) else None
    case AvatarAttr =>
      match req.avatar
      case Omitted => None
      case Null => Some(Avatar(None))
      case Given(s) => Some(Avatar(Some(s)))
  }

  /** `SuppliedUserValue` as a piece of the validated data. */
  function UserPiece(req: UpdateRequest, a: UserAttr): (p: seq<UserField>)
    ensures |p| <= 1
    ensures p == [] <==> SuppliedUserValue(req, a).None?
    ensures p != [] ==> UserAttrOf(p[0]) == a && SuppliedUserValue(req, a) == Some(p[0])
  {
    match SuppliedUserValue(req, a)
    case None => []
    case Some(f) => [f]
  }

  /** The validated account data, one entry per supplied key in declaration order. */
  function UserFieldsOf(req: UpdateRequest): seq<UserField>
  {
    UserPiece(req, UsernameAttr) + UserPiece(req, EmailAttr) + UserPiece(req, FullNameAttr)
    + UserPiece(req, RoleAttr) + UserPiece(req, AvatarAttr)
  }

  /** A key that a partial update left out is skipped; any other is checked. */
  predicate Checked<T>(v: Supplied<T>, partial: bool)
  {
    !(partial && v.Omitted?)
  }

  /**
   * `UserUpdateSerializer.is_valid()` for an update of user `me`: the keys checked in
   * declaration order; the validated data is the supplied account fields and, when the
   * `profile` key was given, the validated profile fields.
   */
  function ValidateUpdate(users: seq<User>, me: Id, req: UpdateRequest, partial: bool, ok: Validators)
    : (r: Result<(seq<UserField>, Option<seq<ProfileField>>), AccountError>)
    ensures r.Ok? <==> UpdateAccepted(users, me, req, partial, ok)
    ensures r.Ok? ==> forall a :: LastUserField(r.value.0, a) == SuppliedUserValue(req, a)
    ensures r.Ok? ==> (r.value.1.Some? <==> req.profile.Given?)
    ensures r.Ok? && req.profile.Given? ==>
      forall a :: LastProfileField(r.value.1.value, a) == SuppliedProfileValue(req.profile.v, a)
    ensures r.Ok? && r.value.1.Some? ==> forall f :: f in r.value.1.value ==> ProfileFieldValid(f)
  {
    match CheckAccountKeys(Others(users, me), req, partial, ok)
    case Some(e) => Err(e)
    case None =>
      match req.profile
      case Null => Err(Invalid(ProfileKey, NotNull))
      case Omitted => if partial then UserFieldsFacts(req); Ok((UserFieldsOf(req), None)) else Err(Invalid(ProfileKey, Required))
      case Given(p) =>
        match CheckProfile(p)
        case Err((key, e)) => Err(Invalid(key, e))
        case Ok(fields) => UserFieldsFacts(req); Ok((UserFieldsOf(req), Some(fields)))
  }

  /** The account keys of an update body checked in declaration order; a key a partial update
      left out is skipped. */
  function CheckAccountKeys(others: seq<User>, req: UpdateRequest, partial: bool, ok: Validators): (r: Option<AccountError>)
    ensures r.None? <==> AccountKeysAccepted(others, req, partial, ok)
  {
    if Checked(req.username, partial) && CheckUsername(others, req.username, ok).Err? then
      Some(Invalid(UsernameKey, CheckUsername(others, req.username, ok).error))
    else if Checked(req.email, partial) && CheckEmail(others, req.email, ok).Err? then
      Some(Invalid(EmailKey, CheckEmail(others, req.email, ok).error))
    else if Checked(req.fullName, partial) && CheckText(req.fullName, Some(FullNameLength)).Err? then
      Some(Invalid(FullNameKey, CheckText(req.fullName, Some(FullNameLength)).error))
    else if Checked(req.role, partial) && CheckRole(req.role).Err? then
      Some(Invalid(RoleKey, CheckRole(req.role).error))
    else None
  }

  /** The validated account data sets each attribute as `SuppliedUserValue` says. */
  lemma UserFieldsFacts(req: UpdateRequest)
    ensures forall a :: LastUserField(UserFieldsOf(req), a) == SuppliedUserValue(req, a)
  {
    forall a ensures LastUserField(UserFieldsOf(req), a) == SuppliedUserValue(req, a) {
      UserFieldFact(req, a);
    }
  }

  lemma UserFieldFact(req: UpdateRequest, a: UserAttr)
    ensures LastUserField(UserFieldsOf(req), a) == SuppliedUserValue(req, a)
  {
    var u, e, n, r, v := UserPiece(req, UsernameAttr), UserPiece(req, EmailAttr), UserPiece(req, FullNameAttr),
                         UserPiece(req, RoleAttr), UserPiece(req, AvatarAttr);
    assert LastUserField(u, a) == if a == UsernameAttr then SuppliedUserValue(req, a) else None by {
      if u != [] {
        assert u[..|u| - 1] == [];
      }
    }
    LastUserFieldPiece(u, e, a);
    LastUserFieldPiece(u + e, n, a);
    LastUserFieldPiece(u + e + n, r, a);
    LastUserFieldPiece(u + e + n + r, v, a);
  }

  /** Appending at most one field: the last entry for `attr` is that field if it sets `attr`. */
  lemma LastUserFieldPiece(x: seq<UserField>, p: seq<UserField>, attr: UserAttr)
    requires |p| <= 1
    ensures LastUserField(x + p, attr) ==
      if p != [] && UserAttrOf(p[0]) == attr then Some(p[0]) else LastUserField(x, attr)
  {
    if p == [] {
      assert x + p == x;
    } else {
      assert (x + p)[..|x + p| - 1] == x;
    }
  }

  /** Replacing a user row by one with the same key, and with an e-mail and username no other
      row has, keeps the accounts unique. */
  lemma ReplaceUserKeepsUnique(users: seq<User>, i: nat, v: User)
    requires AccountsUnique(users) && i < |users| && v.id == users[i].id
    requires forall k :: 0 <= k < |users| && k != i ==> users[k].email != v.email && users[k].username != v.username
    ensures AccountsUnique(users[i := v])
  {
  }

  function IndexOfUser(users: seq<User>, id: Id): (i: nat)
    requires exists u :: u in users && u.id == id
    ensures i < |users| && users[i].id == id
  {
    if users[0].id == id then 0
    else
      assert exists u :: u in users[1..] && u.id == id by {
        var u :| u in users && u.id == id;
        var k :| 0 <= k < |users| && users[k] == u;
        assert users[1..][k - 1] == u;
      }
      1 + IndexOfUser(users[1..], id)
  }

  function IndexOfProfile(profiles: seq<Profile>, userId: Id): (i: nat)
    requires ProfileOf(profiles, userId).Some?
    ensures i < |profiles| && profiles[i] == ProfileOf(profiles, userId).value
  {
    if profiles[0].userId == userId then 0 else 1 + IndexOfProfile(profiles[1..], userId)
  }

  // ---------------------------------------------------------------------------
  // StudentParentSerializer.validate
  // ---------------------------------------------------------------------------

  datatype LinkError =
    | NoSuchStudent    // `student_id` names no user with role student
    | NoSuchParent     // `parent_id` names no user with role parent
    | TooManyParents   // creating a third link for the student

  /**
   * `StudentParentSerializer` validation. The primary-key fields only accept users with
   * the right role, and `validate` rejects a new link (no `instance`) for a student who
   * already has two or more.
   */
  function ValidateLink(users: seq<User>, links: seq<StudentParent>, studentId: Id, parentId: Id, creating: bool)
    : (r: Result<(User, User), LinkError>)
    ensures r.Ok? <==>
      && FindUserWithRole(users, studentId, Student).Some?
      && FindUserWithRole(users, parentId, Parent).Some?
      && (creating ==> ParentCount(links, studentId) < 2)
    ensures r.Ok? ==> r.value.0.role == Student && r.value.1.role == Parent
                      && r.value.0.id == studentId && r.value.1.id == parentId
  {
    match FindUserWithRole(users, studentId, Student)
    case None => Err(NoSuchStudent)
    case Some(student) =>
      match FindUserWithRole(users, parentId, Parent)
      case None => Err(NoSuchParent)
      case Some(parent) =>
        if creating && ParentCount(links, studentId) >= 2 then Err(TooManyParents)
        else Ok((student, parent))
  }

  /** No student has more than two parent links. */
  ghost predicate AtMostTwoParents(links: seq<StudentParent>)
  {
    forall s :: ParentCount(links, s) <= 2
  }

  lemma {:induction false} ParentCountAppend(links: seq<StudentParent>, l: StudentParent, s: Id)
    ensures ParentCount(links + [l], s) == ParentCount(links, s) + (if l.studentId == s then 1 else 0)
  {
    if links != [] {
      assert (links + [l])[1..] == links[1..] + [l];
      ParentCountAppend(links[1..], l, s);
    }
  }

  /** The link `create` appends after a successful validation. */
  function LinkCreated(links: seq<StudentParent>, studentId: Id, parentId: Id): seq<StudentParent>
  {
    links + [StudentParent(NextKey(links, (l: StudentParent) => l.id), studentId, parentId)]
  }

  /** Links created through the validated path never give a student a third parent. */
  lemma CreatedLinkKeepsAtMostTwo(users: seq<User>, links: seq<StudentParent>, studentId: Id, parentId: Id)
    requires AtMostTwoParents(links)
    requires ValidateLink(users, links, studentId, parentId, true).Ok?
    ensures AtMostTwoParents(LinkCreated(links, studentId, parentId))
  {
    var links' := LinkCreated(links, studentId, parentId);
    forall s ensures ParentCount(links', s) <= 2 {
      ParentCountAppend(links, links'[|links|], s);
    }
  }

  /** On update the count is not checked: re-pointing a link at a student who already has two
      parents passes validation and leaves that student with three. */
  lemma UpdateSkipsParentLimit()
    ensures var users := [User(1, "s", "s@x", "S", Student, "h", None),
                           User(2, "p", "p@x", "P", Parent, "h", None),
                           User(3, "q", "q@x", "Q", Parent, "h", None),
                           User(4, "r", "r@x", "R", Parent, "h", None)];
            var links := [StudentParent(1, 1, 2), StudentParent(2, 1, 3), StudentParent(3, 5, 4)];
            && ValidateLink(users, links, 1, 4, false).Ok?
            && ValidateLink(users, links, 1, 4, true) == Err(TooManyParents)
            && ParentCount(links[2 := StudentParent(3, 1, 4)], 1) == 3
  {
    var links := [StudentParent(1, 1, 2), StudentParent(2, 1, 3), StudentParent(3, 5, 4)];
    var moved := links[2 := StudentParent(3, 1, 4)];
    assert links[1..] == [StudentParent(2, 1, 3), StudentParent(3, 5, 4)];
    assert links[1..][1..] == [StudentParent(3, 5, 4)];
    assert links[1..][1..][1..] == [];
    assert ParentCount(links, 1) == 2;
    assert moved[1..] == [StudentParent(2, 1, 3), StudentParent(3, 1, 4)];
    assert moved[1..][1..] == [StudentParent(3, 1, 4)];
    assert moved[1..][1..][1..] == [];
    assert ParentCount(moved[1..][1..], 1) == 1;
    assert ParentCount(moved[1..], 1) == 2;
    assert ParentCount(moved, 1) == 3;
  }

  /** Replacing the requester's row by the updated one keeps the accounts tables valid. */
  lemma AccountUpdateKeepsValid(d: Directory, i: nat, u: User, req: UpdateRequest, partial: bool, ok: Validators)
    requires DirectoryValid(d) && i < |d.users|
    requires ValidateUpdate(d.users, d.users[i].id, req, partial, ok).Ok?
    requires u.id == d.users[i].id
    requires forall a :: (GetUserField(u, a)
      == LastUserField(ValidateUpdate(d.users, d.users[i].id, req, partial, ok).value.0, a).GetOr(GetUserField(d.users[i], a)))
    ensures DirectoryValid(d.(users := d.users[i := u]))
  {
    var w := d.users[i];
    var fields := ValidateUpdate(d.users, w.id, req, partial, ok).value.0;
    assert GetUserField(u, EmailAttr) == LastUserField(fields, EmailAttr).GetOr(GetUserField(w, EmailAttr));
    assert GetUserField(u, UsernameAttr) == LastUserField(fields, UsernameAttr).GetOr(GetUserField(w, UsernameAttr));
    ReplaceUserKeepsValid(d, i, u);
  }

  /** Replacing a user row by one with the same key, and with an e-mail and username that no
      other account has (or that the row already had), keeps the accounts tables valid. */
  lemma ReplaceUserKeepsValid(d: Directory, i: nat, u: User)
    requires DirectoryValid(d) && i < |d.users| && u.id == d.users[i].id
    requires EmailFree(Others(d.users, u.id), u.email) || u.email == d.users[i].email
    requires UsernameFree(Others(d.users, u.id), u.username) || u.username == d.users[i].username
    ensures DirectoryValid(d.(users := d.users[i := u]))
  {
    var others := Others(d.users, u.id);
    forall k | 0 <= k < |d.users| && k != i
      ensures d.users[k].email != u.email && d.users[k].username != u.username
    {
      assert d.users[k] in others;
    }
    ReplaceUserKeepsUnique(d.users, i, u);
    var d' := d.(users := d.users[i := u]);
    forall p | p in d'.profiles ensures exists v :: v in d'.users && v.id == p.userId {
      var v :| v in d.users && v.id == p.userId;
      var k :| 0 <= k < |d.users| && d.users[k] == v;
      assert d'.users[k] in d'.users && d'.users[k].id == v.id;
    }
  }

  /** Replacing a profile by one with the same key and owner keeps the tables valid. */
  lemma ProfileUpdateKeepsValid(d: Directory, j: nat, q: Profile)
    requires DirectoryValid(d) && j < |d.profiles|
    requires q.id == d.profiles[j].id && q.userId == d.profiles[j].userId
    ensures DirectoryValid(d.(profiles := d.profiles[j := q]))
  {
    var d' := d.(profiles := d.profiles[j := q]);
    forall p | p in d'.profiles ensures exists v :: v in d'.users && v.id == p.userId {
      var k :| 0 <= k < |d'.profiles| && d'.profiles[k] == p;
      assert d.profiles[k] in d.profiles;
    }
  }

  /** Row i of `users'` is row i of `users` with the supplied fields set; the other rows are untouched. */
  ghost predicate AccountUpdatedAt(users: seq<User>, users': seq<User>, i: nat, fields: seq<UserField>)
  {
    && i < |users| == |users'|
    && (forall k :: 0 <= k < |users| && k != i ==> users'[k] == users[k])
    && users'[i].id == users[i].id && users'[i].password == users[i].password
    && (forall a :: GetUserField(users'[i], a) == LastUserField(fields, a).GetOr(GetUserField(users[i], a)))
  }

  /** Profile row j of `profiles'` is row j of `profiles` with the supplied fields set. */
  ghost predicate ProfileUpdatedAt(profiles: seq<Profile>, profiles': seq<Profile>, j: nat, fields: seq<ProfileField>)
  {
    && j < |profiles| == |profiles'|
    && (forall k :: 0 <= k < |profiles| && k != j ==> profiles'[k] == profiles[k])
    && profiles'[j].id == profiles[j].id && profiles'[j].userId == profiles[j].userId
    && (forall a :: GetProfileField(profiles'[j], a) == LastProfileField(fields, a).GetOr(GetProfileField(profiles[j], a)))
  }

  // ---------------------------------------------------------------------------
  // The accounts tables, updated in place
  // ---------------------------------------------------------------------------

  class UserDirectory {
    var users: seq<User>
    var profiles: seq<Profile>
    var links: seq<StudentParent>

    function Snapshot(): Directory
      reads this
    {
      Directory(users, profiles, links)
    }

    /** The database's guarantees, and the two-parent limit that every link created through
        this directory keeps. */
    ghost predicate Valid()
      reads this
    {
      DirectoryValid(Snapshot()) && AtMostTwoParents(links)
    }

    constructor ()
      ensures Valid() && users == [] && profiles == [] && links == []
    {
      users, profiles, links := [], [], [];
    }

    /** `RegisterSerializer.is_valid()` then `save()`: on success the user and its profile are
        inserted; on any validation error nothing changes. */
    method Register(req: RegisterRequest, ok: Validators, hash: string -> string)
      returns (r: Result<User, AccountError>)
      requires Valid()
      modifies this
      ensures Valid()
      ensures var v := ValidateRegistration(old(users), req, ok);
        && (v.Err? ==> r == Err(v.error) && Snapshot() == old(Snapshot()))
        && (v.Ok? ==> r.Ok? && (Snapshot(), r.value) == Registered(old(Snapshot()), v.value, hash))
    {
      var v := ValidateRegistration(users, req, ok);
      if v.Err? {
        return Err(v.error);
      }
      RegisteredFacts(Snapshot(), v.value, hash);
      var created := Registered(Snapshot(), v.value, hash);
      users, profiles, links := created.0.users, created.0.profiles, created.0.links;
      r := Ok(created.1);
    }

    /**
     * `UserUpdateSerializer` on the requester's own row: validate, set the supplied account
     * fields and save; then, only when non-empty profile data was supplied, set those fields
     * on the profile and save it. A user without a profile gets an error after the account
     * fields were already saved.
     */
    method UpdateAccount(me: Id, req: UpdateRequest, partial: bool, ok: Validators)
      returns (r: Result<User, AccountError>)
      requires Valid()
      requires exists u :: u in users && u.id == me
      modifies this
      ensures Valid()
      ensures links == old(links)
      ensures var v := ValidateUpdate(old(users), me, req, partial, ok);
        && (v.Err? ==> r == Err(v.error) && Snapshot() == old(Snapshot()))
        && (v.Ok? ==>
              var (fields, profileFields) := v.value;
              var i := IndexOfUser(old(users), me);
              && AccountUpdatedAt(old(users), users, i, fields)
              && (r.Ok? ==> r.value == users[i])
              && (profileFields.None? || profileFields.value == [] ==> profiles == old(profiles) && r.Ok?)
              && (profileFields.Some? && profileFields.value != [] && ProfileOf(old(profiles), me).None? ==>
                    r == Err(NoProfile) && profiles == old(profiles))
              && (profileFields.Some? && profileFields.value != [] && ProfileOf(old(profiles), me).Some? ==>
                    r.Ok? && ProfileUpdatedAt(old(profiles), profiles, IndexOfProfile(old(profiles), me), profileFields.value)))
    {
      var v := ValidateUpdate(users, me, req, partial, ok);
      if v.Err? {
        return Err(v.error);
      }
      var i := IndexOfUser(users, me);
      var u := ApplyUserFields(users[i], v.value.0);
      AccountUpdateKeepsValid(Snapshot(), i, u, req, partial, ok);
      r := SaveUpdate(me, i, u, v.value.1);
    }

    /** `instance.save()` with the updated row, then the profile step of `update`. */
    method SaveUpdate(me: Id, i: nat, u: User, profileFields: Option<seq<ProfileField>>)
      returns (r: Result<User, AccountError>)
      requires i < |users| && users[i].id == me && u.id == me
      requires DirectoryValid(Snapshot().(users := users[i := u])) && AtMostTwoParents(links)
      modifies this
      ensures Valid()
      ensures users == old(users)[i := u] && links == old(links)
      ensures r.Ok? ==> r.value == u
      ensures profileFields.None? || profileFields.value == [] ==> profiles == old(profiles) && r.Ok?
      ensures profileFields.Some? && profileFields.value != [] && ProfileOf(old(profiles), me).None? ==>
                r == Err(NoProfile) && profiles == old(profiles)
      ensures profileFields.Some? && profileFields.value != [] && ProfileOf(old(profiles), me).Some? ==>
                r.Ok? && ProfileUpdatedAt(old(profiles), profiles, IndexOfProfile(old(profiles), me), profileFields.value)
    {
      users := users[i := u];
      r := Ok(u);
      if profileFields.Some? && profileFields.value != [] {
        var found := ProfileOf(profiles, me);
        if found.None? {
          return Err(NoProfile);
        }
        var j := IndexOfProfile(profiles, me);
        var q := ApplyProfileFields(profiles[j], profileFields.value);
        ProfileUpdateKeepsValid(Snapshot(), j, q);
        profiles := profiles[j := q];
      }
    }

    /** Creating a student-parent link: validate (including the two-parent limit), then insert. */
    method CreateLink(studentId: Id, parentId: Id) returns (r: Result<StudentParent, LinkError>)
      requires Valid()
      modifies this
      ensures Valid()
      ensures users == old(users) && profiles == old(profiles)
      ensures ValidateLink(old(users), old(links), studentId, parentId, true).Err? ==>
                r.Err? && r.error == ValidateLink(old(users), old(links), studentId, parentId, true).error
                && links == old(links)
      ensures ValidateLink(old(users), old(links), studentId, parentId, true).Ok? ==>
                r.Ok? && links == LinkCreated(old(links), studentId, parentId) && links == old(links) + [r.value]
    {
      var v := ValidateLink(users, links, studentId, parentId, true);
      if v.Err? {
        return Err(v.error);
      }
      CreatedLinkKeepsAtMostTwo(users, links, studentId, parentId);
      links := LinkCreated(links, studentId, parentId);
      r := Ok(links[|links| - 1]);
    }
  }
}
