/**
 * The User schema of src/models/user.js: its fields and their setters, the
 * validators run on save, the pre-save password hashing, the client-facing
 * projection and the credential lookup used by login.
 *
 * A Mongoose document held in memory is a `Doc`: the user's field values, the
 * set of paths changed since it was loaded (what `isModified` reports) and
 * whether an assigned value failed to cast to the path's type.
 */
module UserModel {
  import opened Wrappers
  import opened Strings
  import opened Json

  type UserId = nat
  type Token = string
  type Bytes = seq<bv8>

  datatype User = User(
    name: string,
    email: string,
    age: int,
    password: string,        // the stored bcrypt hash once saved
    tokens: seq<Token>,      // live sessions, in issue order
    avatar: Option<Bytes>)

  datatype Path = NamePath | EmailPath | AgePath | PasswordPath | TokensPath | AvatarPath

  datatype Doc = Doc(user: User, modified: set<Path>, castError: bool)

  datatype UserError =
    | CastFailed
    | NameRequired
    | EmailInvalid
    | AgeNegative
    | PasswordTooShort
    | PasswordContainsWord
    | EmailTaken

  datatype LoginError = NoSuchAccount | WrongPassword

  const MinPasswordLength: nat := 6
  const ForbiddenWord: string := "password"
  const DefaultAge: int := 0

  /** The profile paths a client may set: the allow-list of the update handler. */
  const ProfileKeys: seq<string> := ["name", "age", "email", "password"]

  // ---------------------------------------------------------------- validators

  /** The reference rule for an acceptable password (already trimmed). */
  ghost predicate PasswordAcceptable(p: string) {
    Utf16Length(p) >= MinPasswordLength && !HasSubstring(ToLower(p), ForbiddenWord)
  }

  /** The custom password validator: too short first, then the forbidden word in any case. */
  function CheckPassword(value: string): (r: Option<UserError>)
    ensures r == Some(PasswordTooShort) <==> Utf16Length(value) < MinPasswordLength
    ensures r == Some(PasswordContainsWord) <==> (Utf16Length(value) >= MinPasswordLength && HasSubstring(ToLower(value), ForbiddenWord))
    ensures r == None <==> PasswordAcceptable(value)
  {
    var f := Includes(ToLower(value), ForbiddenWord);
    if Utf16Length(value) < MinPasswordLength then Some(PasswordTooShort)
    else if f then Some(PasswordContainsWord)
    else None
  }

  /** The word "password" in any mix of upper and lower case anywhere makes a password unacceptable. */
  lemma ForbiddenWordInAnyCase(value: string, i: nat)
    requires i + |ForbiddenWord| <= |value|
    requires ToLower(value[i..i + |ForbiddenWord|]) == ForbiddenWord
    ensures CheckPassword(value) == Some(PasswordContainsWord)
  {
    ToLowerSlice(value, i, i + |ForbiddenWord|);
    assert OccursAt(ToLower(value), ForbiddenWord, i);
  }

  /** Length is counted in UTF-16 units: three characters outside the Basic Multilingual Plane make six. */
  lemma AstralPasswordLongEnough()
    ensures CheckPassword("\U{1F600}\U{1F600}\U{1F600}") == None
  {
    var p := "\U{1F600}\U{1F600}\U{1F600}";
    assert Utf16Length(p[2..]) == 2;
    assert Utf16Length(p[1..]) == 4;
    assert Utf16Length(p) == 6;
    assert ToLower(p) == p;
  }

  /** The age validator: a negative number is refused. */
  function CheckAge(age: int): (r: Option<UserError>)
    ensures r.None? <==> age >= 0
  {
    if age < 0 then Some(AgeNegative) else None
  }

  /** The email setters: trimmed, then lower-cased. */
  function NormalizeEmail(raw: string): string {
    ToLower(Trim(raw))
  }

  /** An email that was stored normalised normalises to itself, so the lookup by a normalised email finds it. */
  lemma NormalizeEmailIdempotent(raw: string)
    ensures NormalizeEmail(NormalizeEmail(raw)) == NormalizeEmail(raw)
  {
    var t := Trim(raw);
    LowerKeepsOuterCharacters(t);
    TrimFixesTrimmed(ToLower(t));
    ToLowerIdempotent(t);
  }

  /** What `validate` demands of a document: every modified path passes its validators. */
  ghost predicate DocValid(doc: Doc, isEmail: string -> bool) {
    && !doc.castError
    && (NamePath in doc.modified ==> doc.user.name != "")
    && (EmailPath in doc.modified ==> doc.user.email != "" && isEmail(doc.user.email))
    && (AgePath in doc.modified ==> doc.user.age >= 0)
    && (PasswordPath in doc.modified ==> PasswordAcceptable(doc.user.password))
  }

  /** Runs the schema validators (`required`, `isEmail`, age, password) on the modified paths. */
  function Validate(doc: Doc, isEmail: string -> bool): (r: Outcome<UserError>)
    ensures r.Pass? <==> DocValid(doc, isEmail)
  {
    var u := doc.user;
    if doc.castError then Fail(CastFailed)
    else if NamePath in doc.modified && u.name == "" then Fail(NameRequired)
    else if EmailPath in doc.modified && (u.email == "" || !isEmail(u.email)) then Fail(EmailInvalid)
    else if AgePath in doc.modified && CheckAge(u.age).Some? then Fail(AgeNegative)
    else if PasswordPath in doc.modified && CheckPassword(u.password).Some? then Fail(CheckPassword(u.password).value)
    else Pass
  }

  /** No two users share an email: the unique index on `email`. */
  ghost predicate EmailsUnique(users: map<UserId, User>) {
    forall a, b :: a in users && b in users && a != b ==> users[a].email != users[b].email
  }

  /** Some user other than `id` already holds `email`. */
  predicate EmailInUse(users: map<UserId, User>, id: UserId, email: string) {
    exists other | other in users :: other != id && users[other].email == email
  }

  /** Whether `save` accepts the document: validation first, then the unique index. */
  function SaveCheck(users: map<UserId, User>, id: UserId, doc: Doc, isEmail: string -> bool): (r: Outcome<UserError>)
    ensures r.Pass? <==> DocValid(doc, isEmail) && !EmailInUse(users, id, doc.user.email)
  {
    match Validate(doc, isEmail)
    case Fail(e) => Fail(e)
    case Pass => if EmailInUse(users, id, doc.user.email) then Fail(EmailTaken) else Pass
  }

  // ---------------------------------------------------------------- documents

  /** `new User(...)` before the body is applied: a new document validates every profile path; age defaults to 0. */
  function NewDoc(): Doc {
    Doc(User("", "", DefaultAge, "", [], None), {NamePath, EmailPath, AgePath, PasswordPath}, false)
  }

  /** A stored user loaded into memory: nothing modified yet. */
  function Load(u: User): Doc {
    Doc(u, {}, false)
  }

  /** Assigning a path: a value equal to the current one does not mark the path modified. */
  function SetPath(doc: Doc, p: Path, u: User): (d: Doc)
    ensures d.user == u && d.castError == doc.castError
    ensures d.modified == if u == doc.user then doc.modified else doc.modified + {p}
  {
    if u == doc.user then doc else Doc(u, doc.modified + {p}, doc.castError)
  }

  /** A value of the wrong JSON kind for a profile path fails to cast. */
  predicate IsMiscast(key: string, v: Value) {
    ((key == "name" || key == "email" || key == "password") && !v.Text?)
    || (key == "age" && !v.Number?)
  }

  /** `user[key] = v` through the path's setters; keys outside the profile are ignored. */
  function Assign(doc: Doc, key: string, v: Value): Doc {
    if IsMiscast(key, v) then doc.(castError := true)
    else if key == "name" then SetPath(doc, NamePath, doc.user.(name := Trim(v.s)))
    else if key == "email" then SetPath(doc, EmailPath, doc.user.(email := NormalizeEmail(v.s)))
    else if key == "age" then SetPath(doc, AgePath, doc.user.(age := v.n))
    else if key == "password" then SetPath(doc, PasswordPath, doc.user.(password := Trim(v.s)))
    else doc
  }

  /** Assigns the body's pairs one after the other, in key order. */
  function AssignAll(doc: Doc, body: Body): Doc
    decreases |body|
  {
    if body == [] then doc else AssignAll(Assign(doc, body[0].0, body[0].1), body[1..])
  }

  function NameAfter(u: User, body: Body): string {
    match Lookup(body, "name")
    case Some(Text(s)) => Trim(s)
    case _ => u.name
  }

  function EmailAfter(u: User, body: Body): string {
    match Lookup(body, "email")
    case Some(Text(s)) => NormalizeEmail(s)
    case _ => u.email
  }

  function AgeAfter(u: User, body: Body): int {
    match Lookup(body, "age")
    case Some(Number(n)) => n
    case _ => u.age
  }

  function PasswordAfter(u: User, body: Body): string {
    match Lookup(body, "password")
    case Some(Text(s)) => Trim(s)
    case _ => u.password
  }

  /** The paths whose value the body changes. */
  function ChangedPaths(u: User, body: Body): set<Path> {
    (if NameAfter(u, body) != u.name then {NamePath} else {})
    + (if EmailAfter(u, body) != u.email then {EmailPath} else {})
    + (if AgeAfter(u, body) != u.age then {AgePath} else {})
    + (if PasswordAfter(u, body) != u.password then {PasswordPath} else {})
  }

  predicate AnyMiscast(body: Body) {
    exists i | 0 <= i < |body| :: IsMiscast(body[i].0, body[i].1)
  }

  /**
   * The document after a body is applied, field by field: each supplied profile
   * field holds its supplied value (after the setters), every other field,
   * tokens and avatar included, is unchanged.
   */
  function ProfileAfter(doc: Doc, body: Body): Doc {
    Doc(doc.user.(name := NameAfter(doc.user, body), email := EmailAfter(doc.user, body),
                  age := AgeAfter(doc.user, body), password := PasswordAfter(doc.user, body)),
        doc.modified + ChangedPaths(doc.user, body),
        doc.castError || AnyMiscast(body))
  }

  lemma AnyMiscastHead(body: Body)
    requires body != []
    ensures AnyMiscast(body) <==> IsMiscast(body[0].0, body[0].1) || AnyMiscast(body[1..])
  {
    if AnyMiscast(body[1..]) {
      var i :| 0 <= i < |body| - 1 && IsMiscast(body[1..][i].0, body[1..][i].1);
      assert body[i + 1] == body[1..][i];
    }
    if AnyMiscast(body) && !IsMiscast(body[0].0, body[0].1) {
      var i :| 0 <= i < |body| && IsMiscast(body[i].0, body[i].1);
      assert body[1..][i - 1] == body[i];
    }
  }

  /** Keys other than the assigned one look the same in the body and in its tail. */
  lemma TailLookups(body: Body)
    requires body != [] && DistinctKeys(body)
    ensures Lookup(body, body[0].0) == Some(body[0].1) && Lookup(body[1..], body[0].0) == None
    ensures forall k :: k != body[0].0 ==> Lookup(body, k) == Lookup(body[1..], k)
  {
    FirstKeyNotInTail(body);
    forall k | k != body[0].0 ensures Lookup(body, k) == Lookup(body[1..], k) {
      LookupTail(body, k);
    }
  }

  /** One assignment followed by the rest of the body is the whole body applied at once. */
  lemma {:induction false} AssignStep(doc: Doc, body: Body)
    requires body != [] && DistinctKeys(body)
    ensures ProfileAfter(Assign(doc, body[0].0, body[0].1), body[1..]) == ProfileAfter(doc, body)
  {
    var key, v := body[0].0, body[0].1;
    TailLookups(body);
    AnyMiscastHead(body);
    if IsMiscast(key, v) {
      StepMiscast(doc, body);
    } else if key == "name" {
      StepName(doc, body);
    } else if key == "email" {
      StepEmail(doc, body);
    } else if key == "age" {
      StepAge(doc, body);
    } else if key == "password" {
      StepPassword(doc, body);
    } else {
      assert Assign(doc, key, v) == doc;
    }
  }

  /** The facts every case of AssignStep starts from. */
  ghost predicate StepFacts(body: Body) {
    && body != []
    && Lookup(body, body[0].0) == Some(body[0].1) && Lookup(body[1..], body[0].0) == None
    && (forall k :: k != body[0].0 ==> Lookup(body, k) == Lookup(body[1..], k))
    && (AnyMiscast(body) <==> IsMiscast(body[0].0, body[0].1) || AnyMiscast(body[1..]))
  }

  lemma StepMiscast(doc: Doc, body: Body)
    requires StepFacts(body) && IsMiscast(body[0].0, body[0].1)
    ensures ProfileAfter(Assign(doc, body[0].0, body[0].1), body[1..]) == ProfileAfter(doc, body)
  {
    var key, rest := body[0].0, body[1..];
    assert Assign(doc, key, body[0].1) == doc.(castError := true);
    if key != "name" { assert Lookup(body, "name") == Lookup(rest, "name"); }
    if key != "email" { assert Lookup(body, "email") == Lookup(rest, "email"); }
    if key != "age" { assert Lookup(body, "age") == Lookup(rest, "age"); }
    if key != "password" { assert Lookup(body, "password") == Lookup(rest, "password"); }
    StepCombine(doc, doc.(castError := true), body);
  }

  lemma StepName(doc: Doc, body: Body)
    requires StepFacts(body) && body[0].0 == "name" && body[0].1.Text?
    ensures ProfileAfter(Assign(doc, body[0].0, body[0].1), body[1..]) == ProfileAfter(doc, body)
  {
    var u, rest := doc.user, body[1..];
    var u1 := u.(name := Trim(body[0].1.s));
    assert Assign(doc, body[0].0, body[0].1) == SetPath(doc, NamePath, u1);
    NameStep(u, rest, Trim(body[0].1.s), Lookup(rest, "email"), Lookup(rest, "age"), Lookup(rest, "password"));
    assert Lookup(body, "name") == Some(Text(body[0].1.s));
    StepCombine(doc, SetPath(doc, NamePath, u1), body);
  }

  /** The fields after a name assignment and the rest of the body, given only the lookups they read. */
  lemma NameStep(u: User, rest: Body, name: string, e: Option<Value>, a: Option<Value>, p: Option<Value>)
    requires Lookup(rest, "name") == None && Lookup(rest, "email") == e
    requires Lookup(rest, "age") == a && Lookup(rest, "password") == p
    ensures var u1 := u.(name := name);
            && NameAfter(u1, rest) == u1.name
            && EmailAfter(u1, rest) == EmailAfter(u, rest)
            && AgeAfter(u1, rest) == AgeAfter(u, rest)
            && PasswordAfter(u1, rest) == PasswordAfter(u, rest)
  {
  }

  /** The profile after one assignment and the rest equals the profile after the whole body, field by field. */
  lemma StepCombine(doc: Doc, d1: Doc, body: Body)
    requires body != []
    requires d1.user.tokens == doc.user.tokens && d1.user.avatar == doc.user.avatar
    requires NameAfter(d1.user, body[1..]) == NameAfter(doc.user, body)
    requires EmailAfter(d1.user, body[1..]) == EmailAfter(doc.user, body)
    requires AgeAfter(d1.user, body[1..]) == AgeAfter(doc.user, body)
    requires PasswordAfter(d1.user, body[1..]) == PasswordAfter(doc.user, body)
    requires d1.modified + ChangedPaths(d1.user, body[1..]) == doc.modified + ChangedPaths(doc.user, body)
    requires d1.castError || AnyMiscast(body[1..]) <==> doc.castError || AnyMiscast(body)
    ensures ProfileAfter(d1, body[1..]) == ProfileAfter(doc, body)
  {
  }

  lemma StepEmail(doc: Doc, body: Body)
    requires StepFacts(body) && body[0].0 == "email" && body[0].1.Text?
    ensures ProfileAfter(Assign(doc, body[0].0, body[0].1), body[1..]) == ProfileAfter(doc, body)
  {
    var u, rest := doc.user, body[1..];
    var u1 := u.(email := NormalizeEmail(body[0].1.s));
    assert Assign(doc, body[0].0, body[0].1) == SetPath(doc, EmailPath, u1);
    EmailStep(u, rest, NormalizeEmail(body[0].1.s), Lookup(rest, "name"), Lookup(rest, "age"), Lookup(rest, "password"));
    assert Lookup(body, "email") == Some(Text(body[0].1.s));
    StepCombine(doc, SetPath(doc, EmailPath, u1), body);
  }

  lemma EmailStep(u: User, rest: Body, email: string, n: Option<Value>, a: Option<Value>, p: Option<Value>)
    requires Lookup(rest, "email") == None && Lookup(rest, "name") == n
    requires Lookup(rest, "age") == a && Lookup(rest, "password") == p
    ensures var u1 := u.(email := email);
            && NameAfter(u1, rest) == NameAfter(u, rest)
            && EmailAfter(u1, rest) == u1.email
            && AgeAfter(u1, rest) == AgeAfter(u, rest)
            && PasswordAfter(u1, rest) == PasswordAfter(u, rest)
  {
  }

  lemma StepAge(doc: Doc, body: Body)
    requires StepFacts(body) && body[0].0 == "age" && body[0].1.Number?
    ensures ProfileAfter(Assign(doc, body[0].0, body[0].1), body[1..]) == ProfileAfter(doc, body)
  {
    var u, rest := doc.user, body[1..];
    var u1 := u.(age := body[0].1.n);
    assert Assign(doc, body[0].0, body[0].1) == SetPath(doc, AgePath, u1);
    AgeStep(u, rest, body[0].1.n, Lookup(rest, "name"), Lookup(rest, "email"), Lookup(rest, "password"));
    assert Lookup(body, "age") == Some(Number(body[0].1.n));
    StepCombine(doc, SetPath(doc, AgePath, u1), body);
  }

  lemma AgeStep(u: User, rest: Body, age: int, n: Option<Value>, e: Option<Value>, p: Option<Value>)
    requires Lookup(rest, "age") == None && Lookup(rest, "name") == n
    requires Lookup(rest, "email") == e && Lookup(rest, "password") == p
    ensures var u1 := u.(age := age);
            && NameAfter(u1, rest) == NameAfter(u, rest)
            && EmailAfter(u1, rest) == EmailAfter(u, rest)
            && AgeAfter(u1, rest) == age
            && PasswordAfter(u1, rest) == PasswordAfter(u, rest)
  {
  }

  lemma StepPassword(doc: Doc, body: Body)
    requires StepFacts(body) && body[0].0 == "password" && body[0].1.Text?
    ensures ProfileAfter(Assign(doc, body[0].0, body[0].1), body[1..]) == ProfileAfter(doc, body)
  {
    var u, rest := doc.user, body[1..];
    var u1 := u.(password := Trim(body[0].1.s));
    assert Assign(doc, body[0].0, body[0].1) == SetPath(doc, PasswordPath, u1);
    PasswordStep(u, rest, Trim(body[0].1.s), Lookup(rest, "name"), Lookup(rest, "email"), Lookup(rest, "age"));
    assert Lookup(body, "password") == Some(Text(body[0].1.s));
    StepCombine(doc, SetPath(doc, PasswordPath, u1), body);
  }

  lemma PasswordStep(u: User, rest: Body, password: string, n: Option<Value>, e: Option<Value>, a: Option<Value>)
    requires Lookup(rest, "password") == None && Lookup(rest, "name") == n
    requires Lookup(rest, "email") == e && Lookup(rest, "age") == a
    ensures var u1 := u.(password := password);
            && NameAfter(u1, rest) == NameAfter(u, rest)
            && EmailAfter(u1, rest) == EmailAfter(u, rest)
            && AgeAfter(u1, rest) == AgeAfter(u, rest)
            && PasswordAfter(u1, rest) == u1.password
  {
  }

  /** Assigning the pairs one by one sets exactly the supplied fields to the supplied values. */
  lemma {:induction false} AssignAllIsProfileAfter(doc: Doc, body: Body)
    requires DistinctKeys(body)
    ensures AssignAll(doc, body) == ProfileAfter(doc, body)
    decreases |body|
  {
    if body == [] {
      assert !AnyMiscast(body);
      assert ProfileAfter(doc, body).user == doc.user;
    } else {
      FirstKeyNotInTail(body);
      AssignAllIsProfileAfter(Assign(doc, body[0].0, body[0].1), body[1..]);
      AssignStep(doc, body);
    }
  }

  /** The pre-save hook: the password is hashed exactly when it was modified. */
  function PreSave(doc: Doc, hash: string -> string): (u: User)
    ensures u.password == if PasswordPath in doc.modified then hash(doc.user.password) else doc.user.password
    ensures u.(password := doc.user.password) == doc.user
  {
    if PasswordPath in doc.modified then doc.user.(password := hash(doc.user.password)) else doc.user
  }

  /** `user.tokens = user.tokens.concat({token})` on a loaded user, before it is saved. */
  function AppendToken(u: User, token: Token): Doc {
    SetPath(Load(u), TokensPath, u.(tokens := u.tokens + [token]))
  }

  /** Saving a token append never re-hashes: only the token list changes, by one entry at the end. */
  lemma {:induction false} TokenSaveKeepsPassword(u: User, token: Token, hash: string -> string)
    ensures PreSave(AppendToken(u, token), hash) == u.(tokens := u.tokens + [token])
    ensures PasswordPath !in AppendToken(u, token).modified
  {
    assert u.(tokens := u.tokens + [token]) != u by {
      assert |u.tokens + [token]| != |u.tokens|;
    }
  }

  // ---------------------------------------------------------------- projection

  /** `user.toObject()`: every stored field by its schema name. */
  function ToObject(id: UserId, u: User): map<string, Value> {
    map["_id" := ObjectId(id), "name" := Text(u.name), "email" := Text(u.email),
        "age" := Number(u.age), "password" := Text(u.password), "tokens" := TextList(u.tokens)]
    + (if u.avatar.Some? then map["avatar" := Binary(u.avatar.value)] else map[])
  }

  const HiddenFields: set<string> := {"password", "tokens", "avatar"}

  /** `toJSON`: the copy with password, tokens and avatar deleted; every other key keeps its value. */
  function ToJSON(obj: map<string, Value>): (r: map<string, Value>)
    ensures "password" !in r && "tokens" !in r && "avatar" !in r
    ensures forall k :: k in obj && k !in HiddenFields ==> k in r && r[k] == obj[k]
    ensures r.Keys <= obj.Keys
  {
    obj - HiddenFields
  }

  /** What a client sees of a user: its id, name, email and age, nothing else. */
  function PublicView(id: UserId, u: User): map<string, Value> {
    ToJSON(ToObject(id, u))
  }

  lemma PublicViewOfUser(id: UserId, u: User)
    ensures PublicView(id, u)
            == map["_id" := ObjectId(id), "name" := Text(u.name), "email" := Text(u.email), "age" := Number(u.age)]
  {
    var expected := map["_id" := ObjectId(id), "name" := Text(u.name), "email" := Text(u.email), "age" := Number(u.age)];
    assert PublicView(id, u).Keys == expected.Keys;
  }

  // ---------------------------------------------------------------- credentials

  /** `bcrypt.compare(plain, stored)` for a deterministic `hash`. */
  predicate Matches(hash: string -> string, plain: string, stored: string) {
    stored == hash(plain)
  }

  /**
   * `findByCredentials` as the source writes it: the email is normalised by the
   * query setters, the presented password is compared as given.
   */
  function FindByCredentialsAsWritten(users: map<UserId, User>, email: string, password: string,
                                      hash: string -> string): (r: Result<UserId, LoginError>)
    requires EmailsUnique(users)
    ensures r == Err(NoSuchAccount) <==> forall id :: id in users ==> users[id].email != NormalizeEmail(email)
    ensures r == Err(WrongPassword)
            <==> exists id :: id in users && users[id].email == NormalizeEmail(email)
                              && !Matches(hash, password, users[id].password)
    ensures r.Ok? ==> r.value in users && users[r.value].email == NormalizeEmail(email)
                      && Matches(hash, password, users[r.value].password)
  {
    var e := NormalizeEmail(email);
    if exists id | id in users :: users[id].email == e then
      var id :| id in users && users[id].email == e;
      if Matches(hash, password, users[id].password) then Ok(id) else Err(WrongPassword)
    else
      Err(NoSuchAccount)
  }

  /**
   * `findByCredentials` with the presented password trimmed the way the schema
   * trimmed it before hashing, so a user can log in with the password they set.
   */
  function FindByCredentials(users: map<UserId, User>, email: string, password: string,
                             hash: string -> string): (r: Result<UserId, LoginError>)
    requires EmailsUnique(users)
    ensures r == Err(NoSuchAccount) <==> forall id :: id in users ==> users[id].email != NormalizeEmail(email)
    ensures r == Err(WrongPassword)
            <==> exists id :: id in users && users[id].email == NormalizeEmail(email)
                              && !Matches(hash, Trim(password), users[id].password)
    ensures r.Ok? ==> r.value in users && users[r.value].email == NormalizeEmail(email)
                      && Matches(hash, Trim(password), users[r.value].password)
  {
    FindByCredentialsAsWritten(users, email, Trim(password), hash)
  }

  /** The user stored by registration: the new document saved, then a token appended and saved again. */
  function Registered(body: Body, hash: string -> string, token: Token): User {
    PreSave(AppendToken(PreSave(AssignAll(NewDoc(), body), hash), token), hash)
  }

  /** Registration without an age stores the default age 0; with a numeric age, that age. */
  lemma {:induction false} RegisteredAge(body: Body, hash: string -> string, token: Token)
    requires DistinctKeys(body)
    ensures Lookup(body, "age").None? ==> Registered(body, hash, token).age == DefaultAge
    ensures Lookup(body, "age").Some? && Lookup(body, "age").value.Number? ==>
              Registered(body, hash, token).age == Lookup(body, "age").value.n
  {
    var doc := AssignAll(NewDoc(), body);
    AssignAllIsProfileAfter(NewDoc(), body);
    TokenSaveKeepsPassword(PreSave(doc, hash), token, hash);
  }

  /** A registered user logs in with the email and password they registered with. */
  lemma {:induction false} RegisteredUserCanLogIn(users: map<UserId, User>, id: UserId, body: Body,
                                                  hash: string -> string, token: Token,
                                                  email: string, password: string)
    requires EmailsUnique(users) && DistinctKeys(body)
    requires Lookup(body, "email") == Some(Text(email)) && Lookup(body, "password") == Some(Text(password))
    requires id in users && users[id].email == Registered(body, hash, token).email
    requires users[id].password == Registered(body, hash, token).password
    ensures FindByCredentials(users, email, password, hash) == Ok(id)
  {
    var doc := AssignAll(NewDoc(), body);
    AssignAllIsProfileAfter(NewDoc(), body);
    TokenSaveKeepsPassword(PreSave(doc, hash), token, hash);
    assert users[id].email == NormalizeEmail(email);
    assert users[id].password == hash(Trim(password));
  }

  /**
   * As written, a password with leading or trailing whitespace is trimmed before
   * it is hashed but compared untrimmed: the password exactly as registered is
   * refused, while its trimmed text still logs in.
   */
  lemma {:induction false} PaddedPasswordRefused(users: map<UserId, User>, id: UserId, body: Body,
                                                      hash: string -> string, token: Token,
                                                      email: string, password: string)
    requires EmailsUnique(users) && DistinctKeys(body)
    requires Lookup(body, "email") == Some(Text(email)) && Lookup(body, "password") == Some(Text(password))
    requires id in users && users[id] == Registered(body, hash, token)
    requires hash(password) != hash(Trim(password))
    ensures FindByCredentialsAsWritten(users, email, password, hash) == Err(WrongPassword)
    ensures FindByCredentialsAsWritten(users, email, Trim(password), hash) == Ok(id)
  {
    var doc := AssignAll(NewDoc(), body);
    AssignAllIsProfileAfter(NewDoc(), body);
    TokenSaveKeepsPassword(PreSave(doc, hash), token, hash);
    assert users[id].email == NormalizeEmail(email);
    assert users[id].password == hash(Trim(password));
    assert !Matches(hash, password, users[id].password);
  }

  /** The registration body of the concrete case: name "A", email "a@x.com", password " secret1". */
  function ExampleBody(): Body {
    [("name", Text("A")), ("email", Text("a@x.com")), ("password", Text(" secret1"))]
  }

  lemma ExampleBodyFacts()
    ensures DistinctKeys(ExampleBody())
    ensures Lookup(ExampleBody(), "email") == Some(Text("a@x.com"))
    ensures Lookup(ExampleBody(), "password") == Some(Text(" secret1"))
  {
    var b := ExampleBody();
    assert b[1..][1..] == [b[2]];
  }

  lemma ExampleTrim()
    ensures Trim(" secret1") == "secret1"
  {
    var p := "secret1";
    assert !IsWhitespace(p[0]) && !IsWhitespace(p[|p| - 1]);
    assert " secret1"[1..] == p;
    assert TrimStart(" secret1") == TrimStart(p);
    assert TrimStart(p) == p;
    assert TrimEnd(p) == p;
  }

  /** The concrete case: " secret1" registered, then presented again at login. */
  lemma LeadingSpaceExample(users: map<UserId, User>, id: UserId, hash: string -> string, token: Token)
    requires EmailsUnique(users)
    requires hash(" secret1") != hash("secret1")
    requires id in users && users[id] == Registered(ExampleBody(), hash, token)
    ensures FindByCredentialsAsWritten(users, "a@x.com", " secret1", hash) == Err(WrongPassword)
    ensures FindByCredentials(users, "a@x.com", " secret1", hash) == Ok(id)
  {
    ExampleBodyFacts();
    ExampleTrim();
    PaddedPasswordRefused(users, id, ExampleBody(), hash, token, "a@x.com", " secret1");
    RegisteredUserCanLogIn(users, id, ExampleBody(), hash, token, "a@x.com", " secret1");
  }
}
