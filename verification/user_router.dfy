/**
 * The handlers of src/routers/user.js over the store. Every protected handler
 * receives the caller the auth middleware resolved: a user present in the
 * store (and, for logout, the token it presented, still live).
 */
module UserRouter {
  import opened Wrappers
  import opened Strings
  import opened Json
  import opened UserModel
  import opened TaskModel
  import opened Store

  datatype ProfileError = InvalidUpdate | Rejected(error: UserError)

  /**
   * Why an upload stores nothing: the filter or the size ceiling refused the file,
   * the request had no file part, or sharp could not decode the payload.
   */
  datatype AvatarError = NotAnImage | FileTooLarge | NoFile | UndecodableImage

  /** `req.file` as multer leaves it: the client's file name and the received bytes. */
  datatype UploadedFile = UploadedFile(originalName: string, buffer: Bytes)

  /** The upload size ceiling, in bytes. */
  const MaxAvatarBytes: nat := 1000000

  /** The extensions the upload filter's regular expression lists. */
  const ImageExtensions: seq<string> := ["jpg", "JPG", "jpeg", "JPEG", "png", "PNG"]

  const NoAvatarMessage: string := "No user or user avatar found!"

  // ---------------------------------------------------------------- sessions

  /** `tokens.filter(t => t !== token)`. */
  function RemoveToken(tokens: seq<Token>, token: Token): seq<Token>
  {
    if tokens == [] then []
    else (if tokens[0] == token then [] else [tokens[0]]) + RemoveToken(tokens[1..], token)
  }

  /** Every copy of the presented token goes; each other entry stays as often as it was there. */
  lemma {:induction false} RemoveTokenCounts(tokens: seq<Token>, token: Token)
    ensures multiset(RemoveToken(tokens, token)) == multiset(tokens)[token := 0]
  {
    if tokens != [] {
      RemoveTokenCounts(tokens[1..], token);
      assert tokens == [tokens[0]] + tokens[1..];
      assert multiset(tokens) == multiset{tokens[0]} + multiset(tokens[1..]);
    }
  }

  /** The filter keeps the order of the surviving entries: it distributes over concatenation. */
  lemma {:induction false} RemoveTokenConcat(a: seq<Token>, b: seq<Token>, token: Token)
    ensures RemoveToken(a + b, token) == RemoveToken(a, token) + RemoveToken(b, token)
  {
    if a == [] {
      assert a + b == b;
    } else {
      assert (a + b)[0] == a[0] && (a + b)[1..] == a[1..] + b;
      RemoveTokenConcat(a[1..], b, token);
    }
  }

  /** A token that is not in the list leaves the list as it is. */
  lemma {:induction false} RemoveAbsentToken(tokens: seq<Token>, token: Token)
    requires token !in tokens
    ensures RemoveToken(tokens, token) == tokens
  {
    if tokens != [] {
      RemoveAbsentToken(tokens[1..], token);
      assert [tokens[0]] + tokens[1..] == tokens;
    }
  }

  /** Logging out twice with the same token is logging out once. */
  lemma RemoveTokenIdempotent(tokens: seq<Token>, token: Token)
    ensures RemoveToken(RemoveToken(tokens, token), token) == RemoveToken(tokens, token)
  {
    RemoveTokenCounts(tokens, token);
    assert token !in multiset(RemoveToken(tokens, token));
    RemoveAbsentToken(RemoveToken(tokens, token), token);
  }

  /** Logging out the session just issued gives back the earlier sessions, filtered. */
  lemma LogoutUndoesLogin(tokens: seq<Token>, token: Token)
    ensures RemoveToken(tokens + [token], token) == RemoveToken(tokens, token)
  {
    RemoveTokenConcat(tokens, [token], token);
    assert RemoveToken([token], token) == [];
  }

  /** POST /users: build the document from the body, save it, then issue the first token. */
  method CreateUser(db: Db, id: UserId, body: Body, token: Token)
    returns (r: Result<(map<string, Value>, Token), UserError>)
    requires db.Valid() && id !in db.users
    modifies db
    ensures db.Valid() && db.tasks == old(db.tasks)
    ensures var check := SaveCheck(old(db.users), id, AssignAll(NewDoc(), body), db.isEmail);
            && (check.Fail? ==> r == Err(check.error) && db.users == old(db.users))
            && (check.Pass? ==> db.users == old(db.users)[id := Registered(body, db.hash, token)]
                                && r == Ok((PublicView(id, Registered(body, db.hash, token)), token)))
  {
    var doc := AssignAll(NewDoc(), body);
    var saved := db.SaveUser(id, doc);
    if saved.Fail? {
      return Err(saved.error);
    }
    TokenSaveKeepsPassword(db.users[id], token, db.hash);
    var t := db.GenerateAuthToken(id, token);
    r := Ok((PublicView(id, db.users[id]), t));
  }

  /** POST /users/login: check the credentials, then issue a new token to that user. */
  method Login(db: Db, email: string, password: string, token: Token)
    returns (r: Result<(map<string, Value>, Token), LoginError>)
    requires db.Valid()
    modifies db
    ensures db.Valid() && db.tasks == old(db.tasks)
    ensures var found := FindByCredentials(old(db.users), email, password, db.hash);
            && (found.Err? ==> r == Err(found.error) && db.users == old(db.users))
            && (found.Ok? ==> var u := old(db.users)[found.value].(tokens := old(db.users)[found.value].tokens + [token]);
                              db.users == old(db.users)[found.value := u]
                              && r == Ok((PublicView(found.value, u), token)))
  {
    var found := FindByCredentials(db.users, email, password, db.hash);
    if found.Err? {
      return Err(found.error);
    }
    var t := db.GenerateAuthToken(found.value, token);
    r := Ok((PublicView(found.value, db.users[found.value]), t));
  }

  /** POST /users/logout: the presented token is filtered out of the caller's list. */
  method Logout(db: Db, caller: UserId, token: Token)
    requires db.Valid() && IsLive(db.users, caller, token)
    modifies db
    ensures db.Valid() && db.tasks == old(db.tasks)
    ensures db.users == old(db.users)[caller := old(db.users)[caller].(tokens := RemoveToken(old(db.users)[caller].tokens, token))]
    ensures !IsLive(db.users, caller, token)
    ensures forall t :: t != token ==> (IsLive(db.users, caller, t) <==> IsLive(old(db.users), caller, t))
  {
    var tokens := RemoveToken(db.users[caller].tokens, token);
    var before := db.users[caller].tokens;
    RemoveTokenCounts(before, token);
    db.SaveTokens(caller, tokens);
    assert token !in multiset(tokens);
    forall t | t != token
      ensures t in tokens <==> t in before
    {
      assert multiset(tokens)[t] == multiset(before)[t];
    }
  }

  /** POST /users/logoutAll: the caller's token list becomes empty. */
  method LogoutAll(db: Db, caller: UserId)
    requires db.Valid() && caller in db.users
    modifies db
    ensures db.Valid() && db.tasks == old(db.tasks)
    ensures db.users == old(db.users)[caller := old(db.users)[caller].(tokens := [])]
    ensures forall t :: !IsLive(db.users, caller, t)
  {
    db.SaveTokens(caller, []);
  }

  /** GET /users/me: the caller's public view. */
  method ReadProfile(db: Db, caller: UserId) returns (view: map<string, Value>)
    requires caller in db.users
    ensures "password" !in view && "tokens" !in view && "avatar" !in view
    ensures view == PublicView(caller, db.users[caller])
  {
    view := PublicView(caller, db.users[caller]);
  }

  // ---------------------------------------------------------------- profile

  /** `updates.forEach(update => user[update] = req.body[update])`. */
  method ApplyProfileUpdates(doc: Doc, body: Body) returns (d: Doc)
    ensures d == AssignAll(doc, body)
  {
    d := doc;
    var i := 0;
    while i < |body|
      invariant 0 <= i <= |body|
      invariant AssignAll(d, body[i..]) == AssignAll(doc, body)
    {
      assert body[i..][1..] == body[i + 1..];
      d := Assign(d, body[i].0, body[i].1);
      i := i + 1;
    }
  }

  /** PATCH /users/me: allow-list first, then the assignments, then a save that validates and may hash. */
  method UpdateProfile(db: Db, caller: UserId, body: Body) returns (r: Result<map<string, Value>, ProfileError>)
    requires db.Valid() && caller in db.users
    modifies db
    ensures db.Valid() && db.tasks == old(db.tasks)
    ensures !Every(Keys(body), ProfileKeys) ==> r == Err(InvalidUpdate) && db.users == old(db.users)
    ensures Every(Keys(body), ProfileKeys) ==>
              var doc := AssignAll(Load(old(db.users)[caller]), body);
              var check := SaveCheck(old(db.users), caller, doc, db.isEmail);
              && (check.Fail? ==> r == Err(Rejected(check.error)) && db.users == old(db.users))
              && (check.Pass? ==> db.users == old(db.users)[caller := PreSave(doc, db.hash)]
                                  && r == Ok(PublicView(caller, PreSave(doc, db.hash))))
  {
    if !Every(Keys(body), ProfileKeys) {
      return Err(InvalidUpdate);
    }
    var doc := ApplyProfileUpdates(Load(db.users[caller]), body);
    var saved := db.SaveUser(caller, doc);
    if saved.Fail? {
      return Err(Rejected(saved.error));
    }
    r := Ok(PublicView(caller, db.users[caller]));
  }

  /**
   * What an accepted profile update stores: each supplied field takes its
   * supplied value, a changed password is stored hashed once, and the tokens
   * and the avatar are those of before.
   */
  lemma {:induction false} AcceptedProfileUpdate(u: User, body: Body, hash: string -> string)
    requires DistinctKeys(body)
    ensures var s := PreSave(AssignAll(Load(u), body), hash);
            && s.name == NameAfter(u, body) && s.email == EmailAfter(u, body) && s.age == AgeAfter(u, body)
            && s.password == (if PasswordAfter(u, body) != u.password then hash(PasswordAfter(u, body)) else u.password)
            && s.tokens == u.tokens && s.avatar == u.avatar
  {
    AssignAllIsProfileAfter(Load(u), body);
  }

  /** DELETE /users/me: the user and, by the cascade, every task they own. */
  method DeleteProfile(db: Db, caller: UserId) returns (view: map<string, Value>)
    requires db.Valid() && caller in db.users
    modifies db
    ensures db.Valid()
    ensures db.users == old(db.users) - {caller}
    ensures forall t :: t in db.tasks <==> t in old(db.tasks) && old(db.tasks)[t].owner != caller
    ensures forall t :: t in db.tasks ==> db.tasks[t] == old(db.tasks)[t]
    ensures view == PublicView(caller, old(db.users)[caller])
  {
    var u := db.RemoveUser(caller);
    // the cancellation email is sent here; it is not part of this model
    view := PublicView(caller, u);
  }

  // ---------------------------------------------------------------- avatar

  /** The text after the last dot of a file name, if it has a dot. */
  function Extension(name: string): (r: Option<string>)
    ensures r.Some? ==> '.' !in r.value && EndsWith(name, "." + r.value)
    ensures r.None? ==> '.' !in name
  {
    if name == [] then None
    else if name[|name| - 1] == '.' then Some([])
    else
      var init := name[..|name| - 1];
      assert name == init + [name[|name| - 1]];
      match Extension(init)
      case None => None
      case Some(e) => Some(e + [name[|name| - 1]])
  }

  /** A name ending in a dot and a dot-free `e` has extension `e`. */
  lemma {:induction false} ExtensionOfSuffix(name: string, e: string)
    requires '.' !in e && EndsWith(name, "." + e)
    ensures Extension(name) == Some(e)
    decreases |e|
  {
    if e != [] {
      var init := name[..|name| - 1];
      var e' := e[..|e| - 1];
      assert EndsWith(init, "." + e') by {
        assert init[|init| - |"." + e'|..] == name[|name| - |"." + e|..][..|e|];
      }
      ExtensionOfSuffix(init, e');
      assert e' + [name[|name| - 1]] == e;
    }
  }

  /** The upload filter, `/\.(jpg|JPG|jpeg|JPEG|png|PNG)$/`. */
  function AvatarFileAccepted(fileName: string): (ok: bool)
    ensures ok <==> Extension(fileName).Some? && Extension(fileName).value in ImageExtensions
  {
    var ok := exists k | 0 <= k < |ImageExtensions| :: EndsWith(fileName, "." + ImageExtensions[k]);
    assert ok ==> Extension(fileName).Some? && Extension(fileName).value in ImageExtensions by {
      if ok {
        var k :| 0 <= k < |ImageExtensions| && EndsWith(fileName, "." + ImageExtensions[k]);
        ExtensionOfSuffix(fileName, ImageExtensions[k]);
      }
    }
    assert Extension(fileName).Some? && Extension(fileName).value in ImageExtensions ==> ok by {
      if Extension(fileName).Some? && Extension(fileName).value in ImageExtensions {
        var e := Extension(fileName).value;
        var k :| 0 <= k < |ImageExtensions| && ImageExtensions[k] == e;
      }
    }
    ok
  }

  /** An extension in mixed case, such as `Jpg`, is refused. */
  lemma MixedCaseRejected(stem: string)
    ensures !AvatarFileAccepted(stem + ".Jpg")
  {
    ExtensionOfSuffix(stem + ".Jpg", "Jpg");
  }

  /**
   * POST /users/me/avatar: multer's filter and size ceiling, then sharp's
   * resize-to-PNG, then the image is stored. `toPng` is None when sharp rejects
   * the payload; with no file part `req.file.buffer` throws before anything is stored.
   */
  method UploadAvatar(db: Db, caller: UserId, file: Option<UploadedFile>, toPng: Bytes -> Option<Bytes>)
    returns (r: Outcome<AvatarError>)
    requires db.Valid() && caller in db.users
    modifies db
    ensures db.Valid() && db.tasks == old(db.tasks)
    ensures r == if file.None? then Fail(NoFile)
                 else if !AvatarFileAccepted(file.value.originalName) then Fail(NotAnImage)
                 else if |file.value.buffer| > MaxAvatarBytes then Fail(FileTooLarge)
                 else if toPng(file.value.buffer).None? then Fail(UndecodableImage)
                 else Pass
    ensures r.Fail? ==> db.users == old(db.users)
    ensures r.Pass? ==> db.users == old(db.users)[caller := old(db.users)[caller].(avatar := toPng(file.value.buffer))]
  {
    if file.None? {
      return Fail(NoFile);
    }
    if !AvatarFileAccepted(file.value.originalName) {
      return Fail(NotAnImage);
    }
    if |file.value.buffer| > MaxAvatarBytes {
      return Fail(FileTooLarge);
    }
    var image := toPng(file.value.buffer);
    if image.None? {
      return Fail(UndecodableImage);
    }
    db.SaveAvatar(caller, image);
    r := Pass;
  }

  /** DELETE /users/me/avatar: the caller is left without an avatar. */
  method DeleteAvatar(db: Db, caller: UserId)
    requires db.Valid() && caller in db.users
    modifies db
    ensures db.Valid() && db.tasks == old(db.tasks)
    ensures db.users == old(db.users)[caller := old(db.users)[caller].(avatar := None)]
  {
    db.SaveAvatar(caller, None);
  }

  /** GET /users/:id/avatar: the image, or the not-found message for a missing user or avatar. */
  method GetAvatar(db: Db, id: UserId) returns (r: Result<Bytes, string>)
    ensures r.Ok? <==> id in db.users && db.users[id].avatar.Some?
    ensures r.Ok? ==> r.value == db.users[id].avatar.value
    ensures r.Err? ==> r.error == NoAvatarMessage
  {
    if id !in db.users || db.users[id].avatar.None? {
      return Err(NoAvatarMessage);
    }
    r := Ok(db.users[id].avatar.value);
  }
}
