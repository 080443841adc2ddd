/** The account life cycle end to end: a registration, a login with the
    same credentials, an authenticated request, and a logout. */
module Session {
  import opened Common
  import opened JsString
  import opened Crypto
  import opened UserModel
  import opened UserController
  import opened AuthMiddleware

  /** The login request that repeats a registration's credentials. */
  function LoginWith(req: RegisterRequest): LoginRequest {
    LoginRequest(req.email, req.username, req.password)
  }

  /** After a registration, the same credentials, sent exactly as they were
      at registration (in any case, with any padding), are present, find the
      new record, and verify against its hash. */
  lemma RegisteredCanLogIn(s: Store, req: RegisterRequest, upload: Uploader, p: Primitives)
    requires Sound(p)
    requires Register(s, req, upload, p).result.Ok?
    ensures var s1 := Register(s, req, upload, p).store;
      && Present(LoginWith(req))
      && FindOne(s1, req.username, req.email) == Some(|s.users|)
      && p.compare(req.password.value, s1.users[|s.users|].password)
  {
    var r := Register(s, req, upload, p);
    TrimEmpty(req.username.value);
    TrimEmpty(req.email.value);
    TrimEmpty(req.password.value);
    AppendedIsFound(s, r.store, req.username, req.email);
  }

  /** A store grown by one record that matches a query no earlier record
      matched: `findOne` returns the new record. */
  lemma AppendedIsFound(s: Store, s1: Store, username: Option<string>, email: Option<string>)
    requires |s1.users| == |s.users| + 1 && s1.users[..|s.users|] == s.users
    requires forall j :: 0 <= j < |s.users| ==> !Matches(s.users[j], username, email)
    requires Matches(s1.users[|s.users|], username, email)
    ensures FindOne(s1, username, email) == Some(|s.users|)
  {
    forall j | 0 <= j < |s.users|
      ensures !Matches(s1.users[j], username, email)
    {
      assert s1.users[j] == s.users[j];
    }
    FirstMatch(s1, username, email, |s.users|);
  }

  /** A record that matches, with no match before it, is what `findOne`
      returns. */
  lemma FirstMatch(s: Store, username: Option<string>, email: Option<string>, id: nat)
    requires id < |s.users| && Matches(s.users[id], username, email)
    requires forall j :: 0 <= j < id ==> !Matches(s.users[j], username, email)
    ensures FindOne(s, username, email) == Some(id)
  {
  }

  /** A login that finds record `id` and verifies its password succeeds on
      a valid store; its access token then authenticates the record, its
      refresh token (the one now stored) is refused by the middleware, and
      logging out clears the stored refresh token. */
  lemma LoginThenAuthenticate(s: Store, req: LoginRequest, id: nat, keys: Secrets, p: Primitives)
    requires Valid(s) && Sound(p) && Distinct(keys)
    requires Present(req) && FindOne(s, req.username, req.email) == Some(id)
    requires p.compare(req.password.value, s.users[id].password)
    ensures var login := Login(s, req, keys, p);
      && login.result.Ok?
      && login.result.value.body.user.id == id
      && var s2 := login.store;
      && s2.users[id].refreshToken == Some(login.result.value.body.refreshToken)
      && VerifyJwt(s2, AuthRequest(Some(login.result.value.body.accessToken), None), keys, p)
           == Ok(Principal(id, View(id, s2.users[id])))
      && VerifyJwt(s2, AuthRequest(Some(login.result.value.body.refreshToken), None), keys, p).Err?
      && Logout(s2, id).store.users[id].refreshToken.None?
  {
    LoginOnValidStore(s, req, keys, p);
    var login := Login(s, req, keys, p);
    var s2 := login.store;
    AccessTokenAccepted(s2, id, keys, p, None);
    assert AccessClaims(Doc(id, s2.users[id], false)) == AccessClaims(Doc(id, s.users[id], false));
    RefreshTokenRejected(s2, RefreshClaims(Doc(id, s.users[id], false)), keys, p, None);
  }

  /** Register, then log in with the same credentials: the login succeeds for the new record, whose access token then passes
      the middleware. */
  lemma RegisterThenLogin(s: Store, req: RegisterRequest, upload: Uploader, keys: Secrets, p: Primitives)
    requires Valid(s) && Sound(p) && Distinct(keys)
    requires Register(s, req, upload, p).result.Ok?
    ensures var s1 := Register(s, req, upload, p).store;
      var login := Login(s1, LoginWith(req), keys, p);
      && login.result.Ok?
      && login.result.value.body.user.id == |s.users|
      && VerifyJwt(login.store, AuthRequest(Some(login.result.value.body.accessToken), None), keys, p).Ok?
  {
    var s1 := Register(s, req, upload, p).store;
    RegisterPreservesValid(s, req, upload, p);
    RegisteredCanLogIn(s, req, upload, p);
    LoginThenAuthenticate(s1, LoginWith(req), |s.users|, keys, p);
  }

  /** Once logged out, a second logout changes nothing, and the store stays
      valid throughout. */
  lemma LogoutSettles(s: Store, id: nat)
    requires Valid(s)
    ensures Valid(Logout(s, id).store)
    ensures Logout(Logout(s, id).store, id).store == Logout(s, id).store
  {
    LogoutPreservesValid(s, id);
    LogoutIdempotent(s, id);
  }
}
