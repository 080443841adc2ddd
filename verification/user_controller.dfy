/** The account controller: `registerUser`, `loginUser`, `logoutUser` and
    the helper `generateAccessAndRefreshToken`, each a transition from a
    store and a request to a result and a new store. */
module UserController {
  import opened Common
  import opened JsString
  import opened Crypto
  import opened UserModel

  const FillAllFields := "Please fill all the fields"
  const UserExists := "User or email already exists"
  const AvatarRequired := "Avatar file is required"
  const TokenFailure := "Something went wrong while generating refresh and access token"
  const UserNotFound := "User not found"
  const InvalidPassword := "Invalid password"

  /** A file the upload middleware saved to local disk. */
  datatype UploadedFile = UploadedFile(path: string)

  /** `req.files`: the file arrays of the two upload fields, each possibly
      missing. */
  datatype Files = Files(avatar: Option<seq<UploadedFile>>, coverImage: Option<seq<UploadedFile>>)

  /** The multipart registration request: the four text fields and the
      files, any of which may be missing. */
  datatype RegisterRequest = RegisterRequest(
    username: Option<string>,
    email: Option<string>,
    password: Option<string>,
    fullname: Option<string>,
    files: Option<Files>)

  /** The remote asset store: the URL a local file was uploaded to, or None
      when the upload failed. */
  type Uploader = string -> Option<string>

  /** `uploadOnCloudinary(localFilePath)`: no path, no upload. */
  function UploadOnCloudinary(path: Option<string>, upload: Uploader): (r: Option<string>)
    ensures !Truthy(path) ==> r.None?
  {
    if !Truthy(path) then None else upload(path.value)
  }

  /** `field?.trim() === ""`: a present value that trims to nothing.  An
      absent field is not caught, since `undefined === ""` is false. */
  predicate TrimsToEmpty(field: Option<string>) {
    field.Some? && Trim(field.value) == ""
  }

  /** The validation check of registration. */
  predicate AnyBlank(req: RegisterRequest) {
    TrimsToEmpty(req.username) || TrimsToEmpty(req.email)
    || TrimsToEmpty(req.password) || TrimsToEmpty(req.fullname)
  }

  /** `req.files?.avatar[0]?.path`.  With no `files` object the path is
      undefined; with a `files` object lacking an `avatar` array, indexing
      `undefined` throws. */
  function AvatarPath(files: Option<Files>): Result<Option<string>> {
    match files
    case None => Ok(None)
    case Some(f) =>
      match f.avatar
      case None => Err(TypeError)
      case Some(list) => if |list| == 0 then Ok(None) else Ok(Some(list[0].path))
  }

  /** The cover path: set only when `coverImage` is a non-empty array. */
  function CoverPath(files: Option<Files>): Option<string> {
    if files.Some? && files.value.coverImage.Some? && |files.value.coverImage.value| > 0 then
      Some(files.value.coverImage.value[0].path)
    else
      None
  }

  /** An object entry whose value may be undefined; undefined values are
      not stored. */
  function Entry(key: string, value: Option<string>): map<string, string> {
    if value.Some? then map[key := value.value] else map[]
  }

  /** The object the controller passes to `User.create`.  The cover URL goes
      under the key `coverImage`, which the schema (field `coverimage`) does
      not declare. */
  function CreateFields(username: string, req: RegisterRequest, avatarUrl: string, coverUrl: Option<string>): map<string, string> {
    map["username" := Lower(username), "avatar" := avatarUrl]
    + Entry("email", req.email) + Entry("password", req.password)
    + Entry("fullname", req.fullname) + Entry("coverImage", coverUrl)
  }

  /** The draft registration should produce: the setters applied to the
      request's fields, the avatar URL, and no cover image. */
  function RegisterDraft(username: string, req: RegisterRequest, avatarUrl: string): Draft {
    Draft(Some(Normalize(username)), MapOpt(req.email, Normalize), MapOpt(req.fullname, Trim),
          Some(avatarUrl), None, req.password)
  }

  /** What the schema makes of the controller's object: the setters run on
      the declared fields (the controller's own `toLowerCase` makes no
      difference), and `coverImage` is dropped, so the cover URL has no
      effect. */
  lemma CastCreateFields(username: string, req: RegisterRequest, avatarUrl: string, coverUrl: Option<string>)
    ensures Cast(CreateFields(username, req, avatarUrl, coverUrl)) == RegisterDraft(username, req, avatarUrl)
  {
    var lowered := Lower(username);
    var base := map["username" := lowered, "avatar" := avatarUrl];
    var m1 := base + Entry("email", req.email);
    var m2 := m1 + Entry("password", req.password);
    var m3 := m2 + Entry("fullname", req.fullname);
    var m4 := m3 + Entry("coverImage", coverUrl);
    assert Field(m4, "username") == Some(lowered);
    assert Field(m4, "avatar") == Some(avatarUrl);
    assert Field(m4, "email") == req.email;
    assert Field(m4, "password") == req.password;
    assert Field(m4, "fullname") == req.fullname;
    assert Field(m4, "coverimage") == None;
    assert Normalize(lowered) == Normalize(username) by {
      NormalizeFixpoint(username);
    }
  }

  /** The record a successful registration adds: username and email
      lower-cased and trimmed, full name trimmed, the uploaded avatar URL,
      the hashed password, no cover image and no refresh token. */
  predicate Registered(u: User, req: RegisterRequest, avatarUrl: string, p: Primitives) {
    && req.username.Some? && req.email.Some? && req.password.Some? && req.fullname.Some?
    && u.username == Normalize(req.username.value)
    && u.email == Normalize(req.email.value)
    && u.fullname == Trim(req.fullname.value)
    && u.avatar == avatarUrl
    && u.coverimage.None?
    && u.password == p.hash(req.password.value)
    && u.refreshToken.None?
  }

  /** A request that no stored record matches cannot collide at the create:
      the lookup casts its values through the same setters the create
      applies. */
  lemma UnmatchedDoesNotCollide(s: Store, req: RegisterRequest, avatarUrl: string, p: Primitives)
    requires req.username.Some? && FindOne(s, req.username, req.email).None?
    ensures var d := RegisterDraft(req.username.value, req, avatarUrl);
      DraftComplete(d) ==> !CollidesWithOthers(s, Realize(d, p), -1)
  {
    var d := RegisterDraft(req.username.value, req, avatarUrl);
    if DraftComplete(d) {
      var u := Realize(d, p);
      forall j | 0 <= j < |s.users|
        ensures !Collide(s.users[j], u)
      {
        assert !Matches(s.users[j], req.username, req.email);
      }
    }
  }

  /** `registerUser`.  The checks run in the order `registerUser` performs
      them: blank field (400), existing username or email (409), avatar path
      (a TypeError or 400), avatar upload (400), the username read (a
      TypeError), then the create (a ValidationError).  The create's
      unique indexes never fire, since the 409 lookup already compared the
      same cast values.  A success needs nothing of the cover image.  Every
      failure leaves the store unchanged; a success appends exactly one
      record and replies 201 with the record minus password and refresh
      token. */
  function Register(s: Store, req: RegisterRequest, upload: Uploader, p: Primitives): (r: Step<Reply<PublicUser>>)
    ensures r.result.Err? ==> r.store == s
    ensures r.result != Err(DuplicateKey)
    ensures AnyBlank(req) ==> r.result == Err(ApiError(400, FillAllFields))
    ensures !AnyBlank(req) && FindOne(s, req.username, req.email).Some? ==>
      r.result == Err(ApiError(409, UserExists))
    ensures !AnyBlank(req) && FindOne(s, req.username, req.email).None? && AvatarPath(req.files).Err? ==>
      r.result == Err(TypeError)
    ensures !AnyBlank(req) && FindOne(s, req.username, req.email).None?
      && AvatarPath(req.files).Ok? && !Truthy(AvatarPath(req.files).value)
      ==> r.result == Err(ApiError(400, AvatarRequired))
    ensures !AnyBlank(req) && FindOne(s, req.username, req.email).None?
      && AvatarPath(req.files).Ok? && Truthy(AvatarPath(req.files).value)
      && upload(AvatarPath(req.files).value.value).None?
      ==> r.result == Err(ApiError(400, AvatarRequired))
    ensures !AnyBlank(req) && FindOne(s, req.username, req.email).None?
      && AvatarPath(req.files).Ok? && Truthy(AvatarPath(req.files).value)
      && upload(AvatarPath(req.files).value.value).Some? && req.username.None?
      ==> r.result == Err(TypeError)
    ensures !AnyBlank(req) && FindOne(s, req.username, req.email).None?
      && AvatarPath(req.files).Ok? && Truthy(AvatarPath(req.files).value)
      && upload(AvatarPath(req.files).value.value).Some? && req.username.Some?
      && !DraftComplete(RegisterDraft(req.username.value, req, upload(AvatarPath(req.files).value.value).value))
      ==> r.result == Err(ValidationError)
    ensures r.result.Ok? <==>
      && !AnyBlank(req) && FindOne(s, req.username, req.email).None?
      && AvatarPath(req.files).Ok? && Truthy(AvatarPath(req.files).value)
      && upload(AvatarPath(req.files).value.value).Some? && req.username.Some?
      && DraftComplete(RegisterDraft(req.username.value, req, upload(AvatarPath(req.files).value.value).value))
    ensures r.result.Ok? ==>
      && !AnyBlank(req)
      && (forall j :: 0 <= j < |s.users| ==> !Matches(s.users[j], req.username, req.email))
      && AvatarPath(req.files).Ok? && Truthy(AvatarPath(req.files).value)
      && upload(AvatarPath(req.files).value.value).Some?
      && |r.store.users| == |s.users| + 1
      && r.store.users[..|s.users|] == s.users
      && Registered(r.store.users[|s.users|], req, upload(AvatarPath(req.files).value.value).value, p)
      && r.result.value == Reply(201, View(|s.users|, r.store.users[|s.users|]))
  {
    if AnyBlank(req) then Step(Err(ApiError(400, FillAllFields)), s)
    else if FindOne(s, req.username, req.email).Some? then Step(Err(ApiError(409, UserExists)), s)
    else match AvatarPath(req.files)
      case Err(e) => Step(Err(e), s)
      case Ok(avatarPath) =>
        if !Truthy(avatarPath) then Step(Err(ApiError(400, AvatarRequired)), s)
        else
          var avatar := UploadOnCloudinary(avatarPath, upload);
          var cover := UploadOnCloudinary(CoverPath(req.files), upload);
          if avatar.None? then Step(Err(ApiError(400, AvatarRequired)), s)
          else if req.username.None? then Step(Err(TypeError), s)
          else
            var fields := CreateFields(req.username.value, req, avatar.value, cover);
            var created := Create(s, fields, p);
            CastCreateFields(req.username.value, req, avatar.value, cover);
            UnmatchedDoesNotCollide(s, req, avatar.value, p);
            match created.result
            case Err(e) => Step(Err(e), s)
            case Ok(id) =>
              NormalizeFixpoint(req.username.value);
              assert created.store.users[..|s.users|] == s.users;
              Step(Ok(Reply(201, View(id, created.store.users[id]))), created.store)
  }


  /** Registration keeps the store valid: the new record is well formed and
      collides with no stored record. */
  lemma RegisterPreservesValid(s: Store, req: RegisterRequest, upload: Uploader, p: Primitives)
    requires Valid(s) && Sound(p)
    ensures Valid(Register(s, req, upload, p).store)
  {
    var r := Register(s, req, upload, p);
    if r.result.Ok? {
      var avatarPath := AvatarPath(req.files).value;
      var avatar := UploadOnCloudinary(avatarPath, upload);
      var cover := UploadOnCloudinary(CoverPath(req.files), upload);
      CreatePreservesValid(s, CreateFields(req.username.value, req, avatar.value, cover), p);
    }
  }

  /** A freshly registered user's own password verifies against the stored
      hash. */
  lemma RegisteredPasswordVerifies(s: Store, req: RegisterRequest, upload: Uploader, p: Primitives)
    requires Sound(p)
    requires Register(s, req, upload, p).result.Ok?
    ensures var r := Register(s, req, upload, p);
      IsPasswordCorrect(Load(r.store, |s.users|).value, req.password.value, p)
  {
  }

  /** An absent field is not blank: a request with no fields and no files
      passes the validation and the existence check and fails on the
      avatar. */
  lemma AbsentFieldsPassValidation(s: Store, upload: Uploader, p: Primitives)
    ensures Register(s, RegisterRequest(None, None, None, None, None), upload, p).result
      == Err(ApiError(400, AvatarRequired))
  {
  }

  /** Without a username the controller reaches `username.toLowerCase()`,
      which throws, even when the avatar was uploaded. */
  lemma MissingUsernameThrows(s: Store, url: string, upload: Uploader, p: Primitives)
    requires upload("avatar") == Some(url)
    ensures Register(s, RegisterRequest(None, None, None, None,
      Some(Files(Some([UploadedFile("avatar")]), None))), upload, p).result == Err(TypeError)
  {
  }

  /** A missing cover file, or a cover upload that fails, changes nothing:
      registration gives the same result and store whatever the cover field
      holds and whatever the uploader does with it. */
  lemma CoverDoesNotMatter(s: Store, req: RegisterRequest, f: Files, cover: Option<seq<UploadedFile>>,
                           upload: Uploader, p: Primitives)
    requires req.files == Some(f)
    ensures Register(s, req.(files := Some(f.(coverImage := cover))), upload, p)
         == Register(s, req.(files := Some(f.(coverImage := None))), upload, p)
  {
    var r1 := req.(files := Some(f.(coverImage := cover)));
    var r2 := req.(files := Some(f.(coverImage := None)));
    var a := Register(s, r1, upload, p);
    var b := Register(s, r2, upload, p);
    assert AnyBlank(r1) == AnyBlank(r2);
    assert AvatarPath(r1.files) == AvatarPath(r2.files);
    if a.result.Ok? {
      assert b.result.Ok?;
      var n := |s.users|;
      assert a.store.users[n] == b.store.users[n];
      assert a.store.users == a.store.users[..n] + [a.store.users[n]];
      assert b.store.users == b.store.users[..n] + [b.store.users[n]];
    }
  }

  /** The JSON login request. */
  datatype LoginRequest = LoginRequest(email: Option<string>, username: Option<string>, password: Option<string>)

  /** The two tokens `generateAccessAndRefreshToken` returns. */
  datatype TokenPair = TokenPair(accessToken: string, refreshToken: string)

  /** The login reply body: the user minus password and refresh token, and
      both tokens. */
  datatype LoginBody = LoginBody(user: PublicUser, accessToken: string, refreshToken: string)

  /** The record after a login: only its refresh token replaced. */
  function WithRefresh(s: Store, id: nat, t: Option<string>): Store
    requires id < |s.users|
  {
    Store(s.users[id := s.users[id].(refreshToken := t)])
  }

  /** `generateAccessAndRefreshToken(userId)`: loads the record, runs the two
      generators, assigns the refresh token again and starts a last save
      with validation off, whose completion is not awaited (its failure is
      not observed).  Every failure, including a missing record, is reported
      as one 500 error. */
  function GenerateAccessAndRefreshToken(s: Store, id: nat, keys: Secrets, p: Primitives): (r: Step<TokenPair>)
    ensures |r.store.users| == |s.users|
    ensures id >= |s.users| ==> r == Step(Err(ApiError(500, TokenFailure)), s)
    ensures r.result.Err? ==> r.result.error == ApiError(500, TokenFailure)
    ensures r.result.Ok? ==>
      && id < |s.users|
      && r.result.value.refreshToken == p.sign(RefreshClaims(Doc(id, s.users[id], false)), keys.refresh)
      && r.result.value.accessToken == p.sign(AccessClaims(Doc(id, s.users[id], false)), keys.access)
  {
    match Load(s, id)
    case None => Step(Err(ApiError(500, TokenFailure)), s)
    case Some(doc) =>
      var a := GenerateAuthToken(s, doc, keys, p);
      if a.result.Err? then Step(Err(ApiError(500, TokenFailure)), a.store)
      else
        var b := GenerateRefreshToken(a.store, a.result.value.doc, keys, p);
        if b.result.Err? then Step(Err(ApiError(500, TokenFailure)), b.store)
        else
          var d := b.result.value.doc;
          var last := Save(b.store, d.(user := d.user.(refreshToken := Some(b.result.value.token))), p, false);
          Step(Ok(TokenPair(a.result.value.token, b.result.value.token)), last.store)
  }

  /** In a valid store the token generation for a stored record succeeds
      and, of the whole record, changes only the refresh token, which ends
      up holding the returned refresh token. */
  lemma TokensOnValidStore(s: Store, id: nat, keys: Secrets, p: Primitives)
    requires Valid(s) && id < |s.users|
    ensures var r := GenerateAccessAndRefreshToken(s, id, keys, p);
      && r.result.Ok?
      && r.store == WithRefresh(s, id, Some(r.result.value.refreshToken))
  {
    var doc := Load(s, id).value;
    GeneratorsOverwrite(s, id, keys, p);
    var a := GenerateAuthToken(s, doc, keys, p);
    var b := GenerateRefreshToken(a.store, a.result.value.doc, keys, p);
    var tb := b.result.value.token;
    assert b.store == WithRefresh(s, id, Some(tb));
    SetRefreshPreservesValid(s, id, Some(tb));
    SaveRefreshSucceeds(b.store, id, Some(tb), p, false);
    assert b.store.users[id].(refreshToken := Some(tb)) == b.store.users[id];
    assert b.store.users[id := b.store.users[id]] == b.store.users;
  }

  /** The login checks, in order, that all three credentials are present. */
  predicate Present(req: LoginRequest) {
    Truthy(req.username) && Truthy(req.email) && Truthy(req.password)
  }

  /** `loginUser`.  The checks run in the order `loginUser` performs them:
      a missing or empty credential (400), no record matching username or
      email (404), a password that does not verify (401); none of them
      touches the store.  A success replies 200 with the user and both
      freshly signed tokens.  When the username names one record and the
      email another, the password is checked against the one `FindOne`
      picks. */
  function Login(s: Store, req: LoginRequest, keys: Secrets, p: Primitives): (r: Step<Reply<LoginBody>>)
    ensures !Present(req) ==> r == Step(Err(ApiError(400, FillAllFields)), s)
    ensures Present(req) && FindOne(s, req.username, req.email).None? ==>
      r == Step(Err(ApiError(404, UserNotFound)), s)
    ensures Present(req) && FindOne(s, req.username, req.email).Some?
      && !p.compare(req.password.value, s.users[FindOne(s, req.username, req.email).value].password)
      ==> r == Step(Err(ApiError(401, InvalidPassword)), s)
    ensures r.result.Ok? ==>
      var id := FindOne(s, req.username, req.email).value;
      && Present(req)
      && p.compare(req.password.value, s.users[id].password)
      && r.result.value.status == 200
      && r.result.value.body.user == View(id, s.users[id])
      && r.result.value.body.accessToken == p.sign(AccessClaims(Doc(id, s.users[id], false)), keys.access)
      && r.result.value.body.refreshToken == p.sign(RefreshClaims(Doc(id, s.users[id], false)), keys.refresh)
  {
    if !Present(req) then Step(Err(ApiError(400, FillAllFields)), s)
    else match FindOne(s, req.username, req.email)
      case None => Step(Err(ApiError(404, UserNotFound)), s)
      case Some(id) =>
        if !IsPasswordCorrect(Doc(id, s.users[id], false), req.password.value, p) then
          Step(Err(ApiError(401, InvalidPassword)), s)
        else
          var g := GenerateAccessAndRefreshToken(s, id, keys, p);
          match g.result
          case Err(e) => Step(Err(e), g.store)
          case Ok(pair) =>
            Step(Ok(Reply(200, LoginBody(View(id, g.store.users[id]), pair.accessToken, pair.refreshToken))), g.store)
  }

  /** On a valid store a login that passes the checks succeeds, and the
      matched record's refresh token becomes the returned refresh token;
      nothing else in the store changes.  A login that fails leaves the
      store unchanged. */
  lemma LoginOnValidStore(s: Store, req: LoginRequest, keys: Secrets, p: Primitives)
    requires Valid(s)
    ensures var r := Login(s, req, keys, p);
      && (r.result.Err? ==> r.store == s)
      && (Present(req) && FindOne(s, req.username, req.email).Some?
          && p.compare(req.password.value, s.users[FindOne(s, req.username, req.email).value].password)
          ==> r.result.Ok?)
      && (r.result.Ok? ==>
            r.store == WithRefresh(s, FindOne(s, req.username, req.email).value,
                                   Some(r.result.value.body.refreshToken)))
  {
    if Present(req) && FindOne(s, req.username, req.email).Some? {
      TokensOnValidStore(s, FindOne(s, req.username, req.email).value, keys, p);
    }
  }

  /** Under sound primitives and distinct secrets, the token a login leaves
      in the record is the refresh token, never the access token. */
  lemma LoginStoresRefreshNotAccess(s: Store, req: LoginRequest, keys: Secrets, p: Primitives)
    requires Valid(s) && Sound(p) && Distinct(keys)
    requires Login(s, req, keys, p).result.Ok?
    ensures var r := Login(s, req, keys, p);
      var id := FindOne(s, req.username, req.email).value;
      && r.store.users[id].refreshToken == Some(r.result.value.body.refreshToken)
      && r.store.users[id].refreshToken != Some(r.result.value.body.accessToken)
  {
    var r := Login(s, req, keys, p);
    var id := FindOne(s, req.username, req.email).value;
    var doc := Doc(id, s.users[id], false);
    LoginOnValidStore(s, req, keys, p);
    SignSeparatesSecrets(p, RefreshClaims(doc), AccessClaims(doc), keys.refresh, keys.access);
  }

  /** Login keeps the store valid. */
  lemma LoginPreservesValid(s: Store, req: LoginRequest, keys: Secrets, p: Primitives)
    requires Valid(s)
    ensures Valid(Login(s, req, keys, p).store)
  {
    var r := Login(s, req, keys, p);
    LoginOnValidStore(s, req, keys, p);
    if r.result.Ok? {
      SetRefreshPreservesValid(s, FindOne(s, req.username, req.email).value, Some(r.result.value.body.refreshToken));
    }
  }

  /** `logoutUser` for the authenticated user `id`: `findByIdAndUpdate` with
      `$set: { refreshToken: undefined }` clears that record's refresh token
      and changes nothing else; the reply is 200 whether or not the record
      still exists. */
  function Logout(s: Store, id: nat): (r: Step<Reply<()>>)
    ensures r.result == Ok(Reply(200, ()))
    ensures |r.store.users| == |s.users|
    ensures forall j :: 0 <= j < |s.users| && j != id ==> r.store.users[j] == s.users[j]
    ensures id < |s.users| ==> r.store.users[id] == s.users[id].(refreshToken := None)
  {
    if id < |s.users| then Step(Ok(Reply(200, ())), WithRefresh(s, id, None))
    else Step(Ok(Reply(200, ())), s)
  }

  /** Logging out twice leaves the same store as logging out once. */
  lemma LogoutIdempotent(s: Store, id: nat)
    ensures Logout(Logout(s, id).store, id) == Logout(s, id)
  {
    var once := Logout(s, id).store;
    if id < |s.users| {
      assert once.users[id := once.users[id].(refreshToken := None)] == once.users;
    }
  }

  /** Logout keeps the store valid. */
  lemma LogoutPreservesValid(s: Store, id: nat)
    requires Valid(s)
    ensures Valid(Logout(s, id).store)
  {
    if id < |s.users| {
      SetRefreshPreservesValid(s, id, None);
    }
  }
}
