/** `verifyJwt`, the middleware in front of authenticated routes: pick the
    token from the `accessToken` cookie or the `Authorization` header,
    verify it with the access secret, load the user it names, and on any
    failure rethrow as status 400. */
module AuthMiddleware {
  import opened Common
  import opened JsString
  import opened Crypto
  import opened UserModel

  const Unauthorized := "Unauthorized request"
  const InvalidAccessToken := "Invalid Access Token"
  const FallbackMessage := "Invalid access token"
  const BearerPrefix := "Bearer "

  /** The parts of a request the middleware reads. */
  datatype AuthRequest = AuthRequest(cookie: Option<string>, authorization: Option<string>)

  /** What the middleware sets as `req.user` before calling `next()`: the
      record as the lookup selected it. */
  datatype Principal = Principal(id: nat, user: PublicUser)

  /** `req.cookies?.accessToken || req.header("Authorization")?.replace("Bearer ", "")`:
      a truthy cookie wins; otherwise the header with its first "Bearer "
      removed, wherever it occurs. */
  function ExtractToken(req: AuthRequest): (r: Option<string>)
    ensures Truthy(req.cookie) ==> r == req.cookie
    ensures !Truthy(req.cookie) && req.authorization.None? ==> r.None?
    ensures !Truthy(req.cookie) && req.authorization.Some? ==>
      var h := req.authorization.value;
      && r.Some?
      && (IndexOf(h, BearerPrefix).None? ==> r.value == h)
      && (IndexOf(h, BearerPrefix).Some? ==>
            var i := IndexOf(h, BearerPrefix).value;
            i <= |r.value| && h == r.value[..i] + BearerPrefix + r.value[i..])
  {
    if Truthy(req.cookie) then req.cookie
    else match req.authorization
      case None => None
      case Some(h) => Some(RemoveFirst(h, BearerPrefix))
  }

  /** Without a usable cookie, a `Bearer <token>` header yields `<token>`. */
  lemma BearerHeaderYieldsToken(cookie: Option<string>, token: string)
    requires !Truthy(cookie)
    ensures ExtractToken(AuthRequest(cookie, Some(BearerPrefix + token))) == Some(token)
  {
    RemoveFirstPrefix(BearerPrefix, token);
  }

  /** "Bearer " need not lead the header: its first occurrence is cut out
      wherever it stands, and what surrounds it is taken as the token. */
  lemma BearerCutAnywhere(cookie: Option<string>, pre: string, rest: string)
    requires !Truthy(cookie)
    requires forall j: nat :: j < |pre| ==> !OccursAt(pre + BearerPrefix + rest, BearerPrefix, j)
    ensures ExtractToken(AuthRequest(cookie, Some(pre + BearerPrefix + rest))) == Some(pre + rest)
  {
    var h := pre + BearerPrefix + rest;
    assert OccursAt(h, BearerPrefix, |pre|) by {
      assert h[|pre|..|pre| + |BearerPrefix|] == BearerPrefix;
    }
    assert IndexOf(h, BearerPrefix) == Some(|pre|);
    assert h[..|pre|] == pre && h[|pre| + |BearerPrefix|..] == rest;
  }

  /** A header without "Bearer " is taken whole as the token. */
  lemma HeaderWithoutBearer(cookie: Option<string>, header: string)
    requires !Truthy(cookie)
    requires forall j: nat :: !OccursAt(header, BearerPrefix, j)
    ensures ExtractToken(AuthRequest(cookie, Some(header))) == Some(header)
  {
  }

  /** The selection `verifyJwt` writes, `"-password refreshToken"`, split at
      its space: it excludes the password and includes the refresh token. */
  const AsWrittenSelect: seq<string> := ["-password", "refreshToken"]

  /** The selection `registerUser` writes for the same purpose,
      `"-password -refreshToken"`: both secrets excluded. */
  const IntendedSelect: seq<string> := ["-password", "-refreshToken"]

  /** A selection term that excludes a field. */
  predicate Excludes(term: string) {
    |term| > 0 && term[0] == '-'
  }

  /** A selection that excludes one field and includes another other than
      `_id`: MongoDB refuses such a projection. */
  predicate Mixed(terms: seq<string>) {
    && (exists i :: 0 <= i < |terms| && Excludes(terms[i]))
    && (exists j :: 0 <= j < |terms| && !Excludes(terms[j]) && terms[j] != "_id")
  }

  /** The selection as written is mixed; the intended one is not. */
  lemma SelectionsDiffer()
    ensures Mixed(AsWrittenSelect)
    ensures !Mixed(IntendedSelect)
  {
    assert Excludes(AsWrittenSelect[0]) && !Excludes(AsWrittenSelect[1]);
    assert forall j :: 0 <= j < |IntendedSelect| ==> Excludes(IntendedSelect[j]);
  }

  /** `findById(id).select(terms)` for one of those two selections: the
      database refuses the mixed one with its own message `refusal`; the
      other yields the record, if any, without password and refresh
      token. */
  function SelectById(s: Store, id: Option<nat>, terms: seq<string>, refusal: string): (r: Result<Option<PublicUser>>)
    requires terms == AsWrittenSelect || terms == IntendedSelect
    ensures r.Err? <==> terms == AsWrittenSelect
    ensures r.Err? ==> r.error == QueryError(refusal)
    ensures r.Ok? ==> (r.value.Some? <==> id.Some? && id.value < |s.users|)
    ensures r.Ok? && r.value.Some? ==> r.value.value == View(id.value, s.users[id.value])
  {
    SelectionsDiffer();
    if Mixed(terms) then Err(QueryError(refusal))
    else match FindById(s, id)
      case None => Ok(None)
      case Some(u) => Ok(Some(View(id.value, u)))
  }

  /** The `try` block with the record looked up under `terms`: the 401s it
      throws itself, the errors of `jwt.verify`, and a refused lookup. */
  function AuthenticateWith(s: Store, req: AuthRequest, keys: Secrets, p: Primitives,
                            terms: seq<string>, refusal: string): (r: Result<Principal>)
    requires terms == AsWrittenSelect || terms == IntendedSelect
    ensures r.Err? ==> r.error.ApiError? || r.error.JwtError? || r.error.QueryError?
    ensures !Truthy(ExtractToken(req)) ==> r == Err(ApiError(401, Unauthorized))
    ensures Truthy(ExtractToken(req)) && p.verify(ExtractToken(req).value, keys.access).Rejected? ==>
      r == Err(JwtError(p.verify(ExtractToken(req).value, keys.access).message))
    ensures terms == AsWrittenSelect && Truthy(ExtractToken(req))
      && p.verify(ExtractToken(req).value, keys.access).Verified?
      ==> r == Err(QueryError(refusal))
    ensures terms == IntendedSelect && Truthy(ExtractToken(req))
      && p.verify(ExtractToken(req).value, keys.access).Verified?
      && FindById(s, p.verify(ExtractToken(req).value, keys.access).claims.id).None?
      ==> r == Err(ApiError(401, InvalidAccessToken))
    ensures r.Ok? <==>
      && terms == IntendedSelect
      && Truthy(ExtractToken(req))
      && p.verify(ExtractToken(req).value, keys.access).Verified?
      && FindById(s, p.verify(ExtractToken(req).value, keys.access).claims.id).Some?
    ensures r.Ok? ==>
      var id := p.verify(ExtractToken(req).value, keys.access).claims.id.value;
      r.value == Principal(id, View(id, s.users[id]))
  {
    var token := ExtractToken(req);
    if !Truthy(token) then Err(ApiError(401, Unauthorized))
    else match p.verify(token.value, keys.access)
      case Rejected(m) => Err(JwtError(m))
      case Verified(c) =>
        match SelectById(s, c.id, terms, refusal)
        case Err(e) => Err(e)
        case Ok(None) => Err(ApiError(401, InvalidAccessToken))
        case Ok(Some(u)) => Ok(Principal(c.id.value, u))
  }

  /** The `try` block with the intended selection: a missing token is a 401,
      a token the access secret does not verify is the JWT library's error,
      an `_id` naming no record is a 401, and otherwise the record it names
      becomes the principal. */
  function Authenticate(s: Store, req: AuthRequest, keys: Secrets, p: Primitives): (r: Result<Principal>)
    ensures r.Err? ==> r.error.ApiError? || r.error.JwtError?
    ensures !Truthy(ExtractToken(req)) ==> r == Err(ApiError(401, Unauthorized))
    ensures Truthy(ExtractToken(req)) && p.verify(ExtractToken(req).value, keys.access).Rejected? ==>
      r == Err(JwtError(p.verify(ExtractToken(req).value, keys.access).message))
    ensures Truthy(ExtractToken(req)) && p.verify(ExtractToken(req).value, keys.access).Verified?
      && FindById(s, p.verify(ExtractToken(req).value, keys.access).claims.id).None?
      ==> r == Err(ApiError(401, InvalidAccessToken))
    ensures r.Ok? <==>
      && Truthy(ExtractToken(req))
      && p.verify(ExtractToken(req).value, keys.access).Verified?
      && FindById(s, p.verify(ExtractToken(req).value, keys.access).claims.id).Some?
    ensures r.Ok? ==>
      var id := p.verify(ExtractToken(req).value, keys.access).claims.id.value;
      r.value == Principal(id, View(id, s.users[id]))
  {
    AuthenticateWith(s, req, keys, p, IntendedSelect, "")
  }

  /** The message an error carries. */
  function Message(e: Error): string
    requires e.ApiError? || e.JwtError? || e.QueryError?
  {
    match e
    case ApiError(_, m) => m
    case JwtError(m) => m
    case QueryError(m) => m
  }

  /** The `catch` block: `new ApiError(400, error?.message || "Invalid
      access token")`. */
  function Rethrow(e: Error): (r: Error)
    requires e.ApiError? || e.JwtError? || e.QueryError?
    ensures r.ApiError? && r.status == 400
    ensures Message(e) != "" ==> r.message == Message(e)
    ensures Message(e) == "" ==> r.message == FallbackMessage
  {
    ApiError(400, if Message(e) != "" then Message(e) else FallbackMessage)
  }

  /** The middleware with the record looked up under `terms`: Ok stands for
      `req.user` set and `next()` called once; Err for the error passed on,
      `next()` not called.  Every failure is a 400. */
  function VerifyJwtWith(s: Store, req: AuthRequest, keys: Secrets, p: Primitives,
                         terms: seq<string>, refusal: string): (r: Result<Principal>)
    requires terms == AsWrittenSelect || terms == IntendedSelect
    ensures r.Err? ==> r.error.ApiError? && r.error.status == 400
    ensures r.Ok? <==> AuthenticateWith(s, req, keys, p, terms, refusal).Ok?
    ensures r.Ok? ==> r == AuthenticateWith(s, req, keys, p, terms, refusal)
    ensures r.Err? ==> r.error == Rethrow(AuthenticateWith(s, req, keys, p, terms, refusal).error)
  {
    match AuthenticateWith(s, req, keys, p, terms, refusal)
    case Ok(principal) => Ok(principal)
    case Err(e) => Err(Rethrow(e))
  }

  /** `verifyJwt` as written, the database refusing its selection with the
      message `refusal`: it never calls `next()`, and a verified token ends
      in a 400 carrying the database's message. */
  function VerifyJwtAsWritten(s: Store, req: AuthRequest, keys: Secrets, p: Primitives, refusal: string): (r: Result<Principal>)
    ensures r.Err? && r.error.ApiError? && r.error.status == 400
    ensures refusal != "" && Truthy(ExtractToken(req))
      && p.verify(ExtractToken(req).value, keys.access).Verified?
      ==> r == Err(ApiError(400, refusal))
  {
    VerifyJwtWith(s, req, keys, p, AsWrittenSelect, refusal)
  }

  /** `verifyJwt` with the intended selection.  Every failure is the caught
      error rethrown as a 400 carrying its message, including the
      middleware's own 401s and the JWT library's refusals. */
  function VerifyJwt(s: Store, req: AuthRequest, keys: Secrets, p: Primitives): (r: Result<Principal>)
    ensures r.Err? ==> r.error.ApiError? && r.error.status == 400
    ensures r.Ok? <==> Authenticate(s, req, keys, p).Ok?
    ensures r.Ok? ==> r == Authenticate(s, req, keys, p)
    ensures r.Err? ==> r.error == Rethrow(Authenticate(s, req, keys, p).error)
    ensures Authenticate(s, req, keys, p) == Err(ApiError(401, Unauthorized)) ==>
      r == Err(ApiError(400, Unauthorized))
    ensures Authenticate(s, req, keys, p) == Err(ApiError(401, InvalidAccessToken)) ==>
      r == Err(ApiError(400, InvalidAccessToken))
  {
    VerifyJwtWith(s, req, keys, p, IntendedSelect, "")
  }

  /** The discrepancy: an access token for a stored record, which the
      intended middleware accepts, is refused by the middleware as written. */
  lemma AsWrittenRefusesValidToken(s: Store, id: nat, keys: Secrets, p: Primitives, header: Option<string>, refusal: string)
    requires Sound(p) && id < |s.users|
    ensures var t := p.sign(AccessClaims(Doc(id, s.users[id], false)), keys.access);
      var req := AuthRequest(Some(t), header);
      && VerifyJwt(s, req, keys, p).Ok?
      && VerifyJwtAsWritten(s, req, keys, p, refusal).Err?
  {
  }

  /** A token the JWT library refuses ends in a 400 carrying the library's
      own message, or the fallback when that message is empty. */
  lemma RefusedTokenKeepsMessage(s: Store, req: AuthRequest, keys: Secrets, p: Primitives)
    requires Truthy(ExtractToken(req)) && p.verify(ExtractToken(req).value, keys.access).Rejected?
    ensures var m := p.verify(ExtractToken(req).value, keys.access).message;
      VerifyJwt(s, req, keys, p) == Err(ApiError(400, if m != "" then m else FallbackMessage))
  {
  }

  /** The middleware never answers 401. */
  lemma NeverUnauthorized(s: Store, req: AuthRequest, keys: Secrets, p: Primitives, m: string)
    ensures VerifyJwt(s, req, keys, p) != Err(ApiError(401, m))
  {
  }

  /** With the intended selection, an access token signed for a stored
      record, sent as the cookie, authenticates that record. */
  lemma AccessTokenAccepted(s: Store, id: nat, keys: Secrets, p: Primitives, header: Option<string>)
    requires Sound(p) && id < |s.users|
    ensures var t := p.sign(AccessClaims(Doc(id, s.users[id], false)), keys.access);
      VerifyJwt(s, AuthRequest(Some(t), header), keys, p) == Ok(Principal(id, View(id, s.users[id])))
  {
  }

  /** The same token in a `Bearer` header authenticates as well. */
  lemma BearerAccessTokenAccepted(s: Store, id: nat, keys: Secrets, p: Primitives)
    requires Sound(p) && id < |s.users|
    ensures var t := p.sign(AccessClaims(Doc(id, s.users[id], false)), keys.access);
      VerifyJwt(s, AuthRequest(None, Some(BearerPrefix + t)), keys, p) == Ok(Principal(id, View(id, s.users[id])))
  {
    var t := p.sign(AccessClaims(Doc(id, s.users[id], false)), keys.access);
    BearerHeaderYieldsToken(None, t);
  }

  /** Verification uses only the access secret: a token signed with the
      refresh secret, whatever its claims, is refused with a 400. */
  lemma RefreshTokenRejected(s: Store, c: Claims, keys: Secrets, p: Primitives, header: Option<string>)
    requires Sound(p) && Distinct(keys)
    ensures var t := p.sign(c, keys.refresh);
      var r := VerifyJwt(s, AuthRequest(Some(t), header), keys, p);
      r.Err? && r.error.status == 400
  {
    var t := p.sign(c, keys.refresh);
    assert p.verify(t, keys.access).Rejected?;
  }

  /** A verified token whose `_id` names no stored record is refused. */
  lemma UnknownIdRejected(s: Store, c: Claims, keys: Secrets, p: Primitives, header: Option<string>)
    requires Sound(p) && (c.id.None? || c.id.value >= |s.users|)
    ensures var t := p.sign(c, keys.access);
      VerifyJwt(s, AuthRequest(Some(t), header), keys, p) == Err(ApiError(400, InvalidAccessToken))
  {
  }

  /** No cookie and no header, or a header that is exactly "Bearer ", is a
      missing token. */
  lemma EmptyBearerIsMissing(s: Store, keys: Secrets, p: Primitives)
    ensures VerifyJwt(s, AuthRequest(None, None), keys, p) == Err(ApiError(400, Unauthorized))
    ensures VerifyJwt(s, AuthRequest(Some(""), Some(BearerPrefix)), keys, p) == Err(ApiError(400, Unauthorized))
  {
    BearerHeaderYieldsToken(Some(""), "");
    assert BearerPrefix + "" == BearerPrefix;
  }
}
