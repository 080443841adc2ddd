/** The user schema and its document methods: field rules (`required`,
    `unique`, `lowercase`, `trim`), the `pre("save")` hook that hashes a
    modified password, `isPasswordCorrect`, and the two token generators.
    The collection is a sequence in insertion order; the `_id` of a record
    is its index. */
module UserModel {
  import opened Common
  import opened JsString
  import opened Crypto

  /** A stored user record (timestamps and `watchhistory` left out). */
  datatype User = User(
    username: string,
    email: string,
    fullname: string,
    avatar: string,
    coverimage: Option<string>,
    password: string,
    refreshToken: Option<string>)

  /** The collection: `users[i]` has `_id` i, and index order is insertion
      order. */
  datatype Store = Store(users: seq<User>)

  /** A record loaded into memory, with Mongoose's dirty flag for the
      `password` path. */
  datatype Doc = Doc(id: nat, user: User, passwordModified: bool)

  /** The result of an operation together with the store it leaves. */
  datatype Step<+T> = Step(result: Result<T>, store: Store)

  /** A record as read back with `select("-password -refreshToken")`. */
  datatype PublicUser = PublicUser(
    id: nat,
    username: string,
    email: string,
    fullname: string,
    avatar: string,
    coverimage: Option<string>)

  function View(id: nat, u: User): PublicUser {
    PublicUser(id, u.username, u.email, u.fullname, u.avatar, u.coverimage)
  }

  /** The `required` validators: a required string must be non-empty. */
  predicate Complete(u: User) {
    u.username != "" && u.email != "" && u.fullname != "" && u.avatar != "" && u.password != ""
  }

  /** A record as the schema can store it: complete, with username and email
      lower-cased and trimmed and the full name trimmed. */
  predicate WellFormed(u: User) {
    && Complete(u)
    && Normalized(u.username)
    && Normalized(u.email)
    && Trimmed(u.fullname)
  }

  /** Two records collide on one of the `unique` indexes. */
  predicate Collide(a: User, b: User) {
    a.username == b.username || a.email == b.email
  }

  /** No two records share a username or an email. */
  predicate Unique(s: Store) {
    forall i, j :: 0 <= i < j < |s.users| ==> !Collide(s.users[i], s.users[j])
  }

  /** The store invariant the schema maintains. */
  predicate Valid(s: Store) {
    && (forall i :: 0 <= i < |s.users| ==> WellFormed(s.users[i]))
    && Unique(s)
  }

  /** Some record other than `except` collides with `u`. */
  predicate CollidesWithOthers(s: Store, u: User, except: int) {
    exists j :: 0 <= j < |s.users| && j != except && Collide(s.users[j], u)
  }

  /** `findById(id)`. */
  function FindById(s: Store, id: Option<nat>): (r: Option<User>)
    ensures r.Some? <==> id.Some? && id.value < |s.users|
    ensures r.Some? ==> r.value == s.users[id.value]
  {
    if id.Some? && id.value < |s.users| then Some(s.users[id.value]) else None
  }

  /** A record loaded with `findById`: nothing modified yet. */
  function Load(s: Store, id: nat): (r: Option<Doc>)
    ensures r.Some? <==> id < |s.users|
    ensures r.Some? ==> r.value == Doc(id, s.users[id], false)
  {
    if id < |s.users| then Some(Doc(id, s.users[id], false)) else None
  }

  /** The filter `{ $or: [{ username }, { email }] }`.  A filter value on a
      schema path is cast through that path's setters, so both values are
      lower-cased and trimmed before they are compared.  An absent value is
      sent as null, which matches only records lacking the field, and every
      stored record has both fields. */
  predicate Matches(u: User, username: Option<string>, email: Option<string>) {
    || (username.Some? && u.username == Normalize(username.value))
    || (email.Some? && u.email == Normalize(email.value))
  }

  function FindFrom(s: Store, username: Option<string>, email: Option<string>, from: nat): (r: Option<nat>)
    ensures r.Some? ==> from <= r.value < |s.users| && Matches(s.users[r.value], username, email)
    ensures r.Some? ==> forall j :: from <= j < r.value ==> !Matches(s.users[j], username, email)
    ensures r.None? ==> forall j :: from <= j < |s.users| ==> !Matches(s.users[j], username, email)
    decreases |s.users| - from
  {
    if from >= |s.users| then None
    else if Matches(s.users[from], username, email) then Some(from)
    else FindFrom(s, username, email, from + 1)
  }

  /** `findOne({ $or: [{ username }, { email }] })`: a matching record, if
      any.  The database does not fix which one when several match; the
      model takes the one inserted first. */
  function FindOne(s: Store, username: Option<string>, email: Option<string>): (r: Option<nat>)
    ensures r.Some? ==> r.value < |s.users| && Matches(s.users[r.value], username, email)
    ensures r.Some? ==> forall j :: 0 <= j < r.value ==> !Matches(s.users[j], username, email)
    ensures r.None? <==> forall j :: 0 <= j < |s.users| ==> !Matches(s.users[j], username, email)
  {
    FindFrom(s, username, email, 0)
  }

  /** The lookup sees through case and padding: a stored "alice" is found
      by " Alice ". */
  lemma CastLookupFindsVariant(s: Store)
    requires |s.users| > 0 && s.users[0].username == "alice"
    ensures FindOne(s, Some(" Alice "), None) == Some(0)
  {
    var l := Lower(" Alice ");
    assert l == " alice ";
    assert SkipLeading(l, 0) == 1 by {
      assert IsWhitespace(l[0]) && !IsWhitespace(l[1]);
    }
    assert SkipTrailing(l, 1, 7) == 6 by {
      assert IsWhitespace(l[6]) && !IsWhitespace(l[5]);
    }
    assert Normalize(" Alice ") == l[1..6] == "alice";
  }

  /** The choice among several matches is the only thing the model fixes:
      when exactly one record matches, `findOne` returns it whatever the
      order. */
  lemma OnlyMatchIsFound(s: Store, username: Option<string>, email: Option<string>, id: nat)
    requires id < |s.users| && Matches(s.users[id], username, email)
    requires forall j :: 0 <= j < |s.users| && j != id ==> !Matches(s.users[j], username, email)
    ensures FindOne(s, username, email) == Some(id)
  {
  }

  /** In a valid store the filter is ambiguous only when the username names
      one record and the email another. */
  lemma TwoMatchesSplit(s: Store, username: Option<string>, email: Option<string>, i: nat, j: nat)
    requires Valid(s) && i < j < |s.users|
    requires Matches(s.users[i], username, email) && Matches(s.users[j], username, email)
    ensures username.Some? && email.Some?
    ensures (s.users[i].username == Normalize(username.value) && s.users[j].email == Normalize(email.value))
         || (s.users[i].email == Normalize(email.value) && s.users[j].username == Normalize(username.value))
  {
    assert !Collide(s.users[i], s.users[j]);
  }

  /** The `pre("save")` hook: only the password can change; an unmodified
      password is kept as it is, and a modified one is replaced by a hash
      that the plain password verifies against. */
  function PreSave(doc: Doc, p: Primitives): (u: User)
    ensures u == doc.user.(password := u.password)
    ensures !doc.passwordModified ==> u.password == doc.user.password
    ensures doc.passwordModified && Sound(p) ==> p.compare(doc.user.password, u.password)
  {
    if doc.passwordModified then doc.user.(password := p.hash(doc.user.password)) else doc.user
  }

  /** `doc.save()`: validation (unless turned off), the save hook, then the
      write, refused by a unique index when another record collides.  A
      failed save leaves the store as it was; a successful one replaces the
      record and returns the document with its dirty flag cleared. */
  function Save(s: Store, doc: Doc, p: Primitives, validate: bool): (r: Step<Doc>)
    ensures |r.store.users| == |s.users|
    ensures r.result.Err? ==> r.store == s
    ensures r.result.Ok? <==>
      && (validate ==> Complete(doc.user))
      && doc.id < |s.users|
      && !CollidesWithOthers(s, PreSave(doc, p), doc.id)
    ensures r.result.Ok? ==>
      && r.result.value == Doc(doc.id, PreSave(doc, p), false)
      && r.store.users == s.users[doc.id := PreSave(doc, p)]
  {
    if validate && !Complete(doc.user) then Step(Err(ValidationError), s)
    else
      var u := PreSave(doc, p);
      if doc.id >= |s.users| then Step(Err(DocumentNotFound), s)
      else if CollidesWithOthers(s, u, doc.id) then Step(Err(DuplicateKey), s)
      else Step(Ok(Doc(doc.id, u, false)), Store(s.users[doc.id := u]))
  }

  /** Saving a document whose password was not touched never re-hashes it:
      the stored hash is the one already there. */
  lemma SaveKeepsUnmodifiedPassword(s: Store, doc: Doc, p: Primitives, validate: bool)
    requires !doc.passwordModified
    requires Save(s, doc, p, validate).result.Ok?
    ensures Save(s, doc, p, validate).store.users[doc.id].password == doc.user.password
  {
  }

  /** Saving twice hashes once: the document a save returns can be saved
      again without its password changing. */
  lemma NoDoubleHash(s: Store, doc: Doc, p: Primitives)
    requires Save(s, doc, p, true).result.Ok?
    ensures var r := Save(s, doc, p, true);
      var again := Save(r.store, r.result.value, p, true);
      again.result.Ok? ==> again.store.users[doc.id].password == r.store.users[doc.id].password
  {
  }

  /** `isPasswordCorrect(password)`: bcrypt's comparison against the stored
      hash. */
  function IsPasswordCorrect(doc: Doc, password: string, p: Primitives): (b: bool)
    ensures Sound(p) && doc.user.password == p.hash(password) ==> b
  {
    p.compare(password, doc.user.password)
  }

  /** The value under `key` of a plain object, absent keys being undefined. */
  function Field(fields: map<string, string>, key: string): Option<string> {
    if key in fields then Some(fields[key]) else None
  }

  function MapOpt(v: Option<string>, f: string -> string): Option<string> {
    if v.Some? then Some(f(v.value)) else None
  }

  /** The fields of a new document after the schema's setters ran: keys the
      schema does not declare are dropped. */
  datatype Draft = Draft(
    username: Option<string>,
    email: Option<string>,
    fullname: Option<string>,
    avatar: Option<string>,
    coverimage: Option<string>,
    password: Option<string>)

  function Cast(fields: map<string, string>): Draft {
    Draft(
      MapOpt(Field(fields, "username"), Normalize),
      MapOpt(Field(fields, "email"), Normalize),
      MapOpt(Field(fields, "fullname"), Trim),
      Field(fields, "avatar"),
      Field(fields, "coverimage"),
      Field(fields, "password"))
  }

  /** The `required` validators on a new document. */
  predicate DraftComplete(d: Draft) {
    && Truthy(d.username) && Truthy(d.email) && Truthy(d.fullname)
    && Truthy(d.avatar) && Truthy(d.password)
  }

  /** The record a complete draft is stored as: the save hook hashes the
      password, which is modified on a new document. */
  function Realize(d: Draft, p: Primitives): User
    requires DraftComplete(d)
  {
    User(d.username.value, d.email.value, d.fullname.value, d.avatar.value,
         d.coverimage, p.hash(d.password.value), None)
  }

  /** `User.create(fields)`: the record is appended under the next `_id` when
      it passes validation and no stored record has its username or email;
      otherwise the create fails and the store is unchanged. */
  function Create(s: Store, fields: map<string, string>, p: Primitives): (r: Step<nat>)
    ensures !DraftComplete(Cast(fields)) ==> r == Step(Err(ValidationError), s)
    ensures DraftComplete(Cast(fields)) && CollidesWithOthers(s, Realize(Cast(fields), p), -1) ==>
      r == Step(Err(DuplicateKey), s)
    ensures DraftComplete(Cast(fields)) && !CollidesWithOthers(s, Realize(Cast(fields), p), -1) ==>
      r.result.Ok?
    ensures r.result.Ok? ==>
      && r.result.value == |s.users|
      && r.store.users == s.users + [Realize(Cast(fields), p)]
  {
    var d := Cast(fields);
    if !DraftComplete(d) then Step(Err(ValidationError), s)
    else
      var u := Realize(d, p);
      if CollidesWithOthers(s, u, -1) then Step(Err(DuplicateKey), s)
      else Step(Ok(|s.users|), Store(s.users + [u]))
  }

  /** A created record is well formed, and creating keeps the store valid. */
  lemma CreatePreservesValid(s: Store, fields: map<string, string>, p: Primitives)
    requires Valid(s) && Sound(p)
    ensures Valid(Create(s, fields, p).store)
  {
    var r := Create(s, fields, p);
    if r.result.Ok? {
      var d := Cast(fields);
      var u := Realize(d, p);
      NormalizeFixpoint(fields["username"]);
      NormalizeFixpoint(fields["email"]);
      assert WellFormed(u);
      assert r.store.users[|s.users|] == u;
      forall i, j | 0 <= i < j < |r.store.users|
        ensures !Collide(r.store.users[i], r.store.users[j])
      {
        if j == |s.users| {
          assert r.store.users[i] == s.users[i];
          assert !Collide(s.users[i], u);
        }
      }
    }
  }

  /** The password a record was created with verifies against it. */
  lemma CreatedPasswordVerifies(s: Store, fields: map<string, string>, p: Primitives)
    requires Sound(p)
    requires Create(s, fields, p).result.Ok?
    ensures var r := Create(s, fields, p);
      IsPasswordCorrect(Load(r.store, r.result.value).value, fields["password"], p)
  {
  }

  /** The claims of an access token: `_id`, `email`, `username`, `fullname`. */
  function AccessClaims(doc: Doc): Claims {
    Claims(Some(doc.id), Some(doc.user.email), Some(doc.user.username), Some(doc.user.fullname))
  }

  /** The claims of a refresh token: `_id` only. */
  function RefreshClaims(doc: Doc): Claims {
    Claims(Some(doc.id), None, None, None)
  }

  /** A token and the document after the generator's save. */
  datatype Issued = Issued(token: string, doc: Doc)

  /** `generateAuthToken()`: signs the access claims with the access secret,
      writes the token into the `refreshToken` field and saves.  The save does
      not re-hash the password. */
  function GenerateAuthToken(s: Store, doc: Doc, keys: Secrets, p: Primitives): (r: Step<Issued>)
    requires !doc.passwordModified
    ensures r.result.Err? ==> r.store == s
    ensures r.result.Ok? ==>
      var t := p.sign(AccessClaims(doc), keys.access);
      && doc.id < |s.users|
      && r.result.value.token == t
      && r.result.value.doc == Doc(doc.id, doc.user.(refreshToken := Some(t)), false)
      && r.store.users == s.users[doc.id := doc.user.(refreshToken := Some(t))]
    ensures |r.store.users| == |s.users|
  {
    var token := p.sign(AccessClaims(doc), keys.access);
    var saved := Save(s, doc.(user := doc.user.(refreshToken := Some(token))), p, true);
    match saved.result
    case Err(e) => Step(Err(e), saved.store)
    case Ok(d) => Step(Ok(Issued(token, d)), saved.store)
  }

  /** `generateRefreshToken()`: signs `_id` alone with the refresh secret,
      writes the token into the `refreshToken` field and saves. */
  function GenerateRefreshToken(s: Store, doc: Doc, keys: Secrets, p: Primitives): (r: Step<Issued>)
    requires !doc.passwordModified
    ensures r.result.Err? ==> r.store == s
    ensures r.result.Ok? ==>
      var t := p.sign(RefreshClaims(doc), keys.refresh);
      && doc.id < |s.users|
      && r.result.value.token == t
      && r.result.value.doc == Doc(doc.id, doc.user.(refreshToken := Some(t)), false)
      && r.store.users == s.users[doc.id := doc.user.(refreshToken := Some(t))]
    ensures |r.store.users| == |s.users|
  {
    var token := p.sign(RefreshClaims(doc), keys.refresh);
    var saved := Save(s, doc.(user := doc.user.(refreshToken := Some(token))), p, true);
    match saved.result
    case Err(e) => Step(Err(e), saved.store)
    case Ok(d) => Step(Ok(Issued(token, d)), saved.store)
  }

  /** Changing only the refresh token of a record keeps the store valid. */
  lemma SetRefreshPreservesValid(s: Store, id: nat, t: Option<string>)
    requires Valid(s) && id < |s.users|
    ensures Valid(Store(s.users[id := s.users[id].(refreshToken := t)]))
  {
    var s' := Store(s.users[id := s.users[id].(refreshToken := t)]);
    forall i, j | 0 <= i < j < |s'.users|
      ensures !Collide(s'.users[i], s'.users[j])
    {
      assert !Collide(s.users[i], s.users[j]);
    }
  }

  /** In a valid store, a loaded record whose refresh token is replaced saves
      without fail, with or without validation. */
  lemma SaveRefreshSucceeds(s: Store, id: nat, t: Option<string>, p: Primitives, validate: bool)
    requires Valid(s) && id < |s.users|
    ensures Save(s, Doc(id, s.users[id].(refreshToken := t), false), p, validate).result.Ok?
  {
    var u := s.users[id].(refreshToken := t);
    forall j | 0 <= j < |s.users| && j != id
      ensures !Collide(s.users[j], u)
    {
      if j < id {
        assert !Collide(s.users[j], s.users[id]);
      } else {
        assert !Collide(s.users[id], s.users[j]);
      }
    }
  }

  /** The two generators in the order the controller calls them: after the
      access token's save the field holds the access token; after the refresh
      token's save it holds the refresh token. */
  lemma GeneratorsOverwrite(s: Store, id: nat, keys: Secrets, p: Primitives)
    requires Valid(s) && id < |s.users|
    ensures var doc := Load(s, id).value;
      var a := GenerateAuthToken(s, doc, keys, p);
      && a.result.Ok?
      && a.store.users[id].refreshToken == Some(p.sign(AccessClaims(doc), keys.access))
      && var b := GenerateRefreshToken(a.store, a.result.value.doc, keys, p);
      && b.result.Ok?
      && b.store.users[id].refreshToken == Some(p.sign(RefreshClaims(doc), keys.refresh))
  {
    var doc := Load(s, id).value;
    var ta := p.sign(AccessClaims(doc), keys.access);
    SaveRefreshSucceeds(s, id, Some(ta), p, true);
    var a := GenerateAuthToken(s, doc, keys, p);
    SetRefreshPreservesValid(s, id, Some(ta));
    assert a.store.users[id] == s.users[id].(refreshToken := Some(ta));
    var tb := p.sign(RefreshClaims(a.result.value.doc), keys.refresh);
    assert RefreshClaims(a.result.value.doc) == RefreshClaims(doc);
    SaveRefreshSucceeds(a.store, id, Some(tb), p, true);
    assert a.store.users[id].(refreshToken := Some(tb)) == s.users[id].(refreshToken := Some(tb));
  }
}
