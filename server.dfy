/**
 * The note-taking server: OTP-gated e-mail signup, password login, a mocked
 * Google login, a bearer-token guard and owner-scoped note operations over
 * three in-memory collections (`otpStore`, `users`, `notes`).
 *
 * Clocks, random draws, fresh uuids and the parsing of a JWT string are
 * parameters. Times are milliseconds since the epoch; JWT times are whole
 * seconds. A bcrypt hash is identified with the key bytes bcrypt reads (the
 * password's UTF-8 encoding cut to 72 bytes), and a JWT with its claims,
 * expiry and signing key.
 */
module Server {
  import opened Wrappers
  import JsText
  import JsArray
  import Utf8

  /** An OTP lives five minutes (milliseconds). */
  const OtpLifetime: nat := 5 * 60 * 1000
  /** `expiresIn: '24h'` (seconds). */
  const TokenLifetime: nat := 24 * 60 * 60
  /** bcrypt reads at most this many bytes of a password. */
  const BcryptKeyBytes: nat := 72
  /** The hard-coded signing secret. */
  const JwtSecret: string := "your-secret-key"

  // ---------------------------------------------------------------- entities

  datatype OtpEntry = OtpEntry(otp: string, expires: int)

  /** A bcrypt hash, salt and cost left out: it determines the key bytes it was made from. */
  datatype Hash = Bcrypt(key: seq<Utf8.Byte>)

  /** An e-mail user carries a password hash, a Google user a Google id, never both. */
  datatype Credential = PasswordHash(hash: Hash) | GoogleId(googleId: string)

  datatype User = User(id: string, email: string, name: string, credential: Credential,
                       provider: string, createdAt: nat)

  /** The `user` object of every response: no password, no Google id. */
  datatype PublicUser = PublicUser(id: string, email: string, name: string, provider: string)

  datatype Note = Note(id: string, userId: string, title: string, content: string,
                       createdAt: nat, updatedAt: nat)

  /** The payload `jwt.sign` is given, plus the issue time it adds. */
  datatype Claims = Claims(id: string, email: string, name: string, iat: nat)

  /** A decoded JWT: its claims, its expiry in seconds (a token need not carry
      one) and the key it was signed with. */
  datatype Token = Token(claims: Claims, exp: Option<nat>, key: string)

  datatype Body =
    | ErrorBody(error: string)
    | OtpSentBody(message: string, otp: string)
    | SessionBody(message: string, token: Token, user: PublicUser)
    | UserBody(user: PublicUser)
    | NotesBody(notes: seq<Note>)
    | NoteBody(message: string, note: Note)
    | MessageBody(message: string)

  datatype Response = Response(status: nat, body: Body)

  // ------------------------------------------------------ OTPs, hashes, tokens

  /** `generateOTP()` for the draw `floor(Math.random() * 900000)`: a six-digit
      decimal string without a leading zero, denoting 100000 + draw. */
  function GenerateOtp(draw: nat): (code: string)
    requires draw < 900000
    ensures |code| == 6 && JsText.IsDigits(code) && code[0] != '0'
    ensures JsText.DecimalValue(code) == 100000 + draw
    ensures 100000 <= JsText.DecimalValue(code) <= 999999
  {
    var n := 100000 + draw;
    JsText.DecimalLength(n, 5);
    JsText.NoLeadingZero(n);
    JsText.DecimalRoundTrip(n);
    JsText.NatToString(n)
  }

  /** The OTP check of verify-otp: an entry exists, its code is exactly `otp`
      and it has not expired (an entry is still good at its expiry instant). */
  function OtpAccepted(store: map<string, OtpEntry>, email: string, otp: string, now: nat): (r: bool)
    ensures r ==> email in store && otp == store[email].otp
    ensures email in store && otp == store[email].otp ==> (r <==> now <= store[email].expires)
  {
    email in store && store[email].otp == otp && now <= store[email].expires
  }

  /** The bytes of `password` bcrypt reads. */
  function BcryptKey(password: string): seq<Utf8.Byte> {
    var b := Utf8.Encode(password);
    if |b| <= BcryptKeyBytes then b else b[..BcryptKeyBytes]
  }

  /** `bcrypt.hash(password, 10)`: it keeps the first 72 bytes of the password's
      UTF-8 encoding, all of it when the encoding is shorter. */
  function HashPassword(password: string): (h: Hash)
    ensures |h.key| <= BcryptKeyBytes && |h.key| <= |Utf8.Encode(password)|
    ensures h.key == Utf8.Encode(password)[..|h.key|]
    ensures |Utf8.Encode(password)| <= BcryptKeyBytes ==> h.key == Utf8.Encode(password)
    ensures |Utf8.Encode(password)| >= BcryptKeyBytes ==> |h.key| == BcryptKeyBytes
  {
    Bcrypt(BcryptKey(password))
  }

  /** `bcrypt.compare(password, hash)`: true exactly for the hash `bcrypt.hash(password)` yields. */
  function Compare(password: string, hash: Hash): (r: bool)
    ensures r <==> hash == HashPassword(password)
  {
    hash.key == BcryptKey(password)
  }

  /** A password of at most 72 bytes is compared in full: only it matches its hash. */
  lemma ShortPasswordExact(stored: string, offered: string)
    requires |Utf8.Encode(stored)| <= BcryptKeyBytes && |Utf8.Encode(offered)| <= BcryptKeyBytes
    ensures Compare(offered, HashPassword(stored)) <==> offered == stored
  {
    if Compare(offered, HashPassword(stored)) {
      Utf8.EncodeInjective(offered, stored);
    }
  }

  /** Nothing past the first 72 bytes is read: passwords that agree there match
      each other's hash, whatever follows. */
  lemma LongPasswordTruncated(prefix: string, stored: string, offered: string)
    requires |Utf8.Encode(prefix)| >= BcryptKeyBytes
    ensures Compare(prefix + offered, HashPassword(prefix + stored))
  {
    Utf8.EncodeConcat(prefix, stored);
    Utf8.EncodeConcat(prefix, offered);
    var p := Utf8.Encode(prefix);
    assert (p + Utf8.Encode(stored))[..BcryptKeyBytes] == p[..BcryptKeyBytes];
    assert (p + Utf8.Encode(offered))[..BcryptKeyBytes] == p[..BcryptKeyBytes];
  }

  /** The `user` object of a response: id, e-mail, name and provider, nothing else. */
  function PublicView(u: User): (p: PublicUser)
    ensures p.id == u.id && p.email == u.email && p.name == u.name && p.provider == u.provider
  {
    PublicUser(u.id, u.email, u.name, u.provider)
  }

  /** The public view does not depend on the password hash or the Google id. */
  lemma PublicViewHidesCredential(u: User, c: Credential)
    ensures PublicView(u.(credential := c)) == PublicView(u)
  {
  }

  /** `jwt.sign({id, email, name}, JwtSecret, {expiresIn: '24h'})` at time `now`:
      the payload, the issue second, an expiry 24 hours later, the server's key. */
  function Sign(u: User, now: nat): (t: Token)
    ensures t.claims == Claims(u.id, u.email, u.name, now / 1000)
    ensures t.key == JwtSecret && t.exp == Some(t.claims.iat + TokenLifetime)
    ensures Verify(t, now) == Some(t.claims)
  {
    var iat := now / 1000;
    Token(Claims(u.id, u.email, u.name, iat), Some(iat + TokenLifetime), JwtSecret)
  }

  /** `jwt.verify` on a decoded token: its own claims exactly when the signature
      is good and the token has not expired; a token without `exp` never expires. */
  function Verify(t: Token, now: nat): (r: Option<Claims>)
    ensures r.Some? ==> r.value == t.claims
    ensures r.Some? <==> t.key == JwtSecret && (t.exp.None? || now / 1000 < t.exp.value)
  {
    if t.key == JwtSecret && (t.exp.None? || now / 1000 < t.exp.value) then Some(t.claims) else None
  }

  lemma SignedTokenValidity(u: User, issued: nat, now: nat)
    ensures Verify(Sign(u, issued), now) == Some(Claims(u.id, u.email, u.name, issued / 1000))
            <==> now / 1000 < issued / 1000 + TokenLifetime
    ensures Verify(Sign(u, issued), now).None? <==> now / 1000 >= issued / 1000 + TokenLifetime
  {
  }

  // ------------------------------------------------------------- token guard

  /** `authHeader && authHeader.split(' ')[1]`. */
  function BearerToken(header: Option<string>): (r: Option<string>)
    ensures header.None? ==> r.None?
    ensures header.Some? ==>
      (r.Some? <==> |JsText.Split(header.value, ' ')| >= 2)
      && (r.Some? ==> r.value == JsText.Split(header.value, ' ')[1] && ' ' !in r.value)
  {
    match header
    case None => None
    case Some(h) =>
      var pieces := JsText.Split(h, ' ');
      if |pieces| >= 2 then Some(pieces[1]) else None
  }

  /** What `authenticateToken` decides: reject with 401, reject with 403, or run the handler with the claims. */
  datatype Guard = Unauthorized | Forbidden | Authorized(user: Claims)

  /** `authenticateToken`; `decode` parses a JWT string (None when malformed). */
  function AuthenticateToken(header: Option<string>, decode: string -> Option<Token>, now: nat): (g: Guard)
    ensures g.Unauthorized? <==> BearerToken(header).None? || BearerToken(header).value == ""
    ensures g.Forbidden? <==>
      BearerToken(header).Some? && BearerToken(header).value != ""
      && (decode(BearerToken(header).value).None? || Verify(decode(BearerToken(header).value).value, now).None?)
    ensures g.Authorized? ==>
      exists t :: decode(BearerToken(header).value) == Some(t) && Verify(t, now) == Some(g.user)
  {
    match BearerToken(header)
    case None => Unauthorized
    case Some(token) =>
      if token == "" then Unauthorized
      else match decode(token)
        case None => Forbidden
        case Some(t) =>
          match Verify(t, now)
          case None => Forbidden
          case Some(c) => Authorized(c)
  }

  /** The response for a rejected request. */
  function GuardFailure(g: Guard): (r: Response)
    requires !g.Authorized?
    ensures g.Unauthorized? ==> r.status == 401
    ensures g.Forbidden? ==> r.status == 403
  {
    if g.Unauthorized? then Response(401, ErrorBody("Access token required"))
    else Response(403, ErrorBody("Invalid or expired token"))
  }

  /** A header without a space (so without a second piece) is refused with 401, as is no header at all. */
  lemma NoSecondPieceUnauthorized(decode: string -> Option<Token>, now: nat, word: string)
    requires ' ' !in word
    ensures AuthenticateToken(None, decode, now) == Unauthorized
    ensures AuthenticateToken(Some(word), decode, now) == Unauthorized
  {
    JsText.SplitPrefix(word, ' ', "");
  }

  /** A header whose second piece is empty (two spaces after the first word) is refused with 401. */
  lemma EmptySecondPieceUnauthorized(decode: string -> Option<Token>, now: nat, word: string, rest: string)
    requires ' ' !in word && ' ' !in rest
    ensures AuthenticateToken(Some(word + " " + " " + rest), decode, now) == Unauthorized
  {
    JsText.SplitJoin([word, "", rest], ' ');
    assert [word, "", rest][1..] == ["", rest] && ["", rest][1..] == [rest];
    assert JsText.Join(["", rest], ' ') == " " + rest;
    assert JsText.Join([word, "", rest], ' ') == word + " " + " " + rest;
  }

  /** `"Bearer"` and `"Bearer  x"` are both refused with 401. */
  lemma BareSchemeUnauthorized(decode: string -> Option<Token>, now: nat)
    ensures AuthenticateToken(Some("Bearer"), decode, now) == Unauthorized
    ensures AuthenticateToken(Some("Bearer  x"), decode, now) == Unauthorized
  {
    NoSecondPieceUnauthorized(decode, now, "Bearer");
    EmptySecondPieceUnauthorized(decode, now, "Bearer", "x");
    assert "Bearer" + " " + " " + "x" == "Bearer  x";
  }

  /** A token the server signed, sent as `<scheme> <token>` before it expires,
      lets the request through with the claims it was signed with. The scheme
      word is not checked. */
  lemma IssuedTokenAuthorized(decode: string -> Option<Token>, scheme: string, token: string,
                              u: User, issued: nat, now: nat)
    requires ' ' !in scheme && ' ' !in token && token != ""
    requires decode(token) == Some(Sign(u, issued))
    requires now / 1000 < issued / 1000 + TokenLifetime
    ensures AuthenticateToken(Some(scheme + " " + token), decode, now)
            == Authorized(Claims(u.id, u.email, u.name, issued / 1000))
  {
    JsText.SplitJoin([scheme, token], ' ');
    assert JsText.Join([scheme, token], ' ') == scheme + " " + token;
  }

  /** The same token, offered at or after its expiry, is refused with 403; so is
      a token signed with another key. */
  lemma ExpiredOrForgedTokenForbidden(decode: string -> Option<Token>, token: string, t: Token, now: nat)
    requires ' ' !in token && token != ""
    requires decode(token) == Some(t)
    requires t.key != JwtSecret || (t.exp.Some? && now / 1000 >= t.exp.value)
    ensures AuthenticateToken(Some("Bearer " + token), decode, now) == Forbidden
  {
    JsText.SplitJoin(["Bearer", token], ' ');
    assert JsText.Join(["Bearer", token], ' ') == "Bearer " + token;
  }

  /** Anyone who knows the hard-coded secret can mint a token without `exp`: it
      passes the guard, with whatever claims it carries, at every time. */
  lemma UnexpiringTokenAuthorized(decode: string -> Option<Token>, token: string, c: Claims, now: nat)
    requires ' ' !in token && token != ""
    requires decode(token) == Some(Token(c, None, JwtSecret))
    ensures AuthenticateToken(Some("Bearer " + token), decode, now) == Authorized(c)
  {
    JsText.SplitJoin(["Bearer", token], ' ');
    assert JsText.Join(["Bearer", token], ' ') == "Bearer " + token;
  }

  // ----------------------------------------------------- collection properties

  predicate EmailTaken(users: seq<User>, email: string) {
    exists i :: 0 <= i < |users| && users[i].email == email
  }

  predicate IdTaken(users: seq<User>, id: string) {
    exists i :: 0 <= i < |users| && users[i].id == id
  }

  predicate UniqueEmails(users: seq<User>) {
    forall i, j :: 0 <= i < j < |users| ==> users[i].email != users[j].email
  }

  predicate UniqueUserIds(users: seq<User>) {
    forall i, j :: 0 <= i < j < |users| ==> users[i].id != users[j].id
  }

  predicate UniqueNoteIds(notes: seq<Note>) {
    forall i, j :: 0 <= i < j < |notes| ==> notes[i].id != notes[j].id
  }

  /** `k` is where `notes.findIndex(n => n.id === id && n.userId === owner)` lands. */
  predicate IsFirstOwned(notes: seq<Note>, k: int, id: string, owner: string) {
    0 <= k < |notes| && notes[k].id == id && notes[k].userId == owner
    && forall j :: 0 <= j < k ==> !(notes[j].id == id && notes[j].userId == owner)
  }

  predicate Owns(notes: seq<Note>, id: string, owner: string) {
    exists k :: 0 <= k < |notes| && notes[k].id == id && notes[k].userId == owner
  }

  /** What GET /api/notes returns to `owner`. */
  function NotesOf(notes: seq<Note>, owner: string): (r: seq<Note>)
    ensures forall i :: 0 <= i < |r| ==> r[i].userId == owner
  {
    JsArray.Filter(notes, (n: Note) => n.userId == owner)
  }

  /** GET /api/notes returns exactly the owner's notes, in stored order. */
  lemma NotesOfExactly(notes: seq<Note>, owner: string)
    ensures JsArray.IsSubsequence(NotesOf(notes, owner), notes)
    ensures forall n :: n in NotesOf(notes, owner) <==> n in notes && n.userId == owner
    ensures forall n: Note :: n.userId == owner ==> multiset(NotesOf(notes, owner))[n] == multiset(notes)[n]
  {
    JsArray.FilterIsSubsequence(notes, (n: Note) => n.userId == owner);
    JsArray.FilterMembers(notes, (n: Note) => n.userId == owner);
  }

  /** Every user other than the caller (every user, when the request was
      refused) sees the same GET /api/notes result after as before. */
  ghost predicate OthersUnaffected(before: seq<Note>, after: seq<Note>, g: Guard) {
    forall other :: (g.Authorized? ==> other != g.user.id) ==> NotesOf(after, other) == NotesOf(before, other)
  }

  /** Appending a note of one user leaves every other user's list as it was. */
  lemma AppendKeepsOthers(notes: seq<Note>, n: Note, other: string)
    requires n.userId != other
    ensures NotesOf(notes + [n], other) == NotesOf(notes, other)
  {
    JsArray.FilterConcat(notes, [n], (m: Note) => m.userId == other);
  }

  /** Splicing out a note of one user leaves every other user's list as it was. */
  lemma SpliceKeepsOthers(notes: seq<Note>, k: nat, other: string)
    requires k < |notes| && notes[k].userId != other
    ensures NotesOf(notes[..k] + notes[k + 1..], other) == NotesOf(notes, other)
  {
    var keep := (m: Note) => m.userId == other;
    assert notes == notes[..k] + ([notes[k]] + notes[k + 1..]);
    JsArray.FilterConcat(notes[..k], [notes[k]] + notes[k + 1..], keep);
    JsArray.FilterConcat([notes[k]], notes[k + 1..], keep);
    JsArray.FilterConcat(notes[..k], notes[k + 1..], keep);
  }

  /** Replacing one user's note by another of theirs leaves every other user's list as it was. */
  lemma ReplaceKeepsOthers(notes: seq<Note>, k: nat, n: Note, other: string)
    requires k < |notes| && notes[k].userId != other && n.userId != other
    ensures NotesOf(notes[k := n], other) == NotesOf(notes, other)
  {
    var keep := (m: Note) => m.userId == other;
    assert notes == notes[..k] + ([notes[k]] + notes[k + 1..]);
    assert notes[k := n] == notes[..k] + ([n] + notes[k + 1..]);
    JsArray.FilterConcat(notes[..k], [notes[k]] + notes[k + 1..], keep);
    JsArray.FilterConcat([notes[k]], notes[k + 1..], keep);
    JsArray.FilterConcat(notes[..k], [n] + notes[k + 1..], keep);
    JsArray.FilterConcat([n], notes[k + 1..], keep);
  }

  /** Verify-otp consumes the entry: no code passes the check again for that e-mail. */
  lemma ConsumedOtpNeverAccepted(store: map<string, OtpEntry>, email: string, otp: string, now: nat)
    ensures !OtpAccepted(store - {email}, email, otp, now)
  {
  }

  /** A new send-otp for an e-mail replaces its code: only the latest code passes,
      and only until its own expiry; other e-mails are unaffected. */
  lemma ReissueReplacesCode(store: map<string, OtpEntry>, email: string, draw: nat, issued: nat,
                            otp: string, other: string, now: nat)
    requires draw < 900000 && other != email
    ensures var s := store[email := OtpEntry(GenerateOtp(draw), issued + OtpLifetime)];
      (OtpAccepted(s, email, otp, now) <==> otp == GenerateOtp(draw) && now <= issued + OtpLifetime)
      && (OtpAccepted(s, other, otp, now) <==> OtpAccepted(store, other, otp, now))
  {
  }

  // ------------------------------------------------------------------ state

  class ServerState {
    var users: seq<User>
    var notes: seq<Note>
    var otpStore: map<string, OtpEntry>

    /** E-mails identify users; uuids are never reused. */
    ghost predicate Valid()
      reads this
    {
      UniqueEmails(users) && UniqueUserIds(users) && UniqueNoteIds(notes)
    }

    constructor ()
      ensures Valid()
      ensures users == [] && notes == [] && otpStore == map[]
    {
      users, notes, otpStore := [], [], map[];
    }

    /** POST /api/auth/send-otp; `draw` is `floor(Math.random() * 900000)`. */
    method SendOtp(email: string, draw: nat, now: nat) returns (resp: Response)
      requires Valid()
      requires draw < 900000
      modifies this
      ensures Valid() && users == old(users) && notes == old(notes)
      ensures email == "" || '@' !in email ==>
        resp == Response(400, ErrorBody("Valid email is required")) && otpStore == old(otpStore)
      ensures email != "" && '@' in email ==>
        otpStore == old(otpStore)[email := OtpEntry(GenerateOtp(draw), now + OtpLifetime)]
        && resp == Response(200, OtpSentBody("otp sent", GenerateOtp(draw)))
    {
      if email == "" || '@' !in email {
        return Response(400, ErrorBody("Valid email is required"));
      }
      var otp := GenerateOtp(draw);
      otpStore := otpStore[email := OtpEntry(otp, now + OtpLifetime)];
      resp := Response(200, OtpSentBody("otp sent", otp));
    }

    /** POST /api/auth/verify-otp; `newId` is the uuid drawn for the new user. */
    method VerifyOtp(email: string, otp: string, password: string, name: string, now: nat, newId: string)
      returns (resp: Response)
      requires Valid()
      requires !IdTaken(users, newId)
      modifies this
      ensures Valid() && notes == old(notes)
      ensures resp.status != 200 ==> users == old(users) && otpStore == old(otpStore)
      ensures email == "" || otp == "" || password == "" || name == "" ==>
        resp == Response(400, ErrorBody("All fields are required"))
      ensures email != "" && otp != "" && password != "" && name != "" ==>
        if |password| < 6 then
          resp == Response(400, ErrorBody("Password must be at least 6 characters"))
        else if !OtpAccepted(old(otpStore), email, otp, now) then
          resp == Response(400, ErrorBody("Invalid or expired OTP"))
        else if EmailTaken(old(users), email) then
          resp == Response(400, ErrorBody("User already exists"))
        else
          var u := User(newId, email, name, PasswordHash(HashPassword(password)), "email", now);
          users == old(users) + [u] && otpStore == old(otpStore) - {email}
          && resp == Response(200, SessionBody("User registered successfully", Sign(u, now), PublicView(u)))
      ensures resp.status == 200 ==> !OtpAccepted(otpStore, email, otp, now)
    {
      if email == "" || otp == "" || password == "" || name == "" {
        return Response(400, ErrorBody("All fields are required"));
      }
      if |password| < 6 {
        return Response(400, ErrorBody("Password must be at least 6 characters"));
      }
      if email !in otpStore || otpStore[email].otp != otp || now > otpStore[email].expires {
        return Response(400, ErrorBody("Invalid or expired OTP"));
      }
      var existing := JsArray.Find(users, (u: User) => u.email == email);
      if existing.Some? {
        return Response(400, ErrorBody("User already exists"));
      }
      var user := User(newId, email, name, PasswordHash(HashPassword(password)), "email", now);
      users := users + [user];
      otpStore := otpStore - {email};
      resp := Response(200, SessionBody("User registered successfully", Sign(user, now), PublicView(user)));
    }

    /** POST /api/auth/login. Nothing changes. */
    method Login(email: string, password: string, now: nat) returns (resp: Response)
      requires Valid()
      ensures email == "" || password == "" ==>
        resp == Response(400, ErrorBody("Email and password are required"))
      ensures email != "" && password != "" && !EmailTaken(users, email) ==>
        resp == Response(400, ErrorBody("Invalid credentials"))
      ensures forall i :: email != "" && password != "" && 0 <= i < |users| && users[i].email == email ==>
        match users[i].credential
        case GoogleId(_) => resp == Response(500, ErrorBody("Login failed"))
        case PasswordHash(h) =>
          if Compare(password, h)
          then resp == Response(200, SessionBody("Login successful", Sign(users[i], now), PublicView(users[i])))
          else resp == Response(400, ErrorBody("Invalid credentials"))
    {
      if email == "" || password == "" {
        return Response(400, ErrorBody("Email and password are required"));
      }
      var found := JsArray.Find(users, (u: User) => u.email == email);
      if found.None? {
        return Response(400, ErrorBody("Invalid credentials"));
      }
      var user := found.value;
      match user.credential {
        case GoogleId(_) =>
          // bcrypt.compare rejects a missing hash; the catch answers 500
          resp := Response(500, ErrorBody("Login failed"));
        case PasswordHash(h) =>
          if !Compare(password, h) {
            return Response(400, ErrorBody("Invalid credentials"));
          }
          resp := Response(200, SessionBody("Login successful", Sign(user, now), PublicView(user)));
      }
    }

    /** POST /api/auth/google: find the user by e-mail whatever its provider, or create a Google user. */
    method GoogleLogin(email: string, name: string, googleId: string, now: nat, newId: string)
      returns (resp: Response)
      requires Valid()
      requires !IdTaken(users, newId)
      modifies this
      ensures Valid() && notes == old(notes) && otpStore == old(otpStore)
      ensures email == "" || name == "" || googleId == "" ==>
        resp == Response(400, ErrorBody("Google data required")) && users == old(users)
      ensures email != "" && name != "" && googleId != "" && EmailTaken(old(users), email) ==>
        users == old(users)
        && forall i :: 0 <= i < |users| && users[i].email == email ==>
             resp == Response(200, SessionBody("Google login successful", Sign(users[i], now), PublicView(users[i])))
      ensures email != "" && name != "" && googleId != "" && !EmailTaken(old(users), email) ==>
        var u := User(newId, email, name, GoogleId(googleId), "google", now);
        users == old(users) + [u]
        && resp == Response(200, SessionBody("Google login successful", Sign(u, now), PublicView(u)))
    {
      if email == "" || name == "" || googleId == "" {
        return Response(400, ErrorBody("Google data required"));
      }
      var found := JsArray.Find(users, (u: User) => u.email == email);
      var user;
      if found.None? {
        user := User(newId, email, name, GoogleId(googleId), "google", now);
        users := users + [user];
      } else {
        user := found.value;
      }
      resp := Response(200, SessionBody("Google login successful", Sign(user, now), PublicView(user)));
    }

    /** GET /api/auth/profile. Nothing changes. */
    method Profile(header: Option<string>, decode: string -> Option<Token>, now: nat) returns (resp: Response)
      requires Valid()
      ensures var g := AuthenticateToken(header, decode, now);
        if !g.Authorized? then resp == GuardFailure(g)
        else if !IdTaken(users, g.user.id) then resp == Response(404, ErrorBody("User not found"))
        else forall i :: 0 <= i < |users| && users[i].id == g.user.id ==>
               resp == Response(200, UserBody(PublicView(users[i])))
    {
      var g := AuthenticateToken(header, decode, now);
      if !g.Authorized? {
        return GuardFailure(g);
      }
      var found := JsArray.Find(users, (u: User) => u.id == g.user.id);
      if found.None? {
        return Response(404, ErrorBody("User not found"));
      }
      resp := Response(200, UserBody(PublicView(found.value)));
    }

    /** GET /api/notes. Nothing changes. */
    method ListNotes(header: Option<string>, decode: string -> Option<Token>, now: nat) returns (resp: Response)
      ensures var g := AuthenticateToken(header, decode, now);
        if !g.Authorized? then resp == GuardFailure(g)
        else resp == Response(200, NotesBody(NotesOf(notes, g.user.id)))
    {
      var g := AuthenticateToken(header, decode, now);
      if !g.Authorized? {
        return GuardFailure(g);
      }
      resp := Response(200, NotesBody(NotesOf(notes, g.user.id)));
    }

    /** POST /api/notes; `newId` is the uuid drawn for the note. */
    method CreateNote(header: Option<string>, decode: string -> Option<Token>, now: nat,
                      title: string, content: string, newId: string)
      returns (resp: Response)
      requires Valid()
      requires forall i :: 0 <= i < |notes| ==> notes[i].id != newId
      modifies this
      ensures Valid() && users == old(users) && otpStore == old(otpStore)
      ensures var g := AuthenticateToken(header, decode, now);
        if !g.Authorized? then resp == GuardFailure(g) && notes == old(notes)
        else if title == "" || content == "" then
          resp == Response(400, ErrorBody("Title and content are required")) && notes == old(notes)
        else
          var n := Note(newId, g.user.id, title, content, now, now);
          notes == old(notes) + [n] && resp == Response(201, NoteBody("Note created", n))
      ensures OthersUnaffected(old(notes), notes, AuthenticateToken(header, decode, now))
    {
      var g := AuthenticateToken(header, decode, now);
      if !g.Authorized? {
        return GuardFailure(g);
      }
      if title == "" || content == "" {
        return Response(400, ErrorBody("Title and content are required"));
      }
      var n := Note(newId, g.user.id, title, content, now, now);
      forall other | other != g.user.id
        ensures NotesOf(notes + [n], other) == NotesOf(notes, other)
      {
        AppendKeepsOthers(notes, n, other);
      }
      notes := notes + [n];
      resp := Response(201, NoteBody("Note created", n));
    }

    /** DELETE /api/notes/:id: removes the caller's note with that id, or answers 404. */
    method DeleteNote(header: Option<string>, decode: string -> Option<Token>, now: nat, noteId: string)
      returns (resp: Response)
      requires Valid()
      modifies this
      ensures Valid() && users == old(users) && otpStore == old(otpStore)
      ensures var g := AuthenticateToken(header, decode, now);
        if !g.Authorized? then resp == GuardFailure(g) && notes == old(notes)
        else if !Owns(old(notes), noteId, g.user.id) then
          resp == Response(404, ErrorBody("Note not found")) && notes == old(notes)
        else
          resp == Response(200, MessageBody("Note deleted"))
          && |notes| == |old(notes)| - 1
          && exists k :: IsFirstOwned(old(notes), k, noteId, g.user.id)
                         && notes == old(notes)[..k] + old(notes)[k + 1..]
      ensures var g := AuthenticateToken(header, decode, now);
        g.Authorized? ==> !Owns(notes, noteId, g.user.id)
      ensures OthersUnaffected(old(notes), notes, AuthenticateToken(header, decode, now))
    {
      var g := AuthenticateToken(header, decode, now);
      if !g.Authorized? {
        return GuardFailure(g);
      }
      var k := JsArray.FindIndex(notes, (n: Note) => n.id == noteId && n.userId == g.user.id);
      if k == -1 {
        return Response(404, ErrorBody("Note not found"));
      }
      assert IsFirstOwned(notes, k, noteId, g.user.id);
      forall other | other != g.user.id
        ensures NotesOf(notes[..k] + notes[k + 1..], other) == NotesOf(notes, other)
      {
        SpliceKeepsOthers(notes, k, other);
      }
      ghost var before := notes;
      notes := notes[..k] + notes[k + 1..];
      assert forall j :: 0 <= j < |notes| ==> notes[j] == if j < k then before[j] else before[j + 1];
      resp := Response(200, MessageBody("Note deleted"));
    }

    /** PUT /api/notes/:id: replaces title, content and update time of the caller's note with that id. */
    method UpdateNote(header: Option<string>, decode: string -> Option<Token>, now: nat,
                      noteId: string, title: string, content: string)
      returns (resp: Response)
      requires Valid()
      modifies this
      ensures Valid() && users == old(users) && otpStore == old(otpStore)
      ensures var g := AuthenticateToken(header, decode, now);
        if !g.Authorized? then resp == GuardFailure(g) && notes == old(notes)
        else if title == "" || content == "" then
          resp == Response(400, ErrorBody("Title and content are required")) && notes == old(notes)
        else if !Owns(old(notes), noteId, g.user.id) then
          resp == Response(404, ErrorBody("Note not found")) && notes == old(notes)
        else
          exists k :: IsFirstOwned(old(notes), k, noteId, g.user.id)
            && notes == old(notes)[k := old(notes)[k].(title := title, content := content, updatedAt := now)]
            && resp == Response(200, NoteBody("Note updated", notes[k]))
      ensures |notes| == |old(notes)|
      ensures forall k :: 0 <= k < |notes| ==>
        notes[k].id == old(notes)[k].id && notes[k].userId == old(notes)[k].userId
        && notes[k].createdAt == old(notes)[k].createdAt
      ensures OthersUnaffected(old(notes), notes, AuthenticateToken(header, decode, now))
    {
      var g := AuthenticateToken(header, decode, now);
      if !g.Authorized? {
        return GuardFailure(g);
      }
      if title == "" || content == "" {
        return Response(400, ErrorBody("Title and content are required"));
      }
      var k := JsArray.FindIndex(notes, (n: Note) => n.id == noteId && n.userId == g.user.id);
      if k == -1 {
        return Response(404, ErrorBody("Note not found"));
      }
      assert IsFirstOwned(notes, k, noteId, g.user.id);
      var updated := notes[k].(title := title, content := content, updatedAt := now);
      forall other | other != g.user.id
        ensures NotesOf(notes[k := updated], other) == NotesOf(notes, other)
      {
        ReplaceKeepsOthers(notes, k, updated, other);
      }
      notes := notes[k := updated];
      resp := Response(200, NoteBody("Note updated", notes[k]));
    }
  }
}
