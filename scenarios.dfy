/**
 * End-to-end runs of the server model: a signup whose code is replayed, and
 * one user trying to delete another user's note.
 */
module Scenarios {
  import opened Wrappers
  import opened Server

  /** Sign up any well-formed e-mail with the code just issued, use the session
      token, log in with the same password, then replay the code: registering
      succeeds, the token passes the guard with the new user's claims, the login
      gives the same session, and the replay is refused. */
  method SignupLoginReplay(email: string, name: string, password: string, id: string, otherId: string,
                           draw: nat, now: nat)
    returns (registered: Response, guard: Guard, login: Response, replay: Response)
    requires email != "" && '@' in email && name != "" && |password| >= 6
    requires draw < 900000 && otherId != id
    ensures registered.status == 200 && registered.body.SessionBody?
    ensures registered.body.user == PublicUser(id, email, name, "email")
    ensures guard == Authorized(Claims(id, email, name, now / 1000))
    ensures login == Response(200, SessionBody("Login successful", registered.body.token, registered.body.user))
    ensures replay == Response(400, ErrorBody("Invalid or expired OTP"))
  {
    var server := new ServerState();
    var sent := server.SendOtp(email, draw, now);
    var code := GenerateOtp(draw);
    registered := server.VerifyOtp(email, code, password, name, now, id);
    var user := User(id, email, name, PasswordHash(HashPassword(password)), "email", now);
    assert server.users == [user];
    var token := registered.body.token;
    var decode := (t: string) => if t == "T" then Some(token) else None;
    IssuedTokenAuthorized(decode, "Bearer", "T", user, now, now);
    guard := AuthenticateToken(Some("Bearer" + " " + "T"), decode, now);
    assert server.users[0].email == email && Compare(password, HashPassword(password));
    login := server.Login(email, password, now);
    replay := server.VerifyOtp(email, code, password, name, now, otherId);
  }

  /** A creates a note; B, with a valid token of its own, asks to delete it by
      its exact id and gets 404; A still sees the note. */
  method CrossUserDeleteRefused(now: nat)
    returns (created: Response, deleted: Response, listed: Response)
    ensures created == Response(201, NoteBody("Note created", Note("n1", "id-a", "t", "c", now, now)))
    ensures deleted == Response(404, ErrorBody("Note not found"))
    ensures listed == Response(200, NotesBody([Note("n1", "id-a", "t", "c", now, now)]))
  {
    var server := new ServerState();
    var a := User("id-a", "a@x.com", "A", PasswordHash(HashPassword("pw123456")), "email", now);
    var b := User("id-b", "b@x.com", "B", GoogleId("g-b"), "google", now);
    var tokenA, tokenB := Sign(a, now), Sign(b, now);
    var decode := (t: string) => if t == "TA" then Some(tokenA) else if t == "TB" then Some(tokenB) else None;
    var headerA, headerB := Some("Bearer" + " " + "TA"), Some("Bearer" + " " + "TB");
    IssuedTokenAuthorized(decode, "Bearer", "TA", a, now, now);
    IssuedTokenAuthorized(decode, "Bearer", "TB", b, now, now);
    assert AuthenticateToken(headerA, decode, now).user.id == "id-a";
    assert AuthenticateToken(headerB, decode, now).user.id == "id-b";
    var n := Note("n1", "id-a", "t", "c", now, now);
    created := server.CreateNote(headerA, decode, now, "t", "c", "n1");
    assert server.notes == [n];
    assert !Owns([n], "n1", "id-b");
    deleted := server.DeleteNote(headerB, decode, now, "n1");
    assert server.notes == [n];
    assert NotesOf([n], "id-a") == [n];
    listed := server.ListNotes(headerA, decode, now);
  }
}
