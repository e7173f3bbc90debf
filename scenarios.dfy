/**
 Request sequences against a freshly started service, stated on the handler
 functions of Handlers (which the Registry methods are proved to follow).
 */
module Scenarios {
  import opened Tokens
  import opened Handlers
  import opened Server

  /** The credential file holding the art teacher's record. */
  function ArtTeacher(): seq<Teacher>
  {
    [Teacher("mrodriguez", "art2024", "teacher")]
  }

  /**
   The art teacher logs in, signs a new student up for Art Club with the
   issued token, and the same signup a second time answers 400.
   */
  lemma ArtClubSignup(token: string)
    requires IsHexToken(token)
    ensures var t0 := Tables(map[], Seed());
            var login := Login(t0, ArtTeacher(), "mrodriguez", "art2024", token);
            var auth := Some(Bearer + token);
            var first := Signup(login.tables, "Art Club", "new@mergington.edu", auth);
            var second := Signup(first.tables, "Art Club", "new@mergington.edu", auth);
            && login.status == Ok
            && first.status == Ok
            && first.tables.activities["Art Club"].participants ==
               ["amelia@mergington.edu", "harper@mergington.edu", "new@mergington.edu"]
            && second.status == BadRequest400
  {
    var t0 := Tables(map[], Seed());
    assert Matches(ArtTeacher()[0], "mrodriguez", "art2024");
    LoginHexTokenThenVerify(t0, ArtTeacher(), "mrodriguez", "art2024", token);
    var login := Login(t0, ArtTeacher(), "mrodriguez", "art2024", token);
    var ps := Seed()["Art Club"].participants;
    assert ps[0][0] != 'n' && ps[1][0] != 'n';
    assert "new@mergington.edu" !in ps;
    SignupTwice(login.tables, "Art Club", "new@mergington.edu", Some(Bearer + token));
  }

  /** Without an Authorization header, signup answers 403 and changes nothing. */
  lemma AnonymousSignupForbidden(t: Tables)
    ensures Signup(t, "Chess Club", "x@mergington.edu", None) == Reply(Forbidden403, t)
  {
  }

  /** With a valid teacher token, unregistering from an unknown activity answers 404. */
  lemma UnknownActivityNotFound(token: string)
    requires IsHexToken(token)
    ensures var t0 := Tables(map[], Seed());
            var login := Login(t0, ArtTeacher(), "mrodriguez", "art2024", token);
            var r := Unregister(login.tables, "Unknown Club", "x@mergington.edu", Some(Bearer + token));
            r.status == NotFound404 && r.tables == login.tables
  {
    var t0 := Tables(map[], Seed());
    assert Matches(ArtTeacher()[0], "mrodriguez", "art2024");
    LoginHexTokenThenVerify(t0, ArtTeacher(), "mrodriguez", "art2024", token);
    assert "Unknown Club" !in Seed();
  }

  /** A wrong password answers 401 and creates no session. */
  lemma WrongPasswordUnauthorized(t: Tables, token: string)
    ensures Login(t, ArtTeacher(), "mrodriguez", "art2025", token) == Reply(Unauthorized401, t)
  {
    assert !Matches(ArtTeacher()[0], "mrodriguez", "art2025") by {
      assert "art2025"[6] != "art2024"[6];
    }
  }

  /**
   The Art Club scenario run against a Registry object: what the handler
   methods promise is enough to know every status they answer.
   */
  method ArtClubSession(token: string) returns (login: Status, first: Status, second: Status)
    requires IsHexToken(token)
    ensures login == Ok && first == Ok && second == BadRequest400
  {
    var registry := new Registry();
    var issued;
    login, issued := registry.Login(ArtTeacher(), "mrodriguez", "art2024", token);
    ArtClubSignup(token);
    first := registry.Signup("Art Club", "new@mergington.edu", Some(Bearer + token));
    second := registry.Signup("Art Club", "new@mergington.edu", Some(Bearer + token));
  }
}
