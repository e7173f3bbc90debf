/**
 The two in-memory tables of the service (sessions and activities) and what
 each request handler of app.py does to them, written as functions from the
 tables before the request to the status and the tables after it. The class
 in registry.dfy performs these updates in place and is proved against them.
 */
module Handlers {
  import opened Tokens
  import opened Roster

  datatype Option<T> = None | Some(value: T)

  /** The HTTP status a handler answers with. */
  datatype Status = Ok | Unauthorized401 | Forbidden403 | NotFound404 | BadRequest400

  /** One entry of the activity table (the key is the activity's name). */
  datatype Activity = Activity(
    description: string,
    schedule: string,
    maxParticipants: int,
    participants: seq<string>)

  /** One record of the teacher credential file. */
  datatype Teacher = Teacher(username: string, password: string, role: string)

  /** The only role a session is ever given. */
  const TeacherRole: string := "teacher"

  /** The service's whole mutable state: token -> role, and name -> activity. */
  datatype Tables = Tables(sessions: map<string, string>, activities: map<string, Activity>)

  /** What a handler answers and the tables it leaves behind. */
  datatype Reply = Reply(status: Status, tables: Tables)

  /** Python truthiness of the optional Authorization header: absent and "" are false. */
  function Present(authorization: Option<string>): (r: bool)
    ensures !r <==> authorization == None || authorization == Some("")
  {
    authorization.Some? && authorization.value != ""
  }

  /** `verify_teacher_session`: the header names a session whose role is "teacher". */
  function IsTeacherSession(sessions: map<string, string>, authorization: Option<string>): (ok: bool)
    ensures !Present(authorization) ==> !ok
    ensures ok ==> var token := ExtractToken(authorization.value);
                   token in sessions && sessions[token] == TeacherRole
  {
    Present(authorization) &&
    var token := ExtractToken(authorization.value);
    token in sessions && sessions[token] == TeacherRole
  }

  /** The session check reads only the entry of the token the header carries. */
  lemma IsTeacherSessionLocal(s1: map<string, string>, s2: map<string, string>, header: string)
    requires var token := ExtractToken(header);
             (token in s1 <==> token in s2) && (token in s1 ==> s1[token] == s2[token])
    ensures IsTeacherSession(s1, Some(header)) == IsTeacherSession(s2, Some(header))
  {
  }

  /** A credential record with exactly this username and password, whatever its role. */
  function Matches(teacher: Teacher, username: string, password: string): (r: bool)
    ensures r <==> teacher == Teacher(username, password, teacher.role)
  {
    teacher.username == username && teacher.password == password
  }

  /** Some record of the credential list matches. */
  function HasCredential(teachers: seq<Teacher>, username: string, password: string): (r: bool)
    ensures r <==> exists teacher :: teacher in teachers && Matches(teacher, username, password)
    ensures teachers == [] ==> !r
  {
    exists i :: 0 <= i < |teachers| && Matches(teachers[i], username, password)
  }

  /**
   The `/login` handler, given the credential list it reads and the token it
   generates. The role field of the matching record is not consulted.
   */
  function Login(t: Tables, teachers: seq<Teacher>, username: string, password: string, token: string): (r: Reply)
    ensures r.status == Ok <==> HasCredential(teachers, username, password)
    ensures r.status != Ok ==> r.status == Unauthorized401 && r.tables == t
    ensures r.status == Ok ==>
              && r.tables.activities == t.activities
              && r.tables.sessions.Keys == t.sessions.Keys + {token}
              && r.tables.sessions[token] == TeacherRole
              && forall k :: k in t.sessions && k != token ==> r.tables.sessions[k] == t.sessions[k]
  {
    if HasCredential(teachers, username, password) then
      Reply(Ok, t.(sessions := t.sessions[token := TeacherRole]))
    else
      Reply(Unauthorized401, t)
  }

  /** The `/logout` handler: drop the session the header names, if any; never fails. */
  function Logout(t: Tables, authorization: Option<string>): (r: Reply)
    ensures r.status == Ok && r.tables.activities == t.activities
    ensures !Present(authorization) ==> r.tables == t
    ensures Present(authorization) ==>
              var token := ExtractToken(authorization.value);
              && r.tables.sessions.Keys == t.sessions.Keys - {token}
              && forall k :: k in r.tables.sessions ==> r.tables.sessions[k] == t.sessions[k]
  {
    if Present(authorization) then
      var token := ExtractToken(authorization.value);
      if token in t.sessions then Reply(Ok, t.(sessions := t.sessions - {token})) else Reply(Ok, t)
    else
      Reply(Ok, t)
  }

  /**
   The `/activities/{name}/signup` handler. The checks come in a fixed order
   (403, then 404, then 400); capacity is never checked.
   */
  function Signup(t: Tables, name: string, email: string, authorization: Option<string>): (r: Reply)
    ensures r.status == Forbidden403 <==> !IsTeacherSession(t.sessions, authorization)
    ensures r.status == NotFound404 <==>
              IsTeacherSession(t.sessions, authorization) && name !in t.activities
    ensures r.status == BadRequest400 <==>
              IsTeacherSession(t.sessions, authorization) && name in t.activities &&
              email in t.activities[name].participants
    ensures r.status != Unauthorized401
    ensures r.status != Ok ==> r.tables == t
    ensures r.status == Ok ==>
              var before := t.activities[name];
              && r.tables.sessions == t.sessions
              && r.tables.activities.Keys == t.activities.Keys
              && r.tables.activities[name] == before.(participants := before.participants + [email])
              && forall n :: n in t.activities && n != name ==> r.tables.activities[n] == t.activities[n]
  {
    if !IsTeacherSession(t.sessions, authorization) then Reply(Forbidden403, t)
    else if name !in t.activities then Reply(NotFound404, t)
    else
      var activity := t.activities[name];
      if email in activity.participants then Reply(BadRequest400, t)
      else
        var activity' := activity.(participants := activity.participants + [email]);
        Reply(Ok, t.(activities := t.activities[name := activity']))
  }

  /**
   The `/activities/{name}/unregister` handler: the same 403 and 404 checks,
   then 400 when the email is not listed; removes its first occurrence.
   */
  function Unregister(t: Tables, name: string, email: string, authorization: Option<string>): (r: Reply)
    ensures r.status == Forbidden403 <==> !IsTeacherSession(t.sessions, authorization)
    ensures r.status == NotFound404 <==>
              IsTeacherSession(t.sessions, authorization) && name !in t.activities
    ensures r.status == BadRequest400 <==>
              IsTeacherSession(t.sessions, authorization) && name in t.activities &&
              email !in t.activities[name].participants
    ensures r.status != Unauthorized401
    ensures r.status != Ok ==> r.tables == t
    ensures r.status == Ok ==>
              var before := t.activities[name];
              && email in before.participants
              && r.tables.sessions == t.sessions
              && r.tables.activities.Keys == t.activities.Keys
              && r.tables.activities[name].description == before.description
              && r.tables.activities[name].schedule == before.schedule
              && r.tables.activities[name].maxParticipants == before.maxParticipants
              && |r.tables.activities[name].participants| == |before.participants| - 1
              && multiset(r.tables.activities[name].participants) ==
                 multiset(before.participants) - multiset{email}
              && forall n :: n in t.activities && n != name ==> r.tables.activities[n] == t.activities[n]
  {
    if !IsTeacherSession(t.sessions, authorization) then Reply(Forbidden403, t)
    else if name !in t.activities then Reply(NotFound404, t)
    else
      var activity := t.activities[name];
      if email !in activity.participants then Reply(BadRequest400, t)
      else
        var activity' := activity.(participants := RemoveFirst(activity.participants, email));
        Reply(Ok, t.(activities := t.activities[name := activity']))
  }

  /** Every activity's participant list is free of duplicates. */
  ghost predicate RosterInvariant(activities: map<string, Activity>)
  {
    forall n :: n in activities ==> NoDuplicates(activities[n].participants)
  }

  /** A successful unregister removes exactly the first listed occurrence of the email. */
  lemma UnregisterRemovesFirst(t: Tables, name: string, email: string, authorization: Option<string>, i: nat)
    requires Unregister(t, name, email, authorization).status == Ok
    requires var ps := t.activities[name].participants;
             i < |ps| && ps[i] == email && forall k :: 0 <= k < i ==> ps[k] != email
    ensures var ps := t.activities[name].participants;
            Unregister(t, name, email, authorization).tables.activities[name].participants ==
              ps[..i] + ps[i + 1..]
  {
    RemoveFirstAt(t.activities[name].participants, email, i);
  }

  /** A login under `token` leaves the session check of every header carrying another token as it was. */
  lemma LoginKeepsOtherSessions(t: Tables, teachers: seq<Teacher>, username: string, password: string,
                                token: string, header: string)
    requires ExtractToken(header) != token
    ensures var r := Login(t, teachers, username, password, token);
            IsTeacherSession(r.tables.sessions, Some(header)) == IsTeacherSession(t.sessions, Some(header))
  {
    IsTeacherSessionLocal(Login(t, teachers, username, password, token).tables.sessions, t.sessions, header);
  }

  /** A logout leaves the session check of every header carrying another token as it was. */
  lemma LogoutKeepsOtherSessions(t: Tables, authorization: Option<string>, header: string)
    requires Present(authorization) ==> ExtractToken(authorization.value) != ExtractToken(header)
    ensures IsTeacherSession(Logout(t, authorization).tables.sessions, Some(header)) ==
            IsTeacherSession(t.sessions, Some(header))
  {
    IsTeacherSessionLocal(Logout(t, authorization).tables.sessions, t.sessions, header);
  }

  /** Signup keeps every participant list free of duplicates. */
  lemma SignupPreservesRoster(t: Tables, name: string, email: string, authorization: Option<string>)
    requires RosterInvariant(t.activities)
    ensures RosterInvariant(Signup(t, name, email, authorization).tables.activities)
  {
    var r := Signup(t, name, email, authorization);
    if r.status == Ok {
      AppendNoDuplicates(t.activities[name].participants, email);
    }
  }

  /** Unregister keeps every participant list free of duplicates and leaves no copy of the email. */
  lemma UnregisterPreservesRoster(t: Tables, name: string, email: string, authorization: Option<string>)
    requires RosterInvariant(t.activities)
    ensures RosterInvariant(Unregister(t, name, email, authorization).tables.activities)
    ensures var r := Unregister(t, name, email, authorization);
            r.status == Ok ==> email !in r.tables.activities[name].participants
  {
    var r := Unregister(t, name, email, authorization);
    if r.status == Ok {
      RemoveNoDuplicates(t.activities[name].participants, email);
    }
  }

  /** Login leaves the activity table, and so its invariant, alone. */
  lemma LoginPreservesRoster(t: Tables, teachers: seq<Teacher>, username: string, password: string, token: string)
    requires RosterInvariant(t.activities)
    ensures RosterInvariant(Login(t, teachers, username, password, token).tables.activities)
  {
  }

  /** Logout leaves the activity table, and so its invariant, alone. */
  lemma LogoutPreservesRoster(t: Tables, authorization: Option<string>)
    requires RosterInvariant(t.activities)
    ensures RosterInvariant(Logout(t, authorization).tables.activities)
  {
  }

  /**
   The participant count can pass `max_participants`: a full activity still
   accepts a new student.
   */
  lemma SignupIgnoresCapacity(t: Tables, name: string, email: string, authorization: Option<string>)
    requires IsTeacherSession(t.sessions, authorization)
    requires name in t.activities && email !in t.activities[name].participants
    requires |t.activities[name].participants| >= t.activities[name].maxParticipants
    ensures var r := Signup(t, name, email, authorization);
            r.status == Ok &&
            |r.tables.activities[name].participants| > r.tables.activities[name].maxParticipants
  {
  }

  /**
   Signup is not idempotent: the same request a second time answers 400 and
   the list holds exactly one more entry than before the first.
   */
  lemma SignupTwice(t: Tables, name: string, email: string, authorization: Option<string>)
    requires Signup(t, name, email, authorization).status == Ok
    ensures var r := Signup(t, name, email, authorization);
            var r2 := Signup(r.tables, name, email, authorization);
            r2.status == BadRequest400 && r2.tables == r.tables &&
            |r2.tables.activities[name].participants| == |t.activities[name].participants| + 1
  {
  }

  /**
   Unregister undoes signup: the tables come back exactly, and unregistering
   once more answers 400. Unregister on the original tables answers 400 too.
   */
  lemma SignupUnregisterRoundTrip(t: Tables, name: string, email: string, authorization: Option<string>)
    requires Signup(t, name, email, authorization).status == Ok
    ensures var r := Signup(t, name, email, authorization);
            Unregister(r.tables, name, email, authorization) == Reply(Ok, t)
    ensures Unregister(t, name, email, authorization) == Reply(BadRequest400, t)
  {
    var ps := t.activities[name].participants;
    RemoveAppended(ps, email);
    var r := Signup(t, name, email, authorization);
    var u := Unregister(r.tables, name, email, authorization);
    assert u.tables.activities[name] == t.activities[name];
    assert u.tables.activities == t.activities;
  }

  /**
   A successful login makes its token a teacher session, whether the header
   carries the token raw or after "Bearer ".
   */
  lemma LoginThenVerify(t: Tables, teachers: seq<Teacher>, username: string, password: string, token: string)
    requires HasCredential(teachers, username, password)
    requires token != "" && BearerFree(token)
    ensures var r := Login(t, teachers, username, password, token);
            r.status == Ok &&
            IsTeacherSession(r.tables.sessions, Some(token)) &&
            IsTeacherSession(r.tables.sessions, Some(Bearer + token))
  {
    ExtractRawToken(token);
    ExtractBearerToken(token);
  }

  /** The same for a token as `secrets.token_hex(16)` makes them. */
  lemma LoginHexTokenThenVerify(t: Tables, teachers: seq<Teacher>, username: string, password: string, token: string)
    requires HasCredential(teachers, username, password)
    requires IsHexToken(token)
    ensures var r := Login(t, teachers, username, password, token);
            IsTeacherSession(r.tables.sessions, Some(token)) &&
            IsTeacherSession(r.tables.sessions, Some(Bearer + token))
  {
    HexTokenBearerFree(token);
    LoginThenVerify(t, teachers, username, password, token);
  }

  /** After logout the header no longer names a teacher session. */
  lemma LogoutRevokes(t: Tables, authorization: Option<string>)
    ensures !IsTeacherSession(Logout(t, authorization).tables.sessions, authorization)
  {
  }

  /** Logging out twice leaves the tables as logging out once did. */
  lemma LogoutIdempotent(t: Tables, authorization: Option<string>)
    ensures var r := Logout(t, authorization);
            Logout(r.tables, authorization) == r
  {
  }

}
