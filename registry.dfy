/**
 The process-wide state of app.py, the `sessions` and `activities` tables,
 as one object whose handler methods update it in place. Each method is
 proved to leave exactly the tables the matching function of Handlers
 describes, so every property proved there holds of these methods.
 */
module Server {
  import opened Tokens
  import opened Roster
  import opened Handlers

  /** The "Chess Club" entry the service starts with. */
  function ChessClub(): (a: Activity)
    ensures NoDuplicates(a.participants) && |a.participants| <= a.maxParticipants
  {
    var a := Activity(
      "Learn strategies and compete in chess tournaments",
      "Fridays, 3:30 PM - 5:00 PM",
      12,
      ["michael@mergington.edu", "daniel@mergington.edu"]);
    assert a.participants[0][0] != a.participants[1][0];
    a
  }

  /** The "Art Club" entry the service starts with. */
  function ArtClub(): (a: Activity)
    ensures NoDuplicates(a.participants) && |a.participants| <= a.maxParticipants
  {
    var a := Activity(
      "Explore your creativity through painting and drawing",
      "Thursdays, 3:30 PM - 5:00 PM",
      15,
      ["amelia@mergington.edu", "harper@mergington.edu"]);
    assert a.participants[0][0] != a.participants[1][0];
    a
  }

  /**
   Two of the activities the service starts with. Every seed roster lists
   nobody twice and is within its capacity.
   */
  function Seed(): (m: map<string, Activity>)
    ensures "Chess Club" in m && "Art Club" in m
    ensures RosterInvariant(m)
    ensures forall n :: n in m ==> |m[n].participants| <= m[n].maxParticipants
  {
    var m := map["Chess Club" := ChessClub(), "Art Club" := ArtClub()];
    assert m.Keys == {"Chess Club", "Art Club"};
    m
  }

  class Registry {
    /** Session token -> role. */
    var sessions: map<string, string>
    /** Activity name -> activity. */
    var activities: map<string, Activity>

    /** The object invariant: no participant list has duplicates. */
    ghost predicate Valid()
      reads this
    {
      RosterInvariant(activities)
    }

    /** Both tables as one value. */
    function State(): Tables
      reads this
    {
      Tables(sessions, activities)
    }

    /** A fresh process: no sessions, the seed activities. */
    constructor ()
      ensures sessions == map[] && activities == Seed()
      ensures Valid()
    {
      sessions := map[];
      activities := Seed();
    }

    /** `verify_session`: reports the session check, changing nothing. */
    method VerifySession(authorization: Option<string>) returns (authenticated: bool)
      ensures authenticated == IsTeacherSession(sessions, authorization)
      ensures !Present(authorization) ==> !authenticated
    {
      if authorization.None? || authorization.value == "" {
        return false;
      }
      var token := ExtractToken(authorization.value);
      authenticated := token in sessions && sessions[token] == TeacherRole;
    }

    /**
     `login`: scan the credential list for the first record with this exact
     username and password; on a match store `token` as a teacher session.
     */
    method Login(teachers: seq<Teacher>, username: string, password: string, token: string)
        returns (status: Status, issued: Option<string>)
      requires Valid()
      modifies this`sessions
      ensures Valid()
      ensures Reply(status, State()) == Handlers.Login(old(State()), teachers, username, password, token)
      ensures issued == if status == Ok then Some(token) else None
    {
      LoginPreservesRoster(State(), teachers, username, password, token);
      var i := 0;
      while i < |teachers|
        invariant 0 <= i <= |teachers|
        invariant sessions == old(sessions)
        invariant forall j :: 0 <= j < i ==> !Matches(teachers[j], username, password)
      {
        if teachers[i].username == username && teachers[i].password == password {
          sessions := sessions[token := TeacherRole];
          return Ok, Some(token);
        }
        i := i + 1;
      }
      return Unauthorized401, None;
    }

    /** `logout`: delete the session the header names, if there is one. */
    method Logout(authorization: Option<string>) returns (status: Status)
      requires Valid()
      modifies this`sessions
      ensures Valid()
      ensures Reply(status, State()) == Handlers.Logout(old(State()), authorization)
    {
      LogoutPreservesRoster(State(), authorization);
      if authorization.Some? && authorization.value != "" {
        var token := ExtractToken(authorization.value);
        if token in sessions {
          sessions := sessions - {token};
        }
      }
      return Ok;
    }

    /** `signup_for_activity`: 403, 404, 400 in that order, else append the email. */
    method Signup(name: string, email: string, authorization: Option<string>) returns (status: Status)
      requires Valid()
      modifies this`activities
      ensures Valid()
      ensures Reply(status, State()) == Handlers.Signup(old(State()), name, email, authorization)
    {
      ghost var before := State();
      var teacher := VerifySession(authorization);
      if !teacher {
        return Forbidden403;
      }
      if name !in activities {
        return NotFound404;
      }
      var activity := activities[name];
      if email in activity.participants {
        return BadRequest400;
      }
      activities := activities[name := activity.(participants := activity.participants + [email])];
      status := Ok;
      SignupPreservesRoster(before, name, email, authorization);
    }

    /** `unregister_from_activity`: 403, 404, 400 in that order, else remove the email. */
    method Unregister(name: string, email: string, authorization: Option<string>) returns (status: Status)
      requires Valid()
      modifies this`activities
      ensures Valid()
      ensures Reply(status, State()) == Handlers.Unregister(old(State()), name, email, authorization)
    {
      ghost var before := State();
      var teacher := VerifySession(authorization);
      if !teacher {
        return Forbidden403;
      }
      if name !in activities {
        return NotFound404;
      }
      var activity := activities[name];
      if email !in activity.participants {
        return BadRequest400;
      }
      activities := activities[name := activity.(participants := RemoveFirst(activity.participants, email))];
      status := Ok;
      UnregisterPreservesRoster(before, name, email, authorization);
    }
  }
}
