/** The running service's state: the global `activities` registry of src/app.py and the two
    POST handlers that change it in place. Each handler is proved to do what the pure step
    of the same name in module Registry describes, and to keep the duplicate-free rosters
    invariant established by the seed. */
module App {
  import opened Registry
  import RegistryLemmas

  class School {
    /** The in-memory activity database. */
    var activities: Activities

    /** Every roster is duplicate-free. The seed satisfies it and both handlers keep it. */
    ghost predicate Valid()
      reads this
    {
      NoDuplicateRosters(activities)
    }

    /** The registry as the process starts it. */
    constructor ()
      ensures activities == Seed()
      ensures Valid()
    {
      activities := Seed();
      RegistryLemmas.SeedHasNoDuplicates();
    }

    /** POST /activities/{activityName}/signup?email=... */
    method SignupForActivity(activityName: string, email: string) returns (response: Response)
      requires Valid()
      modifies this
      ensures Valid()
      ensures Outcome(response, activities) == Signup(old(activities), activityName, email)
      ensures activities.Keys == old(activities).Keys
      ensures forall other :: other in old(activities) && other != activityName ==>
        activities[other] == old(activities)[other]
    {
      RegistryLemmas.SignupKeepsNoDuplicates(activities, activityName, email);
      if activityName !in activities {
        return ActivityNotFound;
      }
      var activity := activities[activityName];
      if email in activity.participants {
        return AlreadySignedUp;
      }
      activities := activities[activityName := activity.(participants := activity.participants + [email])];
      return Message(SignedUp(email, activityName));
    }

    /** POST /activities/{activityName}/unregister, with the email in the query (`email`) or
        in a JSON body (`payload`). */
    method UnregisterFromActivity(activityName: string, email: Option<string>, payload: Option<Json>)
      returns (response: Response)
      requires Valid()
      modifies this
      ensures Valid()
      ensures Outcome(response, activities) == Unregister(old(activities), activityName, email, payload)
      ensures activities.Keys == old(activities).Keys
      ensures forall other :: other in old(activities) && other != activityName ==>
        activities[other] == old(activities)[other]
    {
      RegistryLemmas.UnregisterKeepsNoDuplicates(activities, activityName, email, payload);
      if activityName !in activities {
        return ActivityNotFound;
      }
      var activity := activities[activityName];
      var resolved := ResolveEmail(email, payload);
      if !Truthy(resolved) {
        return MissingEmail;
      }
      if !(resolved.JString? && resolved.s in activity.participants) {
        return ParticipantNotFound;
      }
      activities := activities[activityName := activity.(participants := RemoveFirst(activity.participants, resolved.s))];
      return Message(Unregistered(resolved.s, activityName));
    }
  }

  /** The test flow of tests/test_app.py against a freshly started service: the signup is
      accepted, the JSON-body unregister is accepted, the roster is back as it was, and an
      unregister with an empty JSON object is a 400. */
  method SignupAndUnregisterFlow() returns (signedUp: Response, unregistered: Response, missing: Response)
    ensures signedUp == Message(SignedUp("testuser@example.com", "Chess Club"))
    ensures unregistered == Message(Unregistered("testuser@example.com", "Chess Club"))
    ensures missing == HttpError(400, "Missing email to unregister")
  {
    var school := new School();
    RegistryLemmas.ChessClubRoundTrip();
    signedUp := school.SignupForActivity("Chess Club", "testuser@example.com");
    assert "testuser@example.com" in school.activities["Chess Club"].participants;
    unregistered := school.UnregisterFromActivity("Chess Club", None,
      Some(JObject(map["email" := JString("testuser@example.com")])));
    assert school.activities == Seed();
    missing := school.UnregisterFromActivity("Chess Club", None, Some(JObject(map[])));
  }
}
