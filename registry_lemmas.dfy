/** What signup and unregister promise about the registry: their error cases, what a
    successful call changes and what it leaves alone, the duplicate-free roster invariant,
    and the signup-then-unregister round trip. */
module RegistryLemmas {
  import opened Registry

  // ---- Removing the first occurrence ----

  /** RemoveFirst drops exactly the entry at the first index holding `x`. */
  lemma {:induction false} RemoveFirstAt(s: seq<string>, x: string, i: nat)
    requires i < |s| && s[i] == x && x !in s[..i]
    ensures RemoveFirst(s, x) == s[..i] + s[i + 1..]
  {
    if i == 0 {
      assert s[..0] + s[1..] == s[1..];
    } else {
      var t := s[1..];
      assert s[0] == s[..i][0] && s[0] != x;
      assert t[..i - 1] == s[1..i];
      assert t[..i - 1] == s[..i][1..];
      RemoveFirstAt(t, x, i - 1);
      assert RemoveFirst(s, x) == [s[0]] + (t[..i - 1] + t[i..]);
      assert [s[0]] + t[..i - 1] == s[..i];
      assert t[i..] == s[i + 1..];
    }
  }

  /** RemoveFirst takes away exactly one copy of `x` when there is one, and nothing else. */
  lemma {:induction false} RemoveFirstMultiset(s: seq<string>, x: string)
    ensures multiset(RemoveFirst(s, x)) == multiset(s) - multiset{x}
  {
    if s != [] {
      assert s == [s[0]] + s[1..];
      if s[0] != x {
        RemoveFirstMultiset(s[1..], x);
      }
    }
  }

  /** Removing an email just appended to a roster that lacked it gives the roster back. */
  lemma {:induction false} RemoveFirstOfAppended(s: seq<string>, x: string)
    requires x !in s
    ensures RemoveFirst(s + [x], x) == s
  {
    if s != [] {
      assert (s + [x])[1..] == s[1..] + [x];
      RemoveFirstOfAppended(s[1..], x);
    }
  }

  /** Removing the first occurrence of `x` keeps every other email. */
  lemma {:induction false} RemoveFirstKeepsOthers(s: seq<string>, x: string, y: string)
    requires y in s && y != x
    ensures y in RemoveFirst(s, x)
  {
    if s[0] != y {
      assert y in s[1..] by {
        var i :| 0 <= i < |s| && s[i] == y;
        assert s[1..][i - 1] == y;
      }
      if s[0] != x {
        RemoveFirstKeepsOthers(s[1..], x, y);
      }
    }
  }

  /** Removing the first occurrence only ever drops entries. */
  lemma {:induction false} RemoveFirstSubset(s: seq<string>, x: string, y: string)
    requires y in RemoveFirst(s, x)
    ensures y in s
  {
    if s != [] && s[0] != x && y != s[0] {
      RemoveFirstSubset(s[1..], x, y);
    }
  }

  /** The tail of a duplicate-free roster is duplicate-free and lacks the head. */
  lemma TailNoDuplicates(s: seq<string>)
    requires NoDuplicates(s) && s != []
    ensures NoDuplicates(s[1..]) && s[0] !in s[1..]
  {
    var t := s[1..];
    forall i, j | 0 <= i < j < |t| ensures t[i] != t[j] {
      assert t[i] == s[i + 1] && t[j] == s[j + 1];
    }
    forall k | 0 <= k < |t| ensures t[k] != s[0] {
      assert t[k] == s[k + 1];
    }
  }

  /** Putting an unlisted email in front of a duplicate-free roster keeps it duplicate-free. */
  lemma ConsNoDuplicates(y: string, r: seq<string>)
    requires NoDuplicates(r) && y !in r
    ensures NoDuplicates([y] + r)
  {
    var c := [y] + r;
    forall i, j | 0 <= i < j < |c| ensures c[i] != c[j] {
      assert c[j] == r[j - 1];
      if i > 0 {
        assert c[i] == r[i - 1];
      }
    }
  }

  /** Removing the first occurrence keeps a duplicate-free roster duplicate-free and leaves
      no copy of the removed email. */
  lemma {:induction false} RemoveFirstKeepsNoDuplicates(s: seq<string>, x: string)
    requires NoDuplicates(s)
    ensures NoDuplicates(RemoveFirst(s, x))
    ensures x !in RemoveFirst(s, x)
  {
    if s != [] {
      TailNoDuplicates(s);
      if s[0] != x {
        var r := RemoveFirst(s[1..], x);
        RemoveFirstKeepsNoDuplicates(s[1..], x);
        if s[0] in r {
          RemoveFirstSubset(s[1..], x, s[0]);
        }
        ConsNoDuplicates(s[0], r);
        assert RemoveFirst(s, x) == [s[0]] + r;
      }
    }
  }

  /** Appending an email that is not yet listed keeps a roster duplicate-free. */
  lemma AppendKeepsNoDuplicates(s: seq<string>, x: string)
    requires NoDuplicates(s) && x !in s
    ensures NoDuplicates(s + [x])
  {
    forall i, j | 0 <= i < j < |s + [x]| ensures (s + [x])[i] != (s + [x])[j] {
      if j == |s| {
        assert (s + [x])[i] == s[i];
      }
    }
  }

  // ---- Signup ----

  /** A signup succeeds exactly when the activity exists and the email is not yet on its
      roster; the roster's length and max_participants play no part. */
  lemma SignupSucceedsIff(acts: Activities, activityName: string, email: string)
    ensures Signup(acts, activityName, email).response.Message? <==>
      activityName in acts && email !in acts[activityName].participants
  {
  }

  /** Signing up for an activity that is not in the registry is a 404 and changes nothing. */
  lemma SignupUnknownActivity(acts: Activities, activityName: string, email: string)
    requires activityName !in acts
    ensures Signup(acts, activityName, email) == Outcome(HttpError(404, "Activity not found"), acts)
  {
  }

  /** Signing up an email already on the roster is a 400 and changes nothing. */
  lemma SignupAlreadySignedUp(acts: Activities, activityName: string, email: string)
    requires activityName in acts && email in acts[activityName].participants
    ensures Signup(acts, activityName, email) == Outcome(HttpError(400, "Student is already signed up"), acts)
  {
  }

  /** A successful signup appends the email at the end of that roster, confirms it, and
      leaves every other field, every other activity and the set of activities unchanged. */
  lemma SignupAppends(acts: Activities, activityName: string, email: string)
    requires activityName in acts && email !in acts[activityName].participants
    ensures var o := Signup(acts, activityName, email);
      && o.response == Message("Signed up " + email + " for " + activityName)
      && o.activities.Keys == acts.Keys
      && o.activities[activityName].participants == acts[activityName].participants + [email]
      && o.activities[activityName].description == acts[activityName].description
      && o.activities[activityName].schedule == acts[activityName].schedule
      && o.activities[activityName].maxParticipants == acts[activityName].maxParticipants
      && forall other :: other in acts && other != activityName ==> o.activities[other] == acts[other]
  {
  }

  /** Capacity is not enforced: a roster already at or over max_participants still accepts a
      new email, and then holds more entries than max_participants allows. */
  lemma SignupIgnoresCapacity(acts: Activities, activityName: string, email: string)
    requires activityName in acts && email !in acts[activityName].participants
    requires |acts[activityName].participants| >= acts[activityName].maxParticipants
    ensures var o := Signup(acts, activityName, email);
      o.response.Message? &&
      |o.activities[activityName].participants| > o.activities[activityName].maxParticipants
  {
  }

  /** Signing up twice: the first call succeeds, the second is rejected as a duplicate,
      and the email is listed exactly once. */
  lemma SignupTwice(acts: Activities, activityName: string, email: string)
    requires activityName in acts && email !in acts[activityName].participants
    ensures var first := Signup(acts, activityName, email);
      var second := Signup(first.activities, activityName, email);
      && first.response.Message?
      && second == Outcome(AlreadySignedUp, first.activities)
      && multiset(second.activities[activityName].participants)[email] == 1
  {
  }

  /** Signup keeps every roster free of duplicates. */
  lemma SignupKeepsNoDuplicates(acts: Activities, activityName: string, email: string)
    requires NoDuplicateRosters(acts)
    ensures NoDuplicateRosters(Signup(acts, activityName, email).activities)
  {
    if activityName in acts && email !in acts[activityName].participants {
      AppendKeepsNoDuplicates(acts[activityName].participants, email);
    }
  }

  // ---- Unregister ----

  /** The activity is checked before the email is looked at: an unknown activity is a 404
      whatever the query and the body hold, even when neither supplies an email. */
  lemma UnregisterUnknownActivity(acts: Activities, activityName: string, query: Option<string>, payload: Option<Json>)
    requires activityName !in acts
    ensures Unregister(acts, activityName, query, payload) == Outcome(HttpError(404, "Activity not found"), acts)
  {
  }

  /** A non-empty query email wins over anything in the body. */
  lemma QueryEmailTakesPrecedence(query: string, payload: Option<Json>)
    requires query != ""
    ensures ResolveEmail(Some(query), payload) == JString(query)
  {
  }

  /** Without a usable query email, a non-empty JSON object body supplies its "email" entry. */
  lemma BodyEmailIsFallback(query: Option<string>, fields: map<string, Json>)
    requires query.None? || query.value == ""
    requires fields != map[]
    ensures ResolveEmail(query, Some(JObject(fields))) == Get(fields, "email")
  {
  }

  /** When neither channel yields a truthy email the call is a 400 and changes nothing. */
  lemma UnregisterMissingEmail(acts: Activities, activityName: string, query: Option<string>, payload: Option<Json>)
    requires activityName in acts
    requires query.None? || query.value == ""
    requires payload.None? || !payload.value.JObject? || !Truthy(Get(payload.value.fields, "email"))
    ensures Unregister(acts, activityName, query, payload) == Outcome(HttpError(400, "Missing email to unregister"), acts)
  {
  }

  /** An email that is not on the roster (including any non-string body value) is a 404
      and changes nothing. */
  lemma UnregisterNotAParticipant(acts: Activities, activityName: string, query: Option<string>, payload: Option<Json>)
    requires activityName in acts
    requires Truthy(ResolveEmail(query, payload))
    requires !ResolveEmail(query, payload).JString? ||
      ResolveEmail(query, payload).s !in acts[activityName].participants
    ensures Unregister(acts, activityName, query, payload) == Outcome(HttpError(404, "Participant not found in activity"), acts)
  {
  }

  /** A successful unregister removes exactly the first occurrence of the email, confirms
      it, and leaves every other field, every other activity and the set of activities
      unchanged. */
  lemma UnregisterRemovesFirst(acts: Activities, activityName: string, query: Option<string>, payload: Option<Json>, i: nat)
    requires activityName in acts
    requires var s := acts[activityName].participants;
      var email := ResolveEmail(query, payload);
      email.JString? && email.s != "" && i < |s| && s[i] == email.s && email.s !in s[..i]
    ensures var s := acts[activityName].participants;
      var o := Unregister(acts, activityName, query, payload);
      && o.response == Message("Unregistered " + s[i] + " from " + activityName)
      && o.activities == acts[activityName := acts[activityName].(participants := s[..i] + s[i + 1..])]
  {
    RemoveFirstAt(acts[activityName].participants, ResolveEmail(query, payload).s, i);
  }

  /** Unregister keeps every roster free of duplicates, and the email it removes is gone. */
  lemma UnregisterKeepsNoDuplicates(acts: Activities, activityName: string, query: Option<string>, payload: Option<Json>)
    requires NoDuplicateRosters(acts)
    ensures var o := Unregister(acts, activityName, query, payload);
      NoDuplicateRosters(o.activities) &&
      (o.response.Message? ==> ResolveEmail(query, payload).s !in o.activities[activityName].participants)
  {
    var email := ResolveEmail(query, payload);
    if activityName in acts && Truthy(email) && email.JString? && email.s in acts[activityName].participants {
      RemoveFirstKeepsNoDuplicates(acts[activityName].participants, email.s);
      var after := Unregister(acts, activityName, query, payload).activities;
      forall name | name in after ensures NoDuplicates(after[name].participants) {
        if name != activityName {
          assert after[name] == acts[name];
        }
      }
    }
  }

  /** Signup never takes an email off a roster. */
  lemma SignupKeepsListed(acts: Activities, activityName: string, email: string, listed: string)
    requires activityName in acts && listed in acts[activityName].participants
    ensures listed in Signup(acts, activityName, email).activities[activityName].participants
  {
  }

  /** Signup takes any query string, the empty one included. */
  lemma EmptyEmailCanBeSignedUp(acts: Activities, activityName: string)
    requires activityName in acts && "" !in acts[activityName].participants
    ensures var up := Signup(acts, activityName, "");
      && up.response == Message(SignedUp("", activityName))
      && "" in up.activities[activityName].participants
  {
    var up := Signup(acts, activityName, "");
    var roster := up.activities[activityName].participants;
    assert roster[|roster| - 1] == "";
  }

  /** Once on a roster, the empty email is never unregistered: "" is falsy, so neither
      channel yields it, and removing any other email keeps it. With SignupKeepsListed it
      stays through any sequence of requests. */
  lemma EmptyEmailIsNeverUnregistered(acts: Activities, activityName: string, query: Option<string>, payload: Option<Json>)
    requires activityName in acts && "" in acts[activityName].participants
    ensures "" in Unregister(acts, activityName, query, payload).activities[activityName].participants
  {
    var email := ResolveEmail(query, payload);
    if Truthy(email) && email.JString? {
      RemoveFirstKeepsOthers(acts[activityName].participants, email.s, "");
    }
  }

  // ---- Signup followed by unregister ----

  /** Signing up a fresh email and then unregistering it, through either channel, restores
      the registry exactly as it was, roster order included. */
  lemma SignupThenUnregisterRestores(acts: Activities, activityName: string, email: string, query: Option<string>, payload: Option<Json>)
    requires activityName in acts && email !in acts[activityName].participants
    requires ResolveEmail(query, payload) == JString(email) && email != ""
    ensures var up := Signup(acts, activityName, email);
      && up.response == Message("Signed up " + email + " for " + activityName)
      && Unregister(up.activities, activityName, query, payload)
         == Outcome(Message("Unregistered " + email + " from " + activityName), acts)
  {
    var s := acts[activityName].participants;
    RemoveFirstOfAppended(s, email);
    var up := Signup(acts, activityName, email);
    assert up.activities[activityName := up.activities[activityName].(participants := s)] == acts;
  }

  /** The flow of tests/test_app.py: sign up testuser@example.com for Chess Club through the
      query, unregister it through a JSON body; in between the email is on the roster, and
      afterwards the seed registry is back. */
  lemma ChessClubRoundTrip()
    ensures var email := "testuser@example.com";
      var up := Signup(Seed(), "Chess Club", email);
      var down := Unregister(up.activities, "Chess Club", None, Some(JObject(map["email" := JString(email)])));
      && up.response == Message(SignedUp(email, "Chess Club"))
      && email in up.activities["Chess Club"].participants
      && down == Outcome(Message(Unregistered(email, "Chess Club")), Seed())
      && email !in down.activities["Chess Club"].participants
  {
    var email := "testuser@example.com";
    var fields := map["email" := JString(email)];
    assert "email" in fields;
    BodyEmailIsFallback(None, fields);
    assert "Chess Club" in Seed();
    assert email !in Seed()["Chess Club"].participants;
    SignupThenUnregisterRestores(Seed(), "Chess Club", email, None, Some(JObject(fields)));
  }

  /** An empty JSON object body with no query email is a 400 "Missing email to unregister". */
  lemma EmptyBodyIsMissingEmail(acts: Activities, activityName: string)
    requires activityName in acts
    ensures Unregister(acts, activityName, None, Some(JObject(map[]))) == Outcome(MissingEmail, acts)
  {
  }

  /** The seed rosters hold no duplicate emails. */
  lemma SeedHasNoDuplicates()
    ensures NoDuplicateRosters(Seed())
  {
  }
}
