/** The in-memory activity registry of the Mergington High School API (src/app.py):
    the activity records, the registry they live in, and the two request handlers that
    change it (signup and unregister), written as pure steps from one registry state to
    the next. The class in school.dfy runs these steps in place. */
module Registry {

  datatype Option<T> = None | Some(value: T)

  /** One activity record. `participants` is the ordered roster of email strings. */
  datatype Activity = Activity(
    description: string,
    schedule: string,
    maxParticipants: int,
    participants: seq<string>)

  /** The registry: activity name to record. */
  type Activities = map<string, Activity>

  /** A decoded JSON value, as a request body or one of its entries can hold.
      Numbers are restricted to integers. */
  datatype Json =
    | JNull
    | JBool(b: bool)
    | JNumber(n: int)
    | JString(s: string)
    | JArray(items: seq<Json>)
    | JObject(fields: map<string, Json>)

  /** What a handler answers: a 200 body carrying a message, or an HTTPException. */
  datatype Response = Message(text: string) | HttpError(status: int, detail: string)

  /** The response of one request together with the registry after it. */
  datatype Outcome = Outcome(response: Response, activities: Activities)

  const ActivityNotFound: Response := HttpError(404, "Activity not found")
  const AlreadySignedUp: Response := HttpError(400, "Student is already signed up")
  const MissingEmail: Response := HttpError(400, "Missing email to unregister")
  const ParticipantNotFound: Response := HttpError(404, "Participant not found in activity")

  function SignedUp(email: string, activityName: string): string {
    "Signed up " + email + " for " + activityName
  }

  function Unregistered(email: string, activityName: string): string {
    "Unregistered " + email + " from " + activityName
  }

  /** No email appears twice in a roster. */
  predicate NoDuplicates(s: seq<string>) {
    forall i, j :: 0 <= i < j < |s| ==> s[i] != s[j]
  }

  /** Every roster of the registry is free of duplicates. */
  predicate NoDuplicateRosters(acts: Activities) {
    forall name :: name in acts ==> NoDuplicates(acts[name].participants)
  }

  /** Python's truthiness of a JSON value: `not v` holds exactly when this is false. The
      falsy values are None, False, zero, the empty string, the empty list and the empty dict. */
  predicate Truthy(v: Json)
    ensures !Truthy(v) <==>
      v in {JNull, JBool(false), JNumber(0), JString(""), JArray([]), JObject(map[])}
  {
    match v
    case JNull => false
    case JBool(b) => b
    case JNumber(n) => n != 0
    case JString(s) => s != ""
    case JArray(items) => items != []
    case JObject(fields) => fields != map[]
  }

  /** `fields.get(key)`: the entry, or None (JNull) when the key is absent. */
  function Get(fields: map<string, Json>, key: string): Json {
    if key in fields then fields[key] else JNull
  }

  /** The email unregister works with: the query parameter when it is non-empty, else the
      body's "email" entry when the body is a non-empty object, else the (falsy) query value.
      Python's None is JNull. */
  function ResolveEmail(query: Option<string>, payload: Option<Json>): (email: Json)
    ensures query.Some? && query.value != "" ==> email == JString(query.value)
    ensures !Truthy(email) <==>
      (query.None? || query.value == "") &&
      (payload.None? || !payload.value.JObject? || !Truthy(payload.value) ||
       !Truthy(Get(payload.value.fields, "email")))
  {
    var email := if query.Some? then JString(query.value) else JNull;
    if !Truthy(email) && payload.Some? && Truthy(payload.value) && payload.value.JObject? then
      Get(payload.value.fields, "email")
    else
      email
  }

  /** Python's `list.remove(x)` when `x` is in the list: drop the first entry equal to `x`. */
  function RemoveFirst(s: seq<string>, x: string): (r: seq<string>)
    ensures x !in s ==> r == s
    ensures x in s ==> |r| == |s| - 1
  {
    if s == [] then []
    else if s[0] == x then s[1..]
    else [s[0]] + RemoveFirst(s[1..], x)
  }

  /** signup_for_activity: reject an unknown activity, then an email already on the roster;
      otherwise append the email to that roster. Capacity is never consulted. */
  function Signup(acts: Activities, activityName: string, email: string): (o: Outcome)
    ensures o.activities.Keys == acts.Keys
    ensures o.response.HttpError? ==> o.activities == acts
    ensures forall other :: other in acts && other != activityName ==> o.activities[other] == acts[other]
  {
    if activityName !in acts then
      Outcome(ActivityNotFound, acts)
    else
      var activity := acts[activityName];
      if email in activity.participants then
        Outcome(AlreadySignedUp, acts)
      else
        Outcome(Message(SignedUp(email, activityName)),
                acts[activityName := activity.(participants := activity.participants + [email])])
  }

  /** unregister_from_activity: reject an unknown activity, then resolve the email from the
      query or the body and reject a missing one, then reject an email not on the roster;
      otherwise remove its first occurrence. */
  function Unregister(acts: Activities, activityName: string, query: Option<string>, payload: Option<Json>): (o: Outcome)
    ensures o.activities.Keys == acts.Keys
    ensures o.response.HttpError? ==> o.activities == acts
    ensures forall other :: other in acts && other != activityName ==> o.activities[other] == acts[other]
  {
    if activityName !in acts then
      Outcome(ActivityNotFound, acts)
    else
      var activity := acts[activityName];
      var email := ResolveEmail(query, payload);
      if !Truthy(email) then
        Outcome(MissingEmail, acts)
      else if !(email.JString? && email.s in activity.participants) then
        Outcome(ParticipantNotFound, acts)
      else
        Outcome(Message(Unregistered(email.s, activityName)),
                acts[activityName := activity.(participants := RemoveFirst(activity.participants, email.s))])
  }

  /** The registry the process starts with: nine activities, two students each. The
      descriptions and schedules are constants below. */
  function Seed(): (acts: Activities)
    ensures forall name :: name in acts ==>
      |acts[name].participants| == 2 <= acts[name].maxParticipants
  {
    map[
      "Chess Club" := Activity(ChessClubDescription, ChessClubSchedule, 12,
        ["michael@mergington.edu", "daniel@mergington.edu"]),
      "Programming Class" := Activity(ProgrammingClassDescription, ProgrammingClassSchedule, 20,
        ["emma@mergington.edu", "sophia@mergington.edu"]),
      "Gym Class" := Activity(GymClassDescription, GymClassSchedule, 30,
        ["john@mergington.edu", "olivia@mergington.edu"]),
      "Soccer Team" := Activity(SoccerTeamDescription, SoccerTeamSchedule, 22,
        ["liam@mergington.edu", "noah@mergington.edu"]),
      "Basketball Club" := Activity(BasketballClubDescription, BasketballClubSchedule, 18,
        ["ava@mergington.edu", "isabella@mergington.edu"]),
      "Art Club" := Activity(ArtClubDescription, ArtClubSchedule, 16,
        ["mia@mergington.edu", "charlotte@mergington.edu"]),
      "Drama Club" := Activity(DramaClubDescription, DramaClubSchedule, 25,
        ["amelia@mergington.edu", "harper@mergington.edu"]),
      "Science Club" := Activity(ScienceClubDescription, ScienceClubSchedule, 20,
        ["ethan@mergington.edu", "lucas@mergington.edu"]),
      "Debate Team" := Activity(DebateTeamDescription, DebateTeamSchedule, 14,
        ["sophomore1@mergington.edu", "junior1@mergington.edu"])
    ]
  }

  const ChessClubDescription: string := "Learn strategies and compete in chess tournaments"
  const ChessClubSchedule: string := "Fridays, 3:30 PM - 5:00 PM"
  const ProgrammingClassDescription: string := "Learn programming fundamentals and build software projects"
  const ProgrammingClassSchedule: string := "Tuesdays and Thursdays, 3:30 PM - 4:30 PM"
  const GymClassDescription: string := "Physical education and sports activities"
  const GymClassSchedule: string := "Mondays, Wednesdays, Fridays, 2:00 PM - 3:00 PM"
  const SoccerTeamDescription: string := "Competitive soccer practices and matches against other schools"
  const SoccerTeamSchedule: string := "Mondays, Wednesdays, 4:00 PM - 6:00 PM"
  const BasketballClubDescription: string := "Pickup games, drills, and intramural tournaments"
  const BasketballClubSchedule: string := "Tuesdays and Thursdays, 5:00 PM - 7:00 PM"
  const ArtClubDescription: string := "Explore drawing, painting, and mixed media projects"
  const ArtClubSchedule: string := "Wednesdays, 3:30 PM - 5:00 PM"
  const DramaClubDescription: string := "Acting workshops, play production, and stagecraft"
  const DramaClubSchedule: string := "Fridays, 4:00 PM - 6:30 PM"
  const ScienceClubDescription: string := "Hands-on experiments, guest lectures, and science fairs"
  const ScienceClubSchedule: string := "Thursdays, 3:30 PM - 5:00 PM"
  const DebateTeamDescription: string := "Practice persuasive speaking, research, and competitive debates"
  const DebateTeamSchedule: string := "Mondays, 3:30 PM - 5:00 PM"
}
