# Mergington High School activities — a Dafny model

This project models the core of the Mergington High School API. That core is an in-memory
registry of extracurricular activities. Each activity has a description, a schedule, a
`max_participants` number and an ordered roster of student emails. Two POST handlers change
the registry:

- **signup** appends an email to an activity's roster;
- **unregister** removes an email from a roster. It takes the email from the query string
  or, failing that, from a JSON body.

The project also models the front end's avatar helper. It derives up to two upper-case
initials from a participant's email or name.

Files:

- `registry.dfy`, module `Registry`: the records and the registry. `Signup` and `Unregister`
  are pure steps from one registry to the next. Also here: email resolution, Python's
  `list.remove`, and the seed registry.
- `registry_lemmas.dfy`, module `RegistryLemmas`: the error cases, what a successful call
  changes and what it leaves alone, the duplicate-free roster invariant, and the
  signup-then-unregister round trip.
- `school.dfy`, module `App`: class `School`, the running service. Its field `activities` is
  updated in place by `SignupForActivity` and `UnregisterFromActivity`. Both methods are
  proved to do what `Registry.Signup` and `Registry.Unregister` describe, to keep every roster
  duplicate-free, and to leave every other activity untouched.
- `avatar.dfy`, module `Avatar`: `getInitialsFromParticipant` and the string functions it is
  built from.
- `avatar_lemmas.dfy`, module `AvatarLemmas`: the parts of a name are exactly its maximal
  runs of non-separator characters, and the initials for each outcome.

Errors are the `HttpError(status, detail)` values of `Registry.Response`, with the source's
status codes and detail strings. A successful call gives `Message(text)`.

Behaviour of the code that is easy to mistake, and that the model keeps:

- Signup reads the email only from its required query parameter. It has no JSON-body
  fallback and no "Missing email to sign up" error. An empty query email is not rejected:
  `""` is appended like any other email (`Registry.Signup`).
- Unregister uses the body's `"email"` entry whatever its JSON type. It is only checked for
  truthiness. A truthy non-string value (a number, say) is never on a roster, so it gives
  "Participant not found in activity" rather than "Missing email to unregister"
  (`RegistryLemmas.UnregisterNotAParticipant`).
- Signup never checks `max_participants` (`RegistryLemmas.SignupIgnoresCapacity`).

## Model

| member | source | states |
|---|---|---|
| `Registry.Truthy` | src/app.py:122-125 | Python's `not v` on a JSON value: the falsy values are exactly None, False, 0, "", [] and {}. |
| `Registry.Signup` | src/app.py:91-106 | Signup never adds or removes an activity and never touches another activity; every error response leaves the registry exactly as it was. |
| `Registry.Unregister` | src/app.py:109-132 | Unregister never adds or removes an activity and never touches another activity; every error response leaves the registry exactly as it was. |
| `Registry.Seed` | src/app.py:23-78 | Every seeded activity starts with two students, within its max_participants. |
| `Registry.ResolveEmail` | src/app.py:121-126 | A non-empty query email is used as it is. The resolved email is falsy exactly when the query is absent or empty and the body is missing, not an object, empty, or has no truthy "email" entry. |
| `Registry.RemoveFirst` | src/app.py:128-131 | `list.remove` at its only call site, where the membership test has just passed: a present email makes the roster exactly one entry shorter. An absent email leaves the roster as it is; that case is unreachable there, and Python would raise ValueError. |
| `RegistryLemmas.RemoveFirstAt` | src/app.py:131 | Removal drops exactly the entry at the first index holding the email: the result is `s[..i] + s[i+1..]`. |
| `RegistryLemmas.RemoveFirstMultiset` | src/app.py:131 | Removal takes away one copy of the email, if there is one, and nothing else. |
| `RegistryLemmas.RemoveFirstOfAppended` | src/app.py:104-131 | Removing an email just appended to a roster that lacked it gives that roster back. |
| `RegistryLemmas.RemoveFirstKeepsOthers` | src/app.py:131 | Removing one email keeps every other email on the roster. |
| `RegistryLemmas.RemoveFirstKeepsNoDuplicates` | src/app.py:128-131 | Removal keeps a duplicate-free roster duplicate-free, and no copy of the removed email remains. |
| `RegistryLemmas.SignupSucceedsIff` | src/app.py:91-106 | A signup succeeds if and only if the activity exists and the email is not yet on its roster. |
| `RegistryLemmas.SignupUnknownActivity` | src/app.py:95-96 | An unknown activity gives 404 "Activity not found" and the registry is unchanged. |
| `RegistryLemmas.SignupAlreadySignedUp` | src/app.py:101-102 | An email already on the roster gives 400 "Student is already signed up" and the registry is unchanged. |
| `RegistryLemmas.SignupAppends` | src/app.py:104-106 | Success returns "Signed up {email} for {activity}". The email is appended at the end of that roster. Description, schedule and max_participants are kept. Every other activity and the set of activity names are unchanged. |
| `RegistryLemmas.SignupIgnoresCapacity` | src/app.py:91-106 | A roster at or over max_participants still accepts a new email and then exceeds the cap. |
| `RegistryLemmas.SignupTwice` | src/app.py:101-105 | Signing up the same email twice succeeds and then gives the duplicate error, with no change. The email is listed exactly once. |
| `RegistryLemmas.SignupKeepsNoDuplicates` | src/app.py:101-105 | If every roster is duplicate-free before a signup, every roster is duplicate-free after it. |
| `RegistryLemmas.UnregisterUnknownActivity` | src/app.py:116-117 | An unknown activity gives 404 "Activity not found", whatever the query and body hold, even with no email at all. |
| `RegistryLemmas.QueryEmailTakesPrecedence` | src/app.py:121-123 | A non-empty query email wins over any body. |
| `RegistryLemmas.BodyEmailIsFallback` | src/app.py:121-123 | With no query email (absent or empty), a non-empty object body supplies its "email" entry, or None when it has none. |
| `RegistryLemmas.UnregisterMissingEmail` | src/app.py:121-126 | Suppose there is no query email and no usable body email (no body, a non-object body, or a falsy or absent "email"). Then the call gives 400 "Missing email to unregister" and the registry is unchanged. |
| `RegistryLemmas.EmptyBodyIsMissingEmail` | tests/test_app.py:27-31 | The body `{}` with no query email gives 400 "Missing email to unregister" and the registry is unchanged. |
| `RegistryLemmas.UnregisterNotAParticipant` | src/app.py:128-129 | A truthy email that is not on the roster gives 404 "Participant not found in activity", and the registry is unchanged. This includes any non-string body value. |
| `RegistryLemmas.UnregisterRemovesFirst` | src/app.py:128-132 | Success returns "Unregistered {email} from {activity}". The roster loses exactly its first occurrence of the email. All else is unchanged. |
| `RegistryLemmas.UnregisterKeepsNoDuplicates` | src/app.py:128-131 | Unregister keeps every roster duplicate-free. After a success the email is no longer on the roster. |
| `RegistryLemmas.SignupKeepsListed` | src/app.py:101-105 | Signup never takes an email off a roster. |
| `RegistryLemmas.EmptyEmailCanBeSignedUp` | src/app.py:91-106 | The empty email is accepted by signup like any other and lands on the roster. |
| `RegistryLemmas.EmptyEmailIsNeverUnregistered` | src/app.py:121-131 | Once "" is on a roster, no unregister, whatever its query and body, removes it: "" is falsy, so neither channel yields it, and removing another email keeps it. With `SignupKeepsListed`, it stays through any sequence of requests. |
| `RegistryLemmas.SignupThenUnregisterRestores` | src/app.py:91-132 | Sign up a fresh non-empty email, then unregister it through either channel. Both calls succeed and the registry is restored exactly, roster order included. |
| `RegistryLemmas.ChessClubRoundTrip` | tests/test_app.py:8-24 | From the seed, signing up testuser@example.com for Chess Club by query puts the email on the roster. Unregistering it by JSON body then succeeds, removes it, and gives the seed registry back. |
| `RegistryLemmas.SeedHasNoDuplicates` | src/app.py:23-78 | No seed roster lists an email twice. |
| `App.School.constructor` | src/app.py:23-78 | The service starts with the seed registry, and every roster is duplicate-free. |
| `App.School.SignupForActivity` | src/app.py:91-106 | The in-place handler gives the response and the new registry of `Registry.Signup`. It keeps rosters duplicate-free, keeps the set of activities, and changes no other activity. |
| `App.School.UnregisterFromActivity` | src/app.py:109-132 | The in-place handler gives the response and the new registry of `Registry.Unregister`. It keeps rosters duplicate-free, keeps the set of activities, and changes no other activity. |
| `App.SignupAndUnregisterFlow` | tests/test_app.py:8-31 | On a fresh service, the Chess Club signup and the JSON-body unregister both succeed with their messages. Then an unregister with `{}` gives 400 "Missing email to unregister". |
| `Avatar.BeforeFirstAt` | src/static/app.js:11 | The result is a prefix of the input with no '@'. It stops either at the end of the input or just before its first '@'. |
| `AvatarLemmas.SeparatorIsNoLetter` | src/static/app.js:12 | No character of the class `[\s._-]` (JavaScript whitespace, '.', '_', '-') is a letter, a digit or '@'. |
| `Avatar.SplitOnRuns` | src/static/app.js:12 | Splitting on runs of `[\s._-]` yields at least one piece, and no piece contains a separator. |
| `Avatar.NonEmpty` | src/static/app.js:12 | `filter(Boolean)`: every kept piece is non-empty and one of the pieces, and every non-empty piece is kept. |
| `AvatarLemmas.NonEmptyAppend` | src/static/app.js:12 | `filter(Boolean)` of two lists joined is the filter of each, joined: order is kept. |
| `AvatarLemmas.NonEmptyOfNonEmpty` | src/static/app.js:12 | A list of non-empty strings passes `filter(Boolean)` unchanged, repeats and order included. |
| `Avatar.Parts` | src/static/app.js:12 | After `filter(Boolean)`, every part is non-empty and free of separators. |
| `Avatar.UpperChar` | src/static/app.js:13-15 | `toUpperCase` on one ASCII character: a lower-case letter becomes the upper-case letter at the same place in the alphabet; every other character is unchanged. |
| `Avatar.ToUpper` | src/static/app.js:13-15 | `toUpperCase` keeps the length, maps each character by `UpperChar`, and leaves no lower-case ASCII letter. |
| `Avatar.Prefix` | src/static/app.js:13-14 | `slice(0, n)` is a prefix of the string, of length n or the whole string when it is shorter. |
| `Avatar.Initials` | src/static/app.js:8-16 | The initials have at most two characters, and none is a lower-case ASCII letter. |
| `AvatarLemmas.BeforeFirstAtOfEmail` | src/static/app.js:11 | A string with no '@' is used whole. For `local@domain`, only `local` is used. |
| `AvatarLemmas.InitialsIgnoreDomain` | src/static/app.js:11 | The initials of `local@domain` are those of `local`. |
| `AvatarLemmas.SplitOnRunsOfRuns` | src/static/app.js:12 | Take a leading run of separators (possibly empty), non-empty separator-free words with a non-empty run of separators between each two, and a trailing run (possibly empty). Splitting gives the words, with one empty piece before them for a non-empty leading run and one after them for a non-empty trailing run, as JavaScript's `split` does. |
| `AvatarLemmas.PartsOfRuns` | src/static/app.js:12 | Round trip: for the same inputs, the parts are exactly the words, however many separators divide or surround them. |
| `AvatarLemmas.PartsAreRuns` | src/static/app.js:12 | Every string that has a non-separator has that form, with its own parts as the words. Together with `PartsOfRuns`, the parts of any input are exactly its maximal separator-free runs, in order. |
| `AvatarLemmas.PartsConcat` | src/static/app.js:12 | Concatenated in order, the parts give the input with every separator deleted. |
| `AvatarLemmas.PartsEmptyIff` | src/static/app.js:12-13 | There are no parts if and only if the input consists only of separators. |
| `AvatarLemmas.InitialsOfWords` | src/static/app.js:15 | For two or more words, whatever separator runs lead, divide or trail them, the initials are the upper-cased first letters of the first two words. This holds for the name alone and for the name followed by '@' and any domain. |
| `AvatarLemmas.InitialsOfOneWord` | src/static/app.js:14 | For a single word, whatever separator runs surround it, the initials are its first two characters (or fewer), upper-cased. This holds for the name alone and for the name followed by '@' and any domain. |
| `AvatarLemmas.InitialsOfSeparators` | src/static/app.js:9-13 | An input of separators only gives its first two characters, unchanged. The empty input gives "". |
| `AvatarLemmas.InitialsOfSeedEmail` | src/static/app.js:8-16 | "michael@mergington.edu" shows "MI". |
| `AvatarLemmas.InitialsOfPunctuatedEmail` | src/static/app.js:8-16 | "-ann..lee@x" shows "AL": leading and doubled separators are skipped. |

## Left out

- FastAPI wiring is not modelled: app construction, the static mount, the `/` redirect and the read-only `GET /activities` (src/app.py:14-20, 81-88). `GET /activities` returns the registry as it is, which is the `activities` field of `App.School`.
- FastAPI's request validation before a handler runs is not modelled. That includes the 422 for a signup without an `email` query parameter and for a body that is not a JSON object. The unregister model still takes any JSON body and keeps the code's own `isinstance(payload, dict)` test.
- `Registry.RemoveFirst`: Python's `list.remove` raises ValueError when the value is absent; the model returns the list unchanged instead. The only call, at src/app.py:131, follows the membership test at src/app.py:128, so the case never arises there.
- JSON numbers are integers only. Floating-point values (such as `0.0`, which is falsy) are not modelled.
- Concurrent requests are not modelled: the handlers run as sequential calls, since the source has no locking.
- The rest of src/static/app.js is not modelled: DOM building, `fetch`, form submission, timers and the `spotsLeft` display arithmetic.
- `toUpperCase` is modelled for ASCII only. Other characters are left unchanged, whereas JavaScript maps some of them, and a few to two characters. JavaScript strings index UTF-16 code units; the model indexes characters.
- `Avatar.Initials`: a `null` or `undefined` participant is not modelled, only strings.
