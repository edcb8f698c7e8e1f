# Mergington High School activities API — a Dafny model of its business rules

The service keeps a catalogue of extracurricular activities and lets students
sign up for them or be removed from them. Its state is two tables: activities
(name, description, schedule, capacity `maxParticipants`) and participants
(activity name, email, unique as a pair). This project models that state and
the handlers that read and change it:

- `InitDb` is the seeding routine `init_db`, which loads a fixed catalogue.
  Nothing in the module calls it; the startup hook only connects. Each activity is upserted by
  name, which overwrites its description, schedule and capacity. Each listed
  participant is then upserted, which does nothing if the pair already exists.
- `ListActivities` lists every activity with its participants.
- `Signup` runs three checks in a fixed order, each stopping at the first
  failure: the activity exists, it is not full, the email is not yet on its
  roster. Only then does it insert the pair.
- `RemoveParticipant` checks that the pair exists and deletes it.

The two tables are folded into one map from activity name to a record holding
the activity's fields and its roster, the emails of its participant rows
(module `Store`). The handlers are methods of a class `App.Directory` that
updates this map in place. Each method is proved against specification
functions: `SignupCheck`, `Enroll`, `Remove` and the replies in module `Rules`,
and `SeedAll` in module `Seeding`. The lemmas beside those functions state what
the source promises about them. The class invariant `Valid()` is the unique key
on (activity name, email). Every handler preserves it.

Signup errors are modelled as the code produces them. The three errors
(404 "Activity not found", 400 "Activity is full", 400 "Already signed up for
this activity") are raised inside the handler's `try`. Its `except Exception`
clause catches them and re-raises them as status 500, with the caught error's
text as the detail. So a signup never answers 404 or 400. The status codes the
handler raises show that 404 and 400 were meant; the model follows what the
code does.
The removal handler has no `try`, so its 404 stays a 404.

Capacity is not an invariant of the store. Seeding adds participants without
checking capacity and may lower a capacity below the current roster size. The
model therefore proves the bound only where the source ensures it: immediately
after a successful signup.

## Model

| member | source | states |
|---|---|---|
| `App.Directory.InitDb` | src/app.py:36-129 | The store becomes the seeding of the old store with the fixed catalogue; running it again would change nothing; the unique key is kept |
| `App.Directory.Seed` | src/app.py:94-129 | The outer loop over the catalogue: afterwards the store equals `SeedAll` of the old store, and seeding again is a no-op |
| `App.Directory.SeedActivity` | src/app.py:95-129 | One pass of that loop: the activity upsert followed by the participant upserts gives `SeedOne` of the old store |
| `App.Directory.SeedParticipants` | src/app.py:114-129 | The inner loop: the activity's roster becomes `Grow` of its old roster with the listed emails; nothing else in the store changes |
| `App.Directory.ListActivities` | src/app.py:135-157 | The listing has exactly one entry per stored activity, under its name, carrying its description, schedule, capacity and exactly its roster |
| `App.Directory.Signup` | src/app.py:159-200 | Answer and new store per pre-state: any failed check leaves the store unchanged; success stores `Enroll`, adds exactly the pair (name, email) to the participant rows and leaves the roster within capacity; the unique key is kept |
| `App.Directory.RemoveParticipant` | src/app.py:202-228 | A missing pair gives 404 and leaves the store unchanged; an existing pair is deleted, exactly that row goes, and the reply names the activity |
| `Rules.Raised` | src/app.py:171-187 | The error each failed check raises: 404 exactly for an unknown activity, 400 exactly for full or duplicate |
| `Rules.SignupReply` | src/app.py:162-200 | Success exactly on `Ok`, with the message naming the activity; every raised error comes back with status 500, carrying the caught error |
| `Rules.RemoveReply` | src/app.py:215-228 | Success exactly when the pair was found, with the message naming the activity; otherwise the 404 "Participant not found in activity" |
| `Rules.SignupOutcomes` | src/app.py:171-187 | Each outcome in terms of the store: not found iff the activity is unknown; full iff the roster has reached capacity, whether or not the email is on it; duplicate iff the pair exists and there is room; success iff the activity exists, has room and lacks the pair |
| `Rules.SignupEffect` | src/app.py:175-197 | After a passing check the pair was absent; the insert adds exactly that pair, so the row count grows by one; other activities are untouched; the roster ends within capacity; the unique key is kept |
| `Rules.SignupTwice` | src/app.py:175-187 | Repeating a successful signup fails: as a duplicate while there is room, as full if the first signup took the last place |
| `Rules.SignupThenRemove` | src/app.py:190-226 | Removing the pair a signup just inserted restores the store exactly |
| `Rules.RemoveEffect` | src/app.py:206-228 | Removing an existing pair deletes exactly that pair, shrinks its roster by one and keeps the unique key; within capacity, the same email can then sign up again and the participant rows are restored |
| `Rules.SignupCheck` | src/app.py:171-187 | Computes the signup outcome by the three ordered checks; any outcome but not-found implies the activity exists, a duplicate implies the pair exists, success implies the pair is absent and there is room. `SignupOutcomes` gives each outcome exactly |
| `Store.Enroll` | src/app.py:190-195 | Computes the store after inserting the pair: same activities, the email now on the roster, the roster one longer, the activity's other fields kept. `SignupEffect` states the effect on the participant rows |
| `Store.Remove` | src/app.py:219-226 | Computes the store after deleting the pair: same activities, the email no longer on the roster, the activity's other fields kept. `RemoveEffect` states the effect on the participant rows |
| `Seeding.Add` | src/app.py:115-129 | One participant upsert: the old roster is kept as a prefix, the email ends up on it, at most one row is added, and nothing is added when the pair exists |
| `Seeding.Grow` | src/app.py:114-129 | The participant upserts of one entry in order: the old roster is kept as a prefix and at most one row per listed email is added. `GrowContents` gives the exact contents |
| `Seeding.SeedOne` | src/app.py:95-129 | Seeding of one catalogue entry: the activity exists afterwards with the entry's description, schedule and capacity, and no other name is added. `SeedOneAt` gives every name's result |
| `Seeding.SeedAll` | src/app.py:94-129 | Seeding of a catalogue, entry after entry: no activity is lost. `SeedAllAt` gives every name's result and `SeedIdempotent` shows a second run changes nothing |
| `Store.Without` | src/app.py:219-226 | The roster after the delete holds every other email and not the deleted one; it is one shorter when the email was present once, and is unchanged when it was absent |
| `Store.WithoutAppended` | src/app.py:219-226 | Deleting a just-appended email that was absent before gives back the earlier roster |
| `Seeding.UpsertActivity` | src/app.py:96-111 | The upsert keeps the name and its roster (empty when created), overwrites description, schedule and capacity, and touches no other activity |
| `Seeding.GrowContents` | src/app.py:114-129 | The participant upserts keep the old roster as a prefix, add exactly the listed emails, and create no duplicate |
| `Seeding.GrowPresent` | src/app.py:115-129 | Upserting participants who are all present already changes nothing, because the update part is empty |
| `Seeding.GrowAppend` | src/app.py:114-129 | Upserting two lists one after the other is upserting their concatenation |
| `Seeding.SeedOneAt` | src/app.py:95-129 | What one catalogue entry leaves for each name |
| `Seeding.SeedAllAt` | src/app.py:94-129 | What seeding leaves for each name. A listed name has the fields of its last catalogue entry, and its old roster (empty if new) extended by the catalogue's emails for it. Any other activity is unchanged |
| `Seeding.SeedIdempotent` | src/app.py:94-129 | Seeding twice with the same catalogue gives the same store as seeding once |
| `Seeding.SeedDistinct` | src/app.py:114-129 | Seeding keeps the unique key on (activity, email) |

## Left out

- FastAPI application setup, the static files mount and the `/` redirect (src/app.py:16-22, 131-133): framework wiring with no rules in it.
- Opening and closing the database client at startup and shutdown (src/app.py:25-33): I/O against an external client.
- The database engine itself. Its `upsert`, `find_unique`, `find_first`, `find_many`, `create` and `delete` calls become reads and updates of the in-memory map. The source spells the same fields two ways (`activityName`/`maxParticipants` and `activity_name`/`max_participants`). The model treats each pair as one field.
- Storage failures: the map never fails. So the model does not cover the 500 that `get_activities` returns on a store error (src/app.py:155-157). It also does not cover a store error caught by the signup catch-all. A failing store is an I/O effect.
- Concurrency: the handlers are asynchronous, and two requests can interleave between a check and its write. The model runs one handler at a time, so that race is not modelled.
- Logging with `print` and the exact text of a caught exception. `str(e)` is formatted by the web framework, so the model keeps the caught error itself (`Caught(inner)`).
- Order: the listing is a map keyed by activity name, so the order of its entries is not modelled. Rosters keep the order in which their rows were inserted, which the model assumes the database returns.
- The seeding loop is split in three methods: `Seed` runs the loop over the catalogue, `SeedActivity` runs one pass of it, and `SeedParticipants` runs the inner loop over the participants. Together they do what `init_db` does in one function.
- When seeding runs: nothing in src/app.py calls `init_db`, and the startup hook (src/app.py:27-29) only connects the client. The model proves what seeding does when it is run, not that or when it is run.
- The listing's entries reuse the stored record type rather than a separate JSON type. They carry the same four fields: description, schedule, capacity and participants.
