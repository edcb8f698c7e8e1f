/** The business rules of the two membership handlers: which outcome a signup or
    a removal has in a given store, what the handler answers, and how the
    outcomes relate to each other. */
module Rules {
  import opened Store

  /** The result of the three ordered signup checks. */
  datatype Outcome = Ok | NotFound | Full | Duplicate

  /** The `detail` of an HTTP error: a literal message, or the text of an
      exception that a handler caught and re-raised (its exact wording is the
      web framework's and is not modelled). */
  datatype Detail = Text(text: string) | Caught(inner: HttpError)

  /** An HTTP error raised by a handler. */
  datatype HttpError = HttpError(status: nat, detail: Detail)

  /** What a handler answers: a 200 reply with a message, or an HTTP error. */
  datatype Response = Success(message: string) | Failure(error: HttpError)

  /** Is (name, email) a participant row of the store? */
  ghost predicate Enrolled(db: Db, name: string, email: string)
  {
    name in db && email in db[name].participants
  }

  /** The checks of a signup, in the handler's order, each one short-circuiting:
      the activity exists, it is not full, the email is not yet on its roster. */
  function SignupCheck(db: Db, name: string, email: string): (o: Outcome)
    ensures o != NotFound ==> name in db
    ensures o == Duplicate ==> email in db[name].participants
    ensures o == Ok ==> email !in db[name].participants
                        && |db[name].participants| < db[name].maxParticipants
  {
    if name !in db then NotFound
    else if |db[name].participants| >= db[name].maxParticipants then Full
    else if email in db[name].participants then Duplicate
    else Ok
  }

  /** The error a failed check raises inside the signup handler's `try`. */
  function Raised(o: Outcome): (e: HttpError)
    requires o != Ok
    ensures e.status == 404 <==> o == NotFound
    ensures e.status == 400 <==> o == Full || o == Duplicate
  {
    match o
    case NotFound => HttpError(404, Text("Activity not found"))
    case Full => HttpError(400, Text("Activity is full"))
    case Duplicate => HttpError(400, Text("Already signed up for this activity"))
  }

  /** The signup handler's answer. Every raised error is caught by the
      handler's catch-all and re-raised with status 500, carrying the caught
      error's text. */
  function SignupReply(name: string, o: Outcome): (r: Response)
    ensures o == Ok <==> r.Success?
    ensures r.Success? ==> r.message == "Successfully signed up for " + name
    ensures r.Failure? ==> r.error.status == 500 && r.error.detail == Caught(Raised(o))
  {
    if o == Ok then Success("Successfully signed up for " + name)
    else Failure(HttpError(500, Caught(Raised(o))))
  }

  /** The removal handler's answer; its not-found error is raised outside any
      `try`, so it keeps status 404. */
  function RemoveReply(name: string, found: bool): (r: Response)
    ensures found <==> r.Success?
    ensures r.Success? ==> r.message == "Successfully removed from " + name
    ensures r.Failure? ==> r.error == HttpError(404, Text("Participant not found in activity"))
  {
    if found then Success("Successfully removed from " + name)
    else Failure(HttpError(404, Text("Participant not found in activity")))
  }

  /** Each signup outcome in terms of the store: not found exactly when the
      activity is unknown; full whenever the roster has reached capacity, even
      if the email is already on it; duplicate only below capacity; success
      exactly when the activity exists, has room and lacks the pair. */
  lemma SignupOutcomes(db: Db, name: string, email: string)
    ensures SignupCheck(db, name, email) == NotFound <==> name !in db
    ensures SignupCheck(db, name, email) == Full <==>
              name in db && |db[name].participants| >= db[name].maxParticipants
    ensures SignupCheck(db, name, email) == Duplicate <==>
              Enrolled(db, name, email) && |db[name].participants| < db[name].maxParticipants
    ensures SignupCheck(db, name, email) == Ok <==>
              name in db && !Enrolled(db, name, email) && |db[name].participants| < db[name].maxParticipants
  {
  }

  /** A successful signup inserts exactly the new pair (activity, email), leaves
      every other activity and every other membership as it was, and the
      roster afterwards fits the capacity because it was below it before. */
  lemma SignupEffect(db: Db, name: string, email: string)
    requires SignupCheck(db, name, email) == Ok
    ensures (name, email) !in Pairs(db)
    ensures Pairs(Enroll(db, name, email)) == Pairs(db) + {(name, email)}
    ensures |Pairs(Enroll(db, name, email))| == |Pairs(db)| + 1
    ensures Enroll(db, name, email).Keys == db.Keys
    ensures forall n :: n in db && n != name ==> Enroll(db, name, email)[n] == db[n]
    ensures |Enroll(db, name, email)[name].participants| <= Enroll(db, name, email)[name].maxParticipants
    ensures RostersDistinct(db) ==> RostersDistinct(Enroll(db, name, email))
  {
  }

  /** Signing up the same pair a second time right after a success fails and so
      changes nothing: as a duplicate if the activity still has room, as full if
      the first signup took the last place. */
  lemma SignupTwice(db: Db, name: string, email: string)
    requires SignupCheck(db, name, email) == Ok
    ensures var again := SignupCheck(Enroll(db, name, email), name, email);
      again == (if |db[name].participants| + 1 < db[name].maxParticipants then Duplicate else Full)
  {
  }

  /** Removing the pair a successful signup inserted restores the store exactly. */
  lemma SignupThenRemove(db: Db, name: string, email: string)
    requires SignupCheck(db, name, email) == Ok
    ensures Enrolled(Enroll(db, name, email), name, email)
    ensures Remove(Enroll(db, name, email), name, email) == db
  {
    WithoutAppended(db[name].participants, email);
  }

  /** Removing an existing pair deletes exactly that pair, shrinks its roster by
      one, keeps the unique key, and frees a place: unless seeding had put the
      roster over capacity, the same email may sign up again, which brings back
      the same set of participant rows. */
  lemma RemoveEffect(db: Db, name: string, email: string)
    requires RostersDistinct(db) && Enrolled(db, name, email)
    ensures Pairs(Remove(db, name, email)) == Pairs(db) - {(name, email)}
    ensures |Remove(db, name, email)[name].participants| == |db[name].participants| - 1
    ensures RostersDistinct(Remove(db, name, email))
    ensures |db[name].participants| <= db[name].maxParticipants ==>
              SignupCheck(Remove(db, name, email), name, email) == Ok &&
              Pairs(Enroll(Remove(db, name, email), name, email)) == Pairs(db)
  {
  }
}
