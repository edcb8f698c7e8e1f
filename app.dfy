/** The request handlers of the activity service, over the one shared store. */
module App {
  import opened Store
  import opened Rules
  import opened Seeding

  /** The service: the store that every handler reads and updates in place. */
  class Directory {
    var activities: Db

    /** The unique key on (activity name, email) holds. */
    ghost predicate Valid()
      reads this
    {
      RostersDistinct(activities)
    }

    /** An empty store, before seeding. */
    constructor ()
      ensures Valid() && activities == map[]
    {
      activities := map[];
    }

    /** The seeding routine `init_db`, with the service's fixed catalogue. */
    method InitDb()
      requires Valid()
      modifies this
      ensures Valid()
      ensures activities == SeedAll(old(activities), Catalogue)
      ensures SeedAll(activities, Catalogue) == activities
    {
      Seed(Catalogue);
    }

    /** Seeding of a catalogue: each activity is upserted by name, then each of
        its listed participants. Running it again changes nothing. */
    method Seed(catalogue: seq<SeedEntry>)
      requires Valid()
      modifies this
      ensures Valid()
      ensures activities == SeedAll(old(activities), catalogue)
      ensures SeedAll(activities, catalogue) == activities
    {
      ghost var start := activities;
      for i := 0 to |catalogue|
        invariant activities == SeedAll(start, catalogue[..i])
        invariant RostersDistinct(activities)
      {
        SeedActivity(catalogue[i]);
        assert catalogue[..i + 1][..i] == catalogue[..i];
        SeedDistinct(start, catalogue[..i + 1]);
      }
      assert catalogue[..|catalogue|] == catalogue;
      SeedIdempotent(start, catalogue);
    }

    /** One pass of the seeding loop: upsert the activity, then each of its
        participants. */
    method SeedActivity(e: SeedEntry)
      modifies this
      ensures activities == SeedOne(old(activities), e)
    {
      if e.name in activities {
        activities := activities[e.name := activities[e.name].(
          description := e.description, schedule := e.schedule,
          maxParticipants := e.maxParticipants)];
      } else {
        activities := activities[e.name := Activity(e.description, e.schedule, e.maxParticipants, [])];
      }
      assert activities == UpsertActivity(old(activities), e);
      SeedParticipants(e.name, e.participants);
    }

    /** The inner seeding loop: upsert each listed participant of one activity. */
    method SeedParticipants(name: string, emails: seq<string>)
      requires name in activities
      modifies this
      ensures activities == old(activities)[name := old(activities)[name].(
        participants := Grow(old(activities)[name].participants, emails))]
    {
      ghost var start := activities;
      for j := 0 to |emails|
        invariant name in activities
        invariant activities == start[name := start[name].(
          participants := Grow(start[name].participants, emails[..j]))]
      {
        var email := emails[j];
        GrowStep(start[name].participants, emails, j);
        if email !in activities[name].participants {
          activities := activities[name := activities[name].(
            participants := activities[name].participants + [email])];
        }
      }
      assert emails[..|emails|] == emails;
    }

    /** The listing: one entry per stored activity, keyed by its name, with its
        description, schedule, capacity and exactly its participant emails. */
    method ListActivities() returns (result: map<string, Activity>)
      ensures result.Keys == activities.Keys
      ensures forall n :: n in result ==> result[n] == activities[n]
    {
      result := map[];
      var pending := activities.Keys;
      while pending != {}
        invariant pending <= activities.Keys
        invariant result.Keys == activities.Keys - pending
        invariant forall n :: n in result ==> result[n] == activities[n]
        decreases pending
      {
        var name :| name in pending;
        var activity := activities[name];
        result := result[name := Activity(activity.description, activity.schedule,
                                          activity.maxParticipants, activity.participants)];
        pending := pending - {name};
      }
    }

    /** Signup of `email` for `name`: the three checks in order, then the insert.
        A failed check changes nothing; success inserts exactly that pair. */
    method Signup(name: string, email: string) returns (r: Response)
      requires Valid()
      modifies this
      ensures Valid()
      ensures r == SignupReply(name, SignupCheck(old(activities), name, email))
      ensures SignupCheck(old(activities), name, email) != Ok ==> activities == old(activities)
      ensures SignupCheck(old(activities), name, email) == Ok ==>
                activities == Enroll(old(activities), name, email) &&
                Pairs(activities) == Pairs(old(activities)) + {(name, email)} &&
                |activities[name].participants| <= activities[name].maxParticipants
    {
      var raised: HttpError;
      var failed := true;
      if name !in activities {
        raised := HttpError(404, Text("Activity not found"));
      } else if |activities[name].participants| >= activities[name].maxParticipants {
        raised := HttpError(400, Text("Activity is full"));
      } else if email in activities[name].participants {
        raised := HttpError(400, Text("Already signed up for this activity"));
      } else {
        SignupEffect(activities, name, email);
        activities := activities[name := activities[name].(
          participants := activities[name].participants + [email])];
        failed := false;
      }
      if failed {
        // the handler's catch-all turns every raised error into a 500
        r := Failure(HttpError(500, Caught(raised)));
      } else {
        r := Success("Successfully signed up for " + name);
      }
    }

    /** Removal of the pair (name, email): not found if there is no such row,
        otherwise exactly that row is deleted. */
    method RemoveParticipant(name: string, email: string) returns (r: Response)
      requires Valid()
      modifies this
      ensures Valid()
      ensures r == RemoveReply(name, Enrolled(old(activities), name, email))
      ensures !Enrolled(old(activities), name, email) ==> activities == old(activities)
      ensures Enrolled(old(activities), name, email) ==>
                activities == Remove(old(activities), name, email) &&
                Pairs(activities) == Pairs(old(activities)) - {(name, email)}
    {
      if name !in activities || email !in activities[name].participants {
        r := Failure(HttpError(404, Text("Participant not found in activity")));
        return;
      }
      RemoveEffect(activities, name, email);
      activities := activities[name := activities[name].(
        participants := Without(activities[name].participants, email))];
      r := Success("Successfully removed from " + name);
    }
  }
}
