/** Seeding of the store (`init_db`): for each catalogue entry, upsert the activity by name, then
    upsert each listed participant. */
module Seeding {
  import opened Store

  /** One entry of the seed catalogue: an activity and its initial roster. */
  datatype SeedEntry = SeedEntry(
    name: string,
    description: string,
    schedule: string,
    maxParticipants: int,
    participants: seq<string>)

  /** The fixed catalogue that `init_db` seeds, in its listed order. */
  const Catalogue: seq<SeedEntry> := [
    SeedEntry("Chess Club", "Learn strategies and compete in chess tournaments",
      "Fridays, 3:30 PM - 5:00 PM", 12,
      ["michael@mergington.edu", "daniel@mergington.edu"]),
    SeedEntry("Programming Class", "Learn programming fundamentals and build software projects",
      "Tuesdays and Thursdays, 3:30 PM - 4:30 PM", 20,
      ["emma@mergington.edu", "sophia@mergington.edu"]),
    SeedEntry("Gym Class", "Physical education and sports activities",
      "Mondays, Wednesdays, Fridays, 2:00 PM - 3:00 PM", 30,
      ["john@mergington.edu", "olivia@mergington.edu"]),
    SeedEntry("Soccer Team", "Join the school soccer team and compete in local leagues",
      "Tuesdays and Thursdays, 4:00 PM - 5:30 PM", 18,
      ["lucas@mergington.edu", "mia@mergington.edu"]),
    SeedEntry("Basketball Club", "Practice basketball skills and play friendly matches",
      "Wednesdays, 3:30 PM - 5:00 PM", 15,
      ["liam@mergington.edu", "ava@mergington.edu"]),
    SeedEntry("Art Club", "Explore painting, drawing, and other visual arts",
      "Mondays, 3:30 PM - 5:00 PM", 16,
      ["noah@mergington.edu", "isabella@mergington.edu"]),
    SeedEntry("Drama Society", "Participate in acting, stage production, and school plays",
      "Fridays, 4:00 PM - 5:30 PM", 20,
      ["charlotte@mergington.edu", "jackson@mergington.edu"]),
    SeedEntry("Math Club", "Solve challenging math problems and prepare for competitions",
      "Thursdays, 3:30 PM - 4:30 PM", 14,
      ["amelia@mergington.edu", "benjamin@mergington.edu"]),
    SeedEntry("Science Olympiad", "Engage in science experiments and academic competitions",
      "Wednesdays, 4:00 PM - 5:00 PM", 12,
      ["elijah@mergington.edu", "harper@mergington.edu"])
  ]

  /** Upsert of one participant row: create it if the pair is absent, otherwise
      leave the row as it is (the update part is empty). */
  function Add(roster: seq<string>, email: string): (r: seq<string>)
    ensures roster <= r && email in r && |r| <= |roster| + 1
    ensures email in roster ==> r == roster
  {
    if email in roster then roster else roster + [email]
  }

  /** Upsert of a list of participants, one after the other. */
  function Grow(roster: seq<string>, emails: seq<string>): (r: seq<string>)
    ensures roster <= r && |r| <= |roster| + |emails|
  {
    if emails == [] then roster
    else Add(Grow(roster, emails[..|emails| - 1]), emails[|emails| - 1])
  }

  /** Upserting participants keeps the roster as a prefix, ends with every
      listed email on it and nothing else new, and keeps the unique key. */
  lemma {:induction false} GrowContents(roster: seq<string>, emails: seq<string>)
    ensures roster <= Grow(roster, emails)
    ensures forall x :: x in Grow(roster, emails) <==> x in roster || x in emails
    ensures NoDup(roster) ==> NoDup(Grow(roster, emails))
  {
    if emails != [] {
      var front, last := emails[..|emails| - 1], emails[|emails| - 1];
      GrowContents(roster, front);
      var prev := Grow(roster, front);
      assert forall x :: x in emails <==> x in front || x == last;
      if NoDup(prev) && last !in prev {
        var s := prev + [last];
        forall i, j | 0 <= i < j < |s| ensures s[i] != s[j] {
          if j == |s| - 1 {
            assert s[i] in prev;
          }
        }
      }
    }
  }

  /** Upsert of an activity by name: create it with an empty roster, or keep its
      roster and overwrite its description, schedule and capacity. */
  function UpsertActivity(db: Db, e: SeedEntry): (r: Db)
    ensures r.Keys == db.Keys + {e.name}
    ensures r[e.name].description == e.description && r[e.name].schedule == e.schedule
    ensures r[e.name].maxParticipants == e.maxParticipants
    ensures r[e.name].participants == (if e.name in db then db[e.name].participants else [])
    ensures forall n :: n in db && n != e.name ==> r[n] == db[n]
  {
    if e.name in db then
      db[e.name := db[e.name].(description := e.description, schedule := e.schedule,
                               maxParticipants := e.maxParticipants)]
    else
      db[e.name := Activity(e.description, e.schedule, e.maxParticipants, [])]
  }

  /** Seeding of one catalogue entry: the activity upsert, then its participants. */
  function SeedOne(db: Db, e: SeedEntry): (r: Db)
    ensures r.Keys == db.Keys + {e.name}
    ensures r[e.name].description == e.description && r[e.name].schedule == e.schedule
    ensures r[e.name].maxParticipants == e.maxParticipants
  {
    var d := UpsertActivity(db, e);
    d[e.name := d[e.name].(participants := Grow(d[e.name].participants, e.participants))]
  }

  /** Seeding of a whole catalogue, entry after entry. */
  function SeedAll(db: Db, cat: seq<SeedEntry>): (r: Db)
    ensures db.Keys <= r.Keys
  {
    if cat == [] then db else SeedOne(SeedAll(db, cat[..|cat| - 1]), cat[|cat| - 1])
  }

  /** The names a catalogue lists. */
  function Names(cat: seq<SeedEntry>): set<string>
  {
    if cat == [] then {} else Names(cat[..|cat| - 1]) + {cat[|cat| - 1].name}
  }

  /** The last entry a catalogue lists for a name: the one whose fields win. */
  function LastEntry(cat: seq<SeedEntry>, n: string): (e: SeedEntry)
    requires n in Names(cat)
    ensures e in cat && e.name == n
  {
    if cat[|cat| - 1].name == n then cat[|cat| - 1] else LastEntry(cat[..|cat| - 1], n)
  }

  /** All the emails a catalogue lists for a name, in catalogue order. */
  function EmailsFor(cat: seq<SeedEntry>, n: string): seq<string>
  {
    if cat == [] then []
    else EmailsFor(cat[..|cat| - 1], n)
         + (if cat[|cat| - 1].name == n then cat[|cat| - 1].participants else [])
  }

  /** The roster a name has before seeding (none yet: empty). */
  function RosterBefore(db: Db, n: string): seq<string>
  {
    if n in db then db[n].participants else []
  }

  /** The activity a catalogue entry describes, with the given roster. */
  function Seeded(e: SeedEntry, roster: seq<string>): Activity
  {
    Activity(e.description, e.schedule, e.maxParticipants, roster)
  }

  /** Upserting a list of participants in two goes is upserting their concatenation. */
  lemma {:induction false} GrowAppend(roster: seq<string>, a: seq<string>, b: seq<string>)
    ensures Grow(Grow(roster, a), b) == Grow(roster, a + b)
  {
    if b != [] {
      var b' := b[..|b| - 1];
      assert (a + b)[..|a + b| - 1] == a + b';
      assert (a + b)[|a + b| - 1] == b[|b| - 1];
      GrowAppend(roster, a, b');
    } else {
      assert a + b == a;
    }
  }

  /** Upserting one more participant after a prefix of the list. */
  lemma GrowStep(roster: seq<string>, emails: seq<string>, j: nat)
    requires j < |emails|
    ensures Grow(roster, emails[..j + 1]) == Add(Grow(roster, emails[..j]), emails[j])
  {
    assert emails[..j + 1][..j] == emails[..j];
  }

  /** Upserting participants that are all on the roster already changes nothing. */
  lemma {:induction false} GrowPresent(roster: seq<string>, emails: seq<string>)
    requires forall x :: x in emails ==> x in roster
    ensures Grow(roster, emails) == roster
  {
    if emails != [] {
      GrowPresent(roster, emails[..|emails| - 1]);
    }
  }

  /** What seeding leaves for each name: a name the catalogue lists carries the
      description, schedule and capacity of its last entry, and its previous
      roster (empty for a new activity) followed by the catalogue's new emails
      for it; every other activity is left as it was. */
  lemma {:induction false} SeedAllAt(db: Db, cat: seq<SeedEntry>, n: string)
    ensures n in SeedAll(db, cat) <==> n in db || n in Names(cat)
    ensures n in Names(cat) ==>
      SeedAll(db, cat)[n] == Seeded(LastEntry(cat, n), Grow(RosterBefore(db, n), EmailsFor(cat, n)))
    ensures n !in Names(cat) && n in db ==> SeedAll(db, cat)[n] == db[n]
  {
    if cat != [] {
      var front, last := cat[..|cat| - 1], cat[|cat| - 1];
      SeedAllAt(db, front, n);
      var prev := SeedAll(db, front);
      assert SeedAll(db, cat) == SeedOne(prev, last);
      assert Names(cat) == Names(front) + {last.name};
      assert EmailsFor(cat, n) == EmailsFor(front, n) + (if last.name == n then last.participants else []);
      SeedOneAt(prev, last, n);
      if last.name == n {
        assert LastEntry(cat, n) == last;
        var seeded := Grow(RosterBefore(prev, n), last.participants);
        if n in Names(front) {
          assert RosterBefore(prev, n) == Grow(RosterBefore(db, n), EmailsFor(front, n));
          GrowAppend(RosterBefore(db, n), EmailsFor(front, n), last.participants);
          assert seeded == Grow(RosterBefore(db, n), EmailsFor(cat, n));
        } else {
          assert RosterBefore(prev, n) == RosterBefore(db, n);
          EmailsAbsent(front, n);
          assert EmailsFor(cat, n) == last.participants;
          assert seeded == Grow(RosterBefore(db, n), EmailsFor(cat, n));
        }
        assert SeedAll(db, cat)[n] == Seeded(last, seeded);
      } else {
        assert EmailsFor(cat, n) == EmailsFor(front, n);
      }
    }
  }

  /** What seeding one entry leaves for each name. */
  lemma SeedOneAt(db: Db, e: SeedEntry, n: string)
    ensures n in SeedOne(db, e) <==> n in db || n == e.name
    ensures n == e.name ==> SeedOne(db, e)[n] == Seeded(e, Grow(RosterBefore(db, n), e.participants))
    ensures n != e.name && n in db ==> SeedOne(db, e)[n] == db[n]
  {
  }

  /** A catalogue lists no emails for a name it does not list. */
  lemma {:induction false} EmailsAbsent(cat: seq<SeedEntry>, n: string)
    requires n !in Names(cat)
    ensures EmailsFor(cat, n) == []
  {
    if cat != [] {
      EmailsAbsent(cat[..|cat| - 1], n);
    }
  }

  /** Seeding is idempotent: seeding a store twice with the same catalogue gives
      the same activities and rosters as seeding it once. */
  lemma SeedIdempotent(db: Db, cat: seq<SeedEntry>)
    ensures SeedAll(SeedAll(db, cat), cat) == SeedAll(db, cat)
  {
    var once := SeedAll(db, cat);
    var twice := SeedAll(once, cat);
    forall n | n in once || n in twice
      ensures n in once && n in twice && twice[n] == once[n]
    {
      SeedAllAt(db, cat, n);
      SeedAllAt(once, cat, n);
      if n in Names(cat) {
        GrowContents(RosterBefore(db, n), EmailsFor(cat, n));
        GrowPresent(once[n].participants, EmailsFor(cat, n));
      }
    }
  }

  /** Seeding keeps the unique key on (activity, email). */
  lemma SeedDistinct(db: Db, cat: seq<SeedEntry>)
    requires RostersDistinct(db)
    ensures RostersDistinct(SeedAll(db, cat))
  {
    forall n | n in SeedAll(db, cat) ensures NoDup(SeedAll(db, cat)[n].participants) {
      SeedAllAt(db, cat, n);
      if n in Names(cat) {
        GrowContents(RosterBefore(db, n), EmailsFor(cat, n));
      }
    }
  }
}
