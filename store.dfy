/** The persistent state of the activity service: the `activities` table and the
    `participants` table, folded into one map from activity name to its record.
    A participant row (activity name, email) is an email in the roster of that
    activity's record. */
module Store {

  /** One row of the activities table together with the emails of its
      participant rows, in the order they were inserted. */
  datatype Activity = Activity(
    description: string,
    schedule: string,
    maxParticipants: int,
    participants: seq<string>)

  /** The whole store, keyed by the activity's primary key, its name. */
  type Db = map<string, Activity>

  /** No email occurs twice in a roster. */
  ghost predicate NoDup(s: seq<string>)
  {
    forall i, j :: 0 <= i < j < |s| ==> s[i] != s[j]
  }

  /** The unique key on (activity name, email): no roster holds an email twice. */
  ghost predicate RostersDistinct(db: Db)
  {
    forall n :: n in db ==> NoDup(db[n].participants)
  }

  /** The participant rows of the store, as (activity name, email) pairs. */
  ghost function Pairs(db: Db): (s: set<(string, string)>)
    ensures forall n, e :: (n, e) in s <==> n in db && e in db[n].participants
  {
    set n, e | n in db && e in db[n].participants :: (n, e)
  }

  /** Insert the participant row (name, email); the caller has already checked it. */
  function Enroll(db: Db, name: string, email: string): (r: Db)
    requires name in db
    ensures r.Keys == db.Keys
    ensures email in r[name].participants
    ensures |r[name].participants| == |db[name].participants| + 1
    ensures r[name].description == db[name].description && r[name].schedule == db[name].schedule
    ensures r[name].maxParticipants == db[name].maxParticipants
  {
    db[name := db[name].(participants := db[name].participants + [email])]
  }

  /** A roster with every row for `x` deleted, the others kept in order. */
  function Without(s: seq<string>, x: string): (r: seq<string>)
    ensures forall y :: y in r <==> y in s && y != x
    ensures |r| <= |s|
    ensures x !in s ==> r == s
    ensures x in s && NoDup(s) ==> |r| == |s| - 1
    ensures NoDup(s) ==> NoDup(r)
  {
    if s == [] then []
    else
      NoDupTail(s);
      if s[0] == x then Without(s[1..], x)
      else [s[0]] + Without(s[1..], x)
  }

  /** A duplicate-free roster is its head followed by a duplicate-free tail
      that does not repeat the head. */
  lemma NoDupTail(s: seq<string>)
    requires s != []
    ensures NoDup(s) ==> NoDup(s[1..]) && s[0] !in s[1..]
  {
  }

  /** Delete the participant row (name, email). */
  function Remove(db: Db, name: string, email: string): (r: Db)
    requires name in db
    ensures r.Keys == db.Keys
    ensures email !in r[name].participants
    ensures r[name].description == db[name].description && r[name].schedule == db[name].schedule
    ensures r[name].maxParticipants == db[name].maxParticipants
  {
    db[name := db[name].(participants := Without(db[name].participants, email))]
  }

  /** Deleting a row just inserted gives back the roster it was inserted into. */
  lemma {:induction false} WithoutAppended(s: seq<string>, x: string)
    requires x !in s
    ensures Without(s + [x], x) == s
  {
    if s != [] {
      assert (s + [x])[1..] == s[1..] + [x];
      WithoutAppended(s[1..], x);
    }
  }
}
