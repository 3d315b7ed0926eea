/** `getUserNamesActiveInLastNDays` of src/task1.ts: the names of the users
    with an activity in the last `days` days. Date parsing and the clock are
    abstracted: a timestamp is a number of milliseconds, or `None` for an
    Invalid Date, and the instant the cutoff is measured from is `now`. */
module RecentlyActive {
  import opened Wrappers
  import JsArray

  datatype User = User(id: string, name: string)

  /** A parsed `lastActiveAt`: milliseconds since the epoch, or `None` when
      the text does not parse (an Invalid Date, whose time value is NaN). */
  type Timestamp = Option<int>

  datatype Activity = Activity(userId: string, lastActiveAt: Timestamp)

  /** A day is taken as a fixed number of milliseconds. */
  const MsPerDay: int := 86400000

  /** The largest magnitude of a valid time value. */
  const MaxTimeValue: int := 8_640_000_000_000_000

  /** TimeClip: a time value outside the representable range makes the date
      an Invalid Date. */
  function TimeClip(t: int): (r: Timestamp)
    ensures r.Some? <==> -MaxTimeValue <= t <= MaxTimeValue
    ensures r.Some? ==> r.value == t
  {
    if -MaxTimeValue <= t <= MaxTimeValue then Some(t) else None
  }

  /** `cutoff.setDate(cutoff.getDate() - days)` on the clock reading `now`:
      `now` moved back by `days` days, an Invalid Date once that leaves the
      representable range. */
  function Cutoff(now: int, days: int): (c: Timestamp) {
    TimeClip(now - days * MsPerDay)
  }

  /** `isInLastNDays(date, days)`: `date >= cutoff`. Every comparison with
      NaN is false, so neither an Invalid Date nor an invalid cutoff
      qualifies; otherwise the date is at most `days` days before `now`. */
  function IsInLastNDays(date: Timestamp, days: int, now: int): (b: bool)
    ensures b <==> && date.Some?
                   && -MaxTimeValue <= now - days * MsPerDay <= MaxTimeValue
                   && now - date.value <= days * MsPerDay
  {
    var cutoff := Cutoff(now, days);
    date.Some? && cutoff.Some? && date.value >= cutoff.value
  }

  /** An invalid date never qualifies, and neither does any date once the
      cutoff leaves the representable range; within that range a date
      qualifying for a window also qualifies for every longer one. */
  lemma IsInLastNDaysMonotone(date: Timestamp, days: int, days': int, now: int)
    requires days <= days'
    ensures date.None? ==> !IsInLastNDays(date, days, now)
    ensures Cutoff(now, days).None? ==> !IsInLastNDays(date, days, now)
    ensures Cutoff(now, days').Some? && IsInLastNDays(date, days, now) ==> IsInLastNDays(date, days', now)
  {
  }

  function Qualifies(days: int, now: int): Activity -> bool {
    (a: Activity) => IsInLastNDays(a.lastActiveAt, days, now)
  }

  function ActivityUserId(a: Activity): string {
    a.userId
  }

  /** Some activity of user `id` qualifies. */
  predicate WasActive(activities: seq<Activity>, id: string, days: int, now: int) {
    exists a | a in activities :: a.userId == id && IsInLastNDays(a.lastActiveAt, days, now)
  }

  /** `activeUserIds`: the user ids of the qualifying activities, in
      activity order, repeats included. */
  function ActiveUserIds(activities: seq<Activity>, days: int, now: int): (ids: seq<string>)
    ensures |ids| <= |activities|
    ensures forall id :: id in ids <==> WasActive(activities, id, days, now)
  {
    var qualifying := JsArray.Filter(activities, Qualifies(days, now));
    var ids := JsArray.Map(qualifying, ActivityUserId);
    assert forall id :: id in ids <==>
      exists a | a in activities :: a.userId == id && IsInLastNDays(a.lastActiveAt, days, now) by {
      forall id | id in ids
        ensures exists a | a in activities :: a.userId == id && IsInLastNDays(a.lastActiveAt, days, now)
      {
        var i :| 0 <= i < |ids| && ids[i] == id;
        assert qualifying[i] in qualifying;
      }
      forall a | a in activities && IsInLastNDays(a.lastActiveAt, days, now) ensures a.userId in ids {
        var i :| 0 <= i < |activities| && activities[i] == a;
        var k :| 0 <= k < |qualifying| && qualifying[k] == a;
        assert ids[k] == a.userId;
      }
    }
    ids
  }

  /** `new Set(activeUserIds)`. */
  function IdSet(ids: seq<string>): (s: set<string>)
    ensures forall id :: id in s <==> id in ids
  {
    set id | id in ids
  }

  function HasIdIn(idSet: set<string>): User -> bool {
    (u: User) => u.id in idSet
  }

  function UserName(u: User): string {
    u.name
  }

  /** `users.filter(u => idSet.has(u.id))`: the users, in their own order and
      with their repeats, whose id is that of a qualifying activity. */
  function ActiveUsers(users: seq<User>, activities: seq<Activity>, days: int, now: int): (r: seq<User>)
    ensures |r| <= |users| && multiset(r) <= multiset(users)
    ensures forall u :: u in r <==> u in users && u.id in ActiveUserIds(activities, days, now)
  {
    var r := JsArray.Filter(users, HasIdIn(IdSet(ActiveUserIds(activities, days, now))));
    assert forall u :: u in r <==> (u in users && u.id in ActiveUserIds(activities, days, now)) by {
      forall u | u in r ensures u in users && u.id in ActiveUserIds(activities, days, now) {
        var i :| 0 <= i < |r| && r[i] == u;
      }
      forall u | u in users && u.id in ActiveUserIds(activities, days, now) ensures u in r {
        var i :| 0 <= i < |users| && users[i] == u;
      }
    }
    r
  }

  /** `getUserNamesActiveInLastNDays(users, activities, days)` with the clock
      reading `now`. Each user record contributes its name at most once,
      however many qualifying activities it has, so no name occurs more
      often than among all users. */
  function GetUserNamesActiveInLastNDays(users: seq<User>, activities: seq<Activity>, days: int, now: int)
    : (names: seq<string>)
    ensures |names| <= |users|
    ensures multiset(names) <= multiset(JsArray.Map(users, UserName))
    ensures forall n :: n in names <==> exists u | u in users ::
      u.name == n && u.id in ActiveUserIds(activities, days, now)
  {
    var active := ActiveUsers(users, activities, days, now);
    JsArray.MapMultisetLe(active, users, UserName);
    var names := JsArray.Map(active, UserName);
    assert forall n :: n in names <==> exists u | u in active :: u.name == n by {
      forall n | n in names ensures exists u | u in active :: u.name == n {
        var i :| 0 <= i < |names| && names[i] == n;
        assert active[i] in active;
      }
      forall u | u in active ensures u.name in names {
        var i :| 0 <= i < |active| && active[i] == u;
        assert names[i] == u.name;
      }
    }
    names
  }

  /** Order is that of `users`: the answer for two lists of users back to
      back is the two answers back to back. */
  lemma NamesFollowUserOrder(users: seq<User>, users': seq<User>, activities: seq<Activity>, days: int, now: int)
    ensures GetUserNamesActiveInLastNDays(users + users', activities, days, now)
         == GetUserNamesActiveInLastNDays(users, activities, days, now)
          + GetUserNamesActiveInLastNDays(users', activities, days, now)
  {
    var p := HasIdIn(IdSet(ActiveUserIds(activities, days, now)));
    JsArray.FilterConcat(users, users', p);
    JsArray.MapConcat(JsArray.Filter(users, p), JsArray.Filter(users', p), UserName);
  }

  /** A longer window keeps every user of a shorter one, as long as its
      cutoff is a valid date: the active users for `days` are those for
      `days'` >= `days` filtered once more, so the names for `days` are a
      subsequence of the names for `days'`. */
  lemma LongerWindowKeepsUsers(users: seq<User>, activities: seq<Activity>, days: int, days': int, now: int)
    requires days <= days' && Cutoff(now, days').Some?
    ensures ActiveUsers(users, activities, days, now)
         == JsArray.Filter(ActiveUsers(users, activities, days', now),
                           HasIdIn(IdSet(ActiveUserIds(activities, days, now))))
  {
    var p := HasIdIn(IdSet(ActiveUserIds(activities, days, now)));
    var q := HasIdIn(IdSet(ActiveUserIds(activities, days', now)));
    forall i | 0 <= i < |users| && p(users[i]) ensures q(users[i]) {
      var a :| a in activities && a.userId == users[i].id && IsInLastNDays(a.lastActiveAt, days, now);
      IsInLastNDaysMonotone(a.lastActiveAt, days, days', now);
    }
    JsArray.FilterRefines(users, p, q);
  }

  /** An activity whose `userId` belongs to no user changes nothing. */
  lemma UnmatchedActivityIgnored(users: seq<User>, activities: seq<Activity>, a: Activity, days: int, now: int)
    requires forall i | 0 <= i < |users| :: users[i].id != a.userId
    ensures GetUserNamesActiveInLastNDays(users, activities + [a], days, now)
         == GetUserNamesActiveInLastNDays(users, activities, days, now)
  {
    var p := HasIdIn(IdSet(ActiveUserIds(activities + [a], days, now)));
    var q := HasIdIn(IdSet(ActiveUserIds(activities, days, now)));
    forall i | 0 <= i < |users| ensures p(users[i]) == q(users[i]) {
      var u := users[i];
      if p(u) {
        var b :| b in activities + [a] && b.userId == u.id && IsInLastNDays(b.lastActiveAt, days, now);
        assert b in activities;
      }
    }
    JsArray.FilterCongruent(users, p, q);
  }

  /** With `days = 0` the cutoff is `now` itself, so activities stamped
      strictly before `now` (or unparseable) give nobody. */
  lemma ZeroDaysPastIsEmpty(users: seq<User>, activities: seq<Activity>, now: int)
    requires forall i | 0 <= i < |activities| ::
      activities[i].lastActiveAt.None? || activities[i].lastActiveAt.value < now
    ensures GetUserNamesActiveInLastNDays(users, activities, 0, now) == []
  {
    JsArray.FilterNone(activities, Qualifies(0, now));
    assert ActiveUserIds(activities, 0, now) == [];
    JsArray.FilterNone(users, HasIdIn(IdSet([])));
  }

  /** A window reaching past the representable range of dates has an
      Invalid Date as its cutoff, so nobody is returned. */
  lemma ClippedCutoffIsEmpty(users: seq<User>, activities: seq<Activity>, days: int, now: int)
    requires Cutoff(now, days).None?
    ensures GetUserNamesActiveInLastNDays(users, activities, days, now) == []
  {
    JsArray.FilterNone(activities, Qualifies(days, now));
    assert ActiveUserIds(activities, days, now) == [];
    JsArray.FilterNone(users, HasIdIn(IdSet([])));
  }

  /** The sample: Alice was active a moment before the call, Bob long ago. */
  lemma SampleRecent(users: seq<User>, activities: seq<Activity>, now: int, aliceAt: int, bobAt: int)
    requires users == [User("1", "Alice"), User("2", "Bob")]
    requires activities == [Activity("1", Some(aliceAt)), Activity("2", Some(bobAt))]
    requires Cutoff(now, 7).Some? && Cutoff(now, 7).value <= aliceAt < now && bobAt < Cutoff(now, 7).value
    ensures GetUserNamesActiveInLastNDays(users, activities, 7, now) == ["Alice"]
    ensures GetUserNamesActiveInLastNDays(users, activities, 0, now) == []
  {
    SampleActiveIds(activities, 7, now, aliceAt, bobAt);
    SampleActiveUsers(users, activities, 7, now);
    ZeroDaysPastIsEmpty(users, activities, now);
  }

  /** The `days = 0` sample depends on timing: when Alice's activity is
      stamped in the very millisecond the clock is read, she is returned. */
  lemma SameMillisecondKeepsAlice(users: seq<User>, activities: seq<Activity>, now: int, bobAt: int)
    requires users == [User("1", "Alice"), User("2", "Bob")]
    requires activities == [Activity("1", Some(now)), Activity("2", Some(bobAt))]
    requires -MaxTimeValue <= now <= MaxTimeValue && bobAt < now
    ensures GetUserNamesActiveInLastNDays(users, activities, 0, now) == ["Alice"]
  {
    SampleActiveIds(activities, 0, now, now, bobAt);
    SampleActiveUsers(users, activities, 0, now);
  }

  /** With Alice active at the moment of the call, a window of 7 days
      returns her, but one of 300000000 days reaches past the
      representable range and returns nobody. */
  lemma HugeWindowDropsAlice(users: seq<User>, activities: seq<Activity>, now: int, bobAt: int)
    requires users == [User("1", "Alice"), User("2", "Bob")]
    requires activities == [Activity("1", Some(now)), Activity("2", Some(bobAt))]
    requires -MaxTimeValue + 7 * MsPerDay <= now <= MaxTimeValue && bobAt < now - 7 * MsPerDay
    ensures GetUserNamesActiveInLastNDays(users, activities, 7, now) == ["Alice"]
    ensures GetUserNamesActiveInLastNDays(users, activities, 300_000_000, now) == []
  {
    SampleActiveIds(activities, 7, now, now, bobAt);
    SampleActiveUsers(users, activities, 7, now);
    assert now - 300_000_000 * MsPerDay < -MaxTimeValue;
    ClippedCutoffIsEmpty(users, activities, 300_000_000, now);
  }

  lemma SampleActiveUsers(users: seq<User>, activities: seq<Activity>, days: int, now: int)
    requires users == [User("1", "Alice"), User("2", "Bob")]
    requires "1" in ActiveUserIds(activities, days, now) && "2" !in ActiveUserIds(activities, days, now)
    ensures ActiveUsers(users, activities, days, now) == [users[0]]
  {
    var p := HasIdIn(IdSet(ActiveUserIds(activities, days, now)));
    assert p(users[0]) && !p(users[1]);
    assert users == [users[0]] + [users[1]];
    JsArray.FilterConcat([users[0]], [users[1]], p);
  }

  lemma SampleActiveIds(activities: seq<Activity>, days: int, now: int, aliceAt: int, bobAt: int)
    requires activities == [Activity("1", Some(aliceAt)), Activity("2", Some(bobAt))]
    requires Cutoff(now, days).Some? && Cutoff(now, days).value <= aliceAt && bobAt < Cutoff(now, days).value
    ensures "1" in ActiveUserIds(activities, days, now)
    ensures "2" !in ActiveUserIds(activities, days, now)
  {
    assert activities[0] in activities;
    assert forall a | a in activities :: a == activities[0] || a == activities[1];
  }
}
