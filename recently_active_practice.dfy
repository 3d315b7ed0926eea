/** `getUserNamesActiveInLastNDays` of ts-practice.ts: the same filter as
    src/task1.ts, except that users are kept by `activeUserIds.includes(u.id)`
    on the id list itself. The `activeUserIdSet` it also builds is never
    read, so it has no counterpart here. Its `isInLastNDays` is the same as
    src/task1.ts's and is shared. */
module RecentlyActivePractice {
  import JsArray
  import opened RecentlyActive

  function IncludesId(ids: seq<string>): User -> bool {
    (u: User) => u.id in ids
  }

  /** `getUserNamesActiveInLastNDays(users, activities, days)` with the clock
      reading `now`, filtering users with `includes`. Repeated qualifying
      activities do not repeat a name: no name occurs more often than among
      all users. */
  function GetUserNamesActiveInLastNDays(users: seq<User>, activities: seq<Activity>, days: int, now: int)
    : (names: seq<string>)
    ensures |names| <= |users|
    ensures multiset(names) <= multiset(JsArray.Map(users, UserName))
  {
    var active := JsArray.Filter(users, IncludesId(ActiveUserIds(activities, days, now)));
    JsArray.MapMultisetLe(active, users, UserName);
    JsArray.Map(active, UserName)
  }

  /** `includes` on the id list and `has` on the set built from it keep the
      same users, so both versions give the same names, in the same order,
      with the same repeats. */
  lemma SameAsSetVersion(users: seq<User>, activities: seq<Activity>, days: int, now: int)
    ensures GetUserNamesActiveInLastNDays(users, activities, days, now)
         == RecentlyActive.GetUserNamesActiveInLastNDays(users, activities, days, now)
  {
    var ids := ActiveUserIds(activities, days, now);
    JsArray.FilterCongruent(users, IncludesId(ids), HasIdIn(IdSet(ids)));
  }

  /** The answer depends on the activities only through which user ids
      qualify: two inputs whose qualifying ids are the same set, in any order
      and with any repeats, give the same names. */
  lemma DependsOnlyOnActiveIds(users: seq<User>, activities: seq<Activity>, days: int, now: int,
                               activities': seq<Activity>, days': int, now': int)
    requires forall id :: id in ActiveUserIds(activities, days, now) <==> id in ActiveUserIds(activities', days', now')
    ensures GetUserNamesActiveInLastNDays(users, activities, days, now)
         == GetUserNamesActiveInLastNDays(users, activities', days', now')
  {
    JsArray.FilterCongruent(users, IncludesId(ActiveUserIds(activities, days, now)),
                            IncludesId(ActiveUserIds(activities', days', now')));
  }
}
