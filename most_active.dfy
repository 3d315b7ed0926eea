/** `getMostActiveUserName`: the name of the user with the most activities. */
module MostActive {
  import opened Wrappers
  import JsArray
  import opened Counting

  datatype User = User(id: string, name: string)

  /** An activity; `kind` is the `type` tag, which nothing here reads. */
  datatype Activity = Activity(userId: string, kind: string)

  /** The `userId` of every activity, in order. */
  function UserIds(activities: seq<Activity>): (ids: seq<string>)
    ensures |ids| == |activities|
    ensures forall i | 0 <= i < |activities| :: ids[i] == activities[i].userId
  {
    seq(|activities|, i requires 0 <= i < |activities| => activities[i].userId)
  }

  predicate Distinct(keys: seq<string>) {
    forall i, j | 0 <= i < j < |keys| :: keys[i] != keys[j]
  }

  /** `keys` is an order in which `for...in` may visit the record `count`:
      each key exactly once. */
  predicate IsKeyOrder(keys: seq<string>, count: map<string, nat>) {
    && Distinct(keys)
    && (forall k | k in keys :: k in count)
    && (forall k | k in count :: k in keys)
  }

  /** The largest count among `keys` (0 when there are none). */
  function MaxCount(count: map<string, nat>, keys: seq<string>): (m: nat)
    requires forall k | k in keys :: k in count
    ensures forall i | 0 <= i < |keys| :: count[keys[i]] <= m
    ensures |keys| > 0 ==> exists i | 0 <= i < |keys| :: count[keys[i]] == m
    ensures |keys| == 0 ==> m == 0
    decreases |keys|
  {
    if |keys| == 0 then 0
    else
      var n := |keys| - 1;
      var m := MaxCount(count, keys[..n]);
      assert forall i | 0 <= i < n :: keys[..n][i] == keys[i];
      if count[keys[n]] > m then count[keys[n]] else m
  }

  /** The first of `keys` whose count is `m`, if any. */
  function FirstWithCount(count: map<string, nat>, keys: seq<string>, m: nat): (r: Option<string>)
    requires forall k | k in keys :: k in count
    ensures r.None? <==> forall i | 0 <= i < |keys| :: count[keys[i]] != m
    ensures r.Some? ==> exists i | 0 <= i < |keys| ::
      keys[i] == r.value && count[keys[i]] == m && forall j | 0 <= j < i :: count[keys[j]] != m
    decreases |keys|
  {
    if |keys| == 0 then None
    else
      var n := |keys| - 1;
      var f := FirstWithCount(count, keys[..n], m);
      assert forall i | 0 <= i < n :: keys[..n][i] == keys[i];
      if f.Some? then f
      else if count[keys[n]] == m then Some(keys[n])
      else None
  }

  /** The user id the function settles on: among the ids with the most
      activities, the first in the key order. */
  function MostActiveUserId(activities: seq<Activity>, keys: seq<string>): (w: Option<string>)
    requires IsKeyOrder(keys, Tally(UserIds(activities)))
    ensures w.None? <==> |activities| == 0
    ensures w.Some? ==> w.value in Tally(UserIds(activities))
    ensures w.Some? ==> forall k | k in Tally(UserIds(activities)) ::
      Tally(UserIds(activities))[k] <= Tally(UserIds(activities))[w.value]
    ensures w.Some? ==> exists i | 0 <= i < |keys| ::
      keys[i] == w.value &&
      forall j | 0 <= j < i :: Tally(UserIds(activities))[keys[j]] < Tally(UserIds(activities))[w.value]
  {
    var count := Tally(UserIds(activities));
    if |activities| == 0 then None
    else
      assert UserIds(activities)[0] in count;
      FirstWithCount(count, keys, MaxCount(count, keys))
  }

  /** `users.find(u => u.id === maxUserId)`; a `null` id matches nobody. */
  function FindUser(users: seq<User>, maxUserId: Option<string>): (r: Option<User>)
    ensures r.None? <==> forall i | 0 <= i < |users| :: maxUserId != Some(users[i].id)
    ensures r.Some? ==> exists i | 0 <= i < |users| ::
      users[i] == r.value && maxUserId == Some(users[i].id) && forall j | 0 <= j < i :: maxUserId != Some(users[j].id)
  {
    JsArray.Find(users, (u: User) => maxUserId == Some(u.id))
  }

  /** What the function returns: the name of the first user whose id is the
      most active id, or `None` (`null`) when there are no activities or no
      user has that id. */
  function MostActiveUserName(users: seq<User>, activities: seq<Activity>, keys: seq<string>): (r: Option<string>)
    requires IsKeyOrder(keys, Tally(UserIds(activities)))
    ensures |activities| == 0 ==> r == None
    ensures r.Some? ==> exists i | 0 <= i < |users| ::
      && r.value == users[i].name
      && MostActiveUserId(activities, keys) == Some(users[i].id)
      && forall j | 0 <= j < i :: users[j].id != users[i].id
    ensures r.None? && |activities| > 0 ==>
      forall i | 0 <= i < |users| :: users[i].id != MostActiveUserId(activities, keys).value
  {
    match FindUser(users, MostActiveUserId(activities, keys))
    case Some(u) => Some(u.name)
    case None => None
  }

  /** The counting loop: a record from each user id to its number of
      activities, whose counts add up to the number of activities. */
  method CountByUserId(activities: seq<Activity>) returns (count: map<string, nat>)
    ensures count == Tally(UserIds(activities))
    ensures MapSum(count) == |activities|
  {
    count := map[];
    for i := 0 to |activities|
      invariant count == Tally(UserIds(activities[..i]))
    {
      UserIdsSnoc(activities, i);
      TallySnoc(UserIds(activities[..i]), activities[i].userId);
      count := Bump(count, activities[i].userId);
    }
    assert activities[..|activities|] == activities;
    TallySum(UserIds(activities));
  }

  lemma UserIdsSnoc(activities: seq<Activity>, i: nat)
    requires i < |activities|
    ensures UserIds(activities[..i + 1]) == UserIds(activities[..i]) + [activities[i].userId]
  {
  }

  /** The arg-max scan with strict `>` from `maxCount = 0`: it ends with the
      largest count and, when that is positive, the first key reaching it. */
  method ScanForMax(count: map<string, nat>, keys: seq<string>) returns (maxUserId: Option<string>, maxCount: nat)
    requires forall k | k in keys :: k in count
    ensures maxCount == MaxCount(count, keys)
    ensures maxUserId == if maxCount == 0 then None else FirstWithCount(count, keys, maxCount)
  {
    maxUserId := None;
    maxCount := 0;
    for i := 0 to |keys|
      invariant maxCount == MaxCount(count, keys[..i])
      invariant maxUserId == if maxCount == 0 then None else FirstWithCount(count, keys[..i], maxCount)
    {
      var userId := keys[i];
      assert keys[..i + 1][..i] == keys[..i];
      if count[userId] > maxCount {
        assert FirstWithCount(count, keys[..i], count[userId]).None?;
        maxUserId := Some(userId);
        maxCount := count[userId];
      }
    }
    assert keys[..|keys|] == keys;
  }

  /** `getMostActiveUserName(users, activities)`, with the order in which
      `for...in` visits the count record given as `keys`. */
  method GetMostActiveUserName(users: seq<User>, activities: seq<Activity>, keys: seq<string>)
    returns (name: Option<string>)
    requires IsKeyOrder(keys, Tally(UserIds(activities)))
    ensures name == MostActiveUserName(users, activities, keys)
  {
    if |activities| == 0 {
      return None;
    }
    var count := CountByUserId(activities);
    var maxUserId, maxCount := ScanForMax(count, keys);
    assert UserIds(activities)[0] in count;
    var user := FindUser(users, maxUserId);
    name := if user.Some? then Some(user.value.name) else None;
  }

  /** The sample: Alice has two activities and Bob one, so Alice is named
      whatever order `for...in` takes the ids in. */
  lemma SampleMostActive(users: seq<User>, activities: seq<Activity>, keys: seq<string>)
    requires users == [User("1", "Alice"), User("2", "Bob")]
    requires activities == [Activity("1", "login"), Activity("1", "view"), Activity("2", "login")]
    requires IsKeyOrder(keys, Tally(UserIds(activities)))
    ensures MostActiveUserName(users, activities, keys) == Some("Alice")
  {
    assert UserIds(activities) == ["1", "1", "2"];
    ThreeActivitiesWinner(activities, keys, "1", "2");
    assert FindUser(users, Some("1")) == Some(users[0]);
  }

  /** Two activities of `a` and one of `b` make `a` the winner, whatever the
      key order. */
  lemma ThreeActivitiesWinner(activities: seq<Activity>, keys: seq<string>, a: string, b: string)
    requires UserIds(activities) == [a, a, b] && a != b
    requires IsKeyOrder(keys, Tally(UserIds(activities)))
    ensures MostActiveUserId(activities, keys) == Some(a)
  {
    var count := Tally(UserIds(activities));
    assert multiset(UserIds(activities))[a] == 2;
    assert count[a] == 2 && count[b] == 1;
    assert a in keys;
  }

  /** A tie goes to the key visited first: one activity of `b` and then one
      of `a` make `a` the winner when `a` is visited first, and `b` when the
      keys are visited in insertion order. */
  lemma TieGoesToFirstKey(activities: seq<Activity>, a: string, b: string)
    requires UserIds(activities) == [b, a] && a != b
    ensures IsKeyOrder([a, b], Tally(UserIds(activities)))
    ensures IsKeyOrder([b, a], Tally(UserIds(activities)))
    ensures MostActiveUserId(activities, [a, b]) == Some(a)
    ensures MostActiveUserId(activities, [b, a]) == Some(b)
  {
    var count := Tally(UserIds(activities));
    assert multiset(UserIds(activities))[a] == 1 && multiset(UserIds(activities))[b] == 1;
    assert count[a] == 1 && count[b] == 1;
    assert forall k | k in count :: k == a || k == b;
  }

  /** Two distinct ids are visited in the order they were seen. */
  lemma TwoIdsInsertionOrder(ids: seq<string>, a: string, b: string)
    requires ids == [b, a] && a != b
    ensures InsertionOrder(ids) == [b, a]
  {
    var first := ids[..1];
    assert first == [b] && first[..0] == [];
    assert InsertionOrder(first[..0]) == [];
    assert InsertionOrder(first) == [b];
    assert ids[..|ids| - 1] == first && ids[|ids| - 1] == a;
  }

  /** Integer-like keys come first in `for...in`, in ascending order: for
      activities of "2" and then "1", JavaScript visits "1" first, so "1"
      wins, although "2" was seen first and wins under insertion order. */
  lemma IntegerKeysDecideTies(activities: seq<Activity>)
    requires activities == [Activity("2", "login"), Activity("1", "login")]
    ensures IsKeyOrder(["1", "2"], Tally(UserIds(activities)))
    ensures IsKeyOrder(["2", "1"], Tally(UserIds(activities)))
    ensures InsertionOrder(UserIds(activities)) == ["2", "1"]
    ensures MostActiveUserId(activities, ["1", "2"]) == Some("1")
    ensures MostActiveUserId(activities, ["2", "1"]) == Some("2")
  {
    assert UserIds(activities) == ["2", "1"];
    TieGoesToFirstKey(activities, "1", "2");
    TwoIdsInsertionOrder(UserIds(activities), "1", "2");
  }

  /** The `type` tag never matters: activities with the same user ids in the
      same order give the same answer. */
  lemma KindIgnored(users: seq<User>, activities: seq<Activity>, activities': seq<Activity>, keys: seq<string>)
    requires UserIds(activities) == UserIds(activities')
    requires IsKeyOrder(keys, Tally(UserIds(activities)))
    ensures IsKeyOrder(keys, Tally(UserIds(activities')))
    ensures MostActiveUserName(users, activities, keys) == MostActiveUserName(users, activities', keys)
  {
  }

  /** The ids in order of first appearance: the order `for...in` uses for
      keys that are not integer-like. */
  function InsertionOrder(ids: seq<string>): (keys: seq<string>)
    ensures Distinct(keys)
    ensures forall k :: k in keys <==> k in ids
    decreases |ids|
  {
    if |ids| == 0 then []
    else
      var n := |ids| - 1;
      var keys := InsertionOrder(ids[..n]);
      assert ids == ids[..n] + [ids[n]];
      if ids[n] in keys then keys else keys + [ids[n]]
  }

  /** Looking for the first key with count `m` among the ids in order of
      first appearance finds the same key as looking through all the ids. */
  lemma {:induction false} FirstWithCountInsertionOrder(count: map<string, nat>, ids: seq<string>, m: nat)
    requires forall k | k in ids :: k in count
    ensures FirstWithCount(count, InsertionOrder(ids), m) == FirstWithCount(count, ids, m)
    decreases |ids|
  {
    if |ids| > 0 {
      var n := |ids| - 1;
      var p, x := ids[..n], ids[n];
      var keys := InsertionOrder(p);
      assert forall k | k in p :: k in ids;
      FirstWithCountInsertionOrder(count, p, m);
      if x !in keys {
        assert (keys + [x])[..|keys|] == keys;
      } else {
        assert x in p;
      }
    }
  }

  /** Two key sequences with the same elements have the same largest count. */
  lemma MaxCountSameKeys(count: map<string, nat>, keys: seq<string>, keys': seq<string>)
    requires forall k | k in keys :: k in count
    requires forall k :: k in keys <==> k in keys'
    ensures MaxCount(count, keys) == MaxCount(count, keys')
  {
    var m, m' := MaxCount(count, keys), MaxCount(count, keys');
    if |keys| > 0 {
      assert keys[0] in keys';
      var i :| 0 <= i < |keys| && count[keys[i]] == m;
      var i' :| 0 <= i' < |keys'| && count[keys'[i']] == m';
      assert keys[i] in keys';
      assert keys'[i'] in keys;
    }
  }

  /** Scanning `ids` themselves for the largest count stops at the earliest
      id reaching it, every id before it having a strictly smaller count. */
  lemma FirstOfMax(count: map<string, nat>, ids: seq<string>)
    requires |ids| > 0 && forall k | k in ids :: k in count
    ensures var w := FirstWithCount(count, ids, MaxCount(count, ids));
      && w.Some?
      && exists i | 0 <= i < |ids| ::
        && ids[i] == w.value
        && count[w.value] == MaxCount(count, ids)
        && forall j | 0 <= j < i :: count[ids[j]] < count[w.value]
  {
  }

  /** Under insertion order the winner is the first id, among all activity
      ids in order, that reaches the largest count. */
  lemma InsertionOrderWinner(activities: seq<Activity>)
    requires |activities| > 0
    ensures IsKeyOrder(InsertionOrder(UserIds(activities)), Tally(UserIds(activities)))
    ensures var ids := UserIds(activities);
      MostActiveUserId(activities, InsertionOrder(ids)) == FirstWithCount(Tally(ids), ids, MaxCount(Tally(ids), ids))
  {
    var ids := UserIds(activities);
    var count := Tally(ids);
    var keys := InsertionOrder(ids);
    MaxCountSameKeys(count, keys, ids);
    FirstWithCountInsertionOrder(count, ids, MaxCount(count, ids));
  }

  /** A position in the activity ids is a position in the activities. */
  lemma EarliestActivity(activities: seq<Activity>, count: map<string, nat>, w: string)
    requires forall k | k in UserIds(activities) :: k in count
    requires exists i | 0 <= i < |activities| ::
      && UserIds(activities)[i] == w
      && forall j | 0 <= j < i :: count[UserIds(activities)[j]] < count[w]
    ensures w in count
    ensures exists i | 0 <= i < |activities| ::
      && activities[i].userId == w
      && forall j | 0 <= j < i :: count[activities[j].userId] < count[w]
  {
    var ids := UserIds(activities);
    var i :| 0 <= i < |activities| && ids[i] == w && forall j | 0 <= j < i :: count[ids[j]] < count[w];
    assert ids[i] in ids;
    assert activities[i].userId == w;
  }

  /** First seen wins under insertion order: when `for...in` visits the ids
      in order of first appearance, the answer is the user of the earliest
      activity whose user has the most activities. */
  lemma FirstSeenWins(activities: seq<Activity>)
    requires |activities| > 0
    ensures IsKeyOrder(InsertionOrder(UserIds(activities)), Tally(UserIds(activities)))
    ensures var w := MostActiveUserId(activities, InsertionOrder(UserIds(activities)));
      var count := Tally(UserIds(activities));
      && w.Some?
      && exists i | 0 <= i < |activities| ::
        && activities[i].userId == w.value
        && forall j | 0 <= j < i :: count[activities[j].userId] < count[w.value]
  {
    var ids := UserIds(activities);
    var count := Tally(ids);
    InsertionOrderWinner(activities);
    assert ids[0] in count;
    FirstOfMax(count, ids);
    var w := FirstWithCount(count, ids, MaxCount(count, ids));
    EarliestActivity(activities, count, w.value);
  }
}
