# Activity and email aggregation, modelled in Dafny

A model of three small TypeScript aggregations over in-memory lists of
users and activities, with proofs of what they compute:

- `countUsersByEmailDomain` (src/emailDomains.ts) maps each email domain
  (the text after the last `@`) to the number of users with that domain.
  Module `EmailDomains`, with the string built-ins in `JsString` and the
  counting idiom `r[k] = (r[k] ?? 0) + 1` in `Counting`.
- `getMostActiveUserName` (src/task3.ts) counts activities per user id,
  scans the count record for the largest count with a strict `>`, and
  returns the name of the first user with the winning id, or `null`.
  Module `MostActive`.
- `getUserNamesActiveInLastNDays` (src/task1.ts) keeps the activities
  stamped at or after "now minus `days` days", collects their user ids into
  a `Set`, and returns the names of the users whose id is in it, in user
  order. Module `RecentlyActive`. The copy in ts-practice.ts, which tests
  membership with `Array.includes` on the id list instead, is module
  `RecentlyActivePractice`. Its `isInLastNDays` (ts-practice.ts:36-40) is
  the same code as src/task1.ts:14-18 and is modelled by the same
  `RecentlyActive.IsInLastNDays`.

`JsArray` models `Array.prototype.filter`, `map`, `find` and `at(-1)` on
sequences; `Wrappers.Option` stands for `null`, `undefined` and the
Invalid Date.

The two counting loops and the arg-max scan are methods with loop
invariants, proved against specification functions: `Counting.Tally` (the
record after counting a list of keys, whose keys and values are proved to
be the distinct keys and their multiplicities) and `MostActive.MaxCount` /
`MostActive.FirstWithCount` (the largest count, and the first key in scan
order having a given count). The recency filter is a chain of pure
functions, as in the source.

Abstractions:

- A timestamp is `Option<int>`: milliseconds since the epoch, or `None`
  when `new Date(iso)` gives an Invalid Date. Every comparison with the
  Invalid Date's NaN time value is false, so such an activity never
  qualifies.
- The clock is a parameter `now`. The cutoff is `now - days * 86400000`,
  passed through TimeClip: once it leaves the range of valid time values
  (plus or minus 8.64e15 ms) it is an Invalid Date, against which no date
  qualifies (`RecentlyActive.Cutoff`, `RecentlyActive.ClippedCutoffIsEmpty`).
- `for...in` over the count record visits its keys in an order fixed by the
  JavaScript object model. The model takes that order as a parameter `keys`,
  required to list each key of the record exactly once
  (`MostActive.IsKeyOrder`). `MostActive.InsertionOrder` is one such order
  (first appearance), and `MostActive.FirstSeenWins` shows what the answer
  is under it.

Behaviour of the code worth stating:

- An email with no `@` is counted under the whole email, not under `""`:
  `email.split("@")` is then `[email]`, whose last piece is the email, and
  the `?? ""` fallback is never taken (`EmailDomains.NoAtIsWholeEmail`,
  `EmailDomains.Domain`). Hence the counts add up to the number of users,
  with no exception for malformed emails (keys that name members of
  `Object.prototype` aside; see `Counting.Bump` under "## Left out").
- Ties in `getMostActiveUserName` go to the first key in `for...in` order,
  not to the first id seen among the activities. The two agree when the
  keys are visited in insertion order. JavaScript visits integer-like keys
  (such as `"1"`, `"2"`) first, in ascending numeric order. So with
  activities for `"2"` then `"1"`, one each, the code picks `"1"`, where
  insertion order would pick `"2"` (`MostActive.IntegerKeysDecideTies`).
- `isInLastNDays` reads the clock once per activity, not once per call. With
  `now` as a single parameter the model has one reading per call.
- Whether a user qualifies grows with `days` only while the cutoff is a
  valid date: with Alice active at the moment of the call, 7 days return
  her and 300000000 days return nobody (`RecentlyActive.HugeWindowDropsAlice`).
- The `days = 0` sample of tests/task1.test.ts:25-28 relies on the clock
  advancing between building the fixture and the call: an activity stamped
  in the same millisecond as the call's clock reading qualifies
  (`RecentlyActive.SameMillisecondKeepsAlice`).

## Model

| member | source | states |
|---|---|---|
| `JsString.Split` | src/emailDomains.ts:12 | `split` always yields at least one piece |
| `JsString.SplitPiecesFree` | src/emailDomains.ts:12 | no piece of `split("@")` contains `@` |
| `JsString.JoinSplit` | src/emailDomains.ts:12 | joining the pieces with the separator gives back the string |
| `JsString.SplitJoin` | src/emailDomains.ts:12 | splitting separator-free pieces joined by the separator gives the pieces back (split and join are inverse) |
| `JsString.SplitLastSegment` | src/emailDomains.ts:12 | the last piece is the separator-free suffix after the last separator, or the whole string if it has none |
| `JsString.LastSegmentUnique` | src/emailDomains.ts:12 | only one string is "the segment after the last `@`", so that description determines the domain |
| `JsArray.AtLast` | src/emailDomains.ts:12 | `at(-1)` is `undefined` exactly on an empty array, otherwise the last element |
| `Wrappers.Option.GetOr` | src/emailDomains.ts:12 | `x ?? d` is the value when present and `d` when absent |
| `EmailDomains.Domain` | src/emailDomains.ts:12 | `split("@").at(-1)` is never `undefined`, so the `?? ""` fallback is unreachable |
| `EmailDomains.DomainIsAfterLastAt` | src/emailDomains.ts:12 | the domain is the raw suffix of the email after its last `@`, contains no `@`, and is not case-folded |
| `EmailDomains.NoAtIsWholeEmail` | src/emailDomains.ts:12 | an email without `@` is its own domain |
| `EmailDomains.DomainAfterLastAt` | src/emailDomains.ts:12 | `local@host` with an `@`-free host has domain `host`, whatever `local` is |
| `Counting.Bump` | src/emailDomains.ts:13 | one step `r[k] = (r[k] ?? 0) + 1` adds `k` with one more than before and leaves other keys alone |
| `Counting.Tally` | src/emailDomains.ts:9-13 | the record after counting a list has exactly the list's strings as keys, each mapped to its number of occurrences (at least 1); an empty list gives an empty record |
| `Counting.TallySnoc` | src/emailDomains.ts:11-13 | counting one more key is one more counting step |
| `Counting.BumpSum` | src/emailDomains.ts:13 | one counting step adds exactly one to the sum of the counts |
| `Counting.TallySum` | src/emailDomains.ts:9-13 | the counts sum to the length of the list counted |
| `Counting.TallyPermutation` | src/emailDomains.ts:11-13 | the record depends only on the multiset of keys counted |
| `EmailDomains.CountUsersByEmailDomain` | src/emailDomains.ts:6-17 | the loop returns the record whose keys are exactly the users' domains, each mapped to the number of users with that domain (at least 1), with counts summing to the number of users |
| `EmailDomains.DomainsSnoc` | src/emailDomains.ts:11-12 | the domains of one more user are the old domains plus that user's |
| `EmailDomains.DomainKeys` | src/emailDomains.ts:11-13 | a domain is a key of the result if and only if some user has it |
| `EmailDomains.PermutedUsersSameCounts` | src/emailDomains.ts:11-13 | permuting the users gives the same record |
| `EmailDomains.TwoDomains` | tests/task2.test.ts:8-12 | three users, two at domain `g` and one at `y`, have domains `[g, g, y]` |
| `EmailDomains.SampleTally` | tests/task2.test.ts:14-19 | counting `["gmail.com", "gmail.com", "yahoo.com"]` gives `{"gmail.com": 2, "yahoo.com": 1}` |
| `EmailDomains.SampleCounts` | tests/task2.test.ts:8-19 | alice@gmail.com, bob@gmail.com, carol@yahoo.com give `{"gmail.com": 2, "yahoo.com": 1}` |
| `MostActive.UserIdsSnoc` | src/task3.ts:20-21 | the ids of one more activity are the old ids plus its `userId` |
| `MostActive.CountByUserId` | src/task3.ts:18-22 | the loop returns the record mapping each user id to its number of activities, with no other keys and counts summing to the number of activities |
| `MostActive.MaxCount` | src/task3.ts:24-32 | the largest count among the keys: no key's count exceeds it, some key's count equals it, and it is 0 for no keys |
| `MostActive.FirstWithCount` | src/task3.ts:27-31 | the first key, in the given order, whose count is `m`; `None` exactly when no key has count `m` |
| `MostActive.ScanForMax` | src/task3.ts:24-32 | the strict-`>` scan from 0 ends with `maxCount` the largest count and `maxUserId` the first key reaching it (`null` when that count is 0) |
| `MostActive.MostActiveUserId` | src/task3.ts:16-32 | `None` exactly for no activities; otherwise an id present in the counts, whose count is the largest, with every key before it in the scan order having a strictly smaller count (ties go to the earliest key) |
| `JsArray.Find` | src/task3.ts:34 | `find` gives the first element satisfying the predicate, `undefined` exactly when none does |
| `MostActive.FindUser` | src/task3.ts:34 | the first user whose id is the winning id; a `null` id matches nobody |
| `MostActive.MostActiveUserName` | src/task3.ts:12-36 | `null` for empty activities; otherwise the name of the first user whose id is the winning id, or `null` when no user has it |
| `MostActive.GetMostActiveUserName` | src/task3.ts:12-36 | the imperative function (early return, count loop, scan, `find`) returns exactly `MostActiveUserName` |
| `MostActive.SampleMostActive` | tests/task3.test.ts:9-23 | activities 1 login, 1 view, 2 login with Alice(1) and Bob(2) give "Alice", for every key order |
| `MostActive.ThreeActivitiesWinner` | tests/task3.test.ts:14-23 | two activities of one id and one of another make the first the winner, for every key order |
| `MostActive.TieGoesToFirstKey` | src/task3.ts:27-31 | with one activity each, the key visited first wins, in either order |
| `MostActive.TwoIdsInsertionOrder` | src/task3.ts:27 | two distinct ids are visited in the order they were first seen |
| `MostActive.IntegerKeysDecideTies` | src/task3.ts:27-31 | activities of "2" then "1": JavaScript's key order `["1", "2"]` picks "1", insertion order `["2", "1"]` picks "2" |
| `MostActive.KindIgnored` | src/task3.ts:20-21 | the `type` tag never changes the answer |
| `MostActive.InsertionOrder` | src/task3.ts:27 | the ids in order of first appearance list each id exactly once |
| `MostActive.FirstWithCountInsertionOrder` | src/task3.ts:27-31 | searching the ids in first-appearance order finds the same first key with count `m` as searching all activity ids in order |
| `MostActive.MaxCountSameKeys` | src/task3.ts:27-31 | key lists with the same elements have the same largest count |
| `MostActive.FirstOfMax` | src/task3.ts:27-31 | the first id reaching the largest count exists, and every id before it has a strictly smaller count |
| `MostActive.InsertionOrderWinner` | src/task3.ts:27-31 | first-appearance order is a valid key order, and under it the winner is the first activity id reaching the largest count |
| `MostActive.FirstSeenWins` | src/task3.ts:27-31 | under insertion order, the winner is the user of the earliest activity among those of the most active users |
| `RecentlyActive.TimeClip` | src/task1.ts:15-16 | a time value is kept exactly when it lies within plus or minus 8.64e15 ms, otherwise the date is invalid; `RecentlyActive.Cutoff` passes `now - days * 86400000` through it |
| `RecentlyActive.IsInLastNDays` | src/task1.ts:14-18 | a date qualifies exactly when it is valid, the cutoff is a valid date, and the date is at most `days` days before `now` |
| `RecentlyActive.IsInLastNDaysMonotone` | src/task1.ts:14-18 | an invalid date never qualifies, nor does any date against an invalid cutoff; a date qualifying for `days` qualifies for every larger `days` whose cutoff is still valid |
| `JsArray.Filter` | src/task1.ts:25-26 | `filter` keeps exactly the elements satisfying the predicate, never more often than in the input, and is no longer than the input |
| `JsArray.Map` | src/task1.ts:27 | `map` gives one result per element, in order, each the function applied to that element |
| `RecentlyActive.ActiveUserIds` | src/task1.ts:25-27 | an id is collected exactly when some activity with that id has a date at or after the cutoff; at most one id per activity |
| `RecentlyActive.IdSet` | src/task1.ts:29 | `new Set(ids)` holds exactly the ids of the list |
| `RecentlyActive.ActiveUsers` | src/task1.ts:31-32 | a user record is kept exactly when its id is a collected id; at most as often as it is in `users` |
| `RecentlyActive.GetUserNamesActiveInLastNDays` | src/task1.ts:20-34 | a name is returned exactly when some user with that name has a qualifying activity; the result is no longer than `users` and no name occurs more often than among the users |
| `JsArray.FilterConcat` | src/task1.ts:31-32 | filtering keeps relative order |
| `JsArray.MapConcat` | src/task1.ts:33 | mapping keeps relative order |
| `RecentlyActive.NamesFollowUserOrder` | src/task1.ts:31-33 | the names come in user order: two user lists back to back give the two answers back to back |
| `JsArray.FilterRefines` | src/task1.ts:31-32 | filtering by a stronger predicate keeps a subsequence of what a weaker one keeps |
| `RecentlyActive.LongerWindowKeepsUsers` | src/task1.ts:14-17 | the active users for `days` are those for any larger `days'` with a valid cutoff, filtered further: a longer window keeps every user of a shorter one, in the same order |
| `RecentlyActive.ClippedCutoffIsEmpty` | src/task1.ts:15-17 | a window whose cutoff is an Invalid Date returns no names |
| `RecentlyActive.HugeWindowDropsAlice` | src/task1.ts:15-17 | with Alice active at the call, 7 days give `["Alice"]` but 300000000 days give `[]` |
| `JsArray.FilterCongruent` | src/task1.ts:31-32 | predicates agreeing on every element keep the same elements |
| `RecentlyActive.UnmatchedActivityIgnored` | src/task1.ts:31-32 | an activity whose `userId` matches no user changes nothing |
| `JsArray.FilterNone` | src/task1.ts:25-26 | when no element qualifies the filter is empty |
| `RecentlyActive.ZeroDaysPastIsEmpty` | tests/task1.test.ts:25-28 | with `days = 0` and every date strictly before `now` or invalid, no name is returned |
| `RecentlyActive.SampleActiveIds` | tests/task1.test.ts:15-18 | in the sample, user "1" qualifies and user "2" does not when the cutoff lies between their stamps |
| `RecentlyActive.SampleActiveUsers` | tests/task1.test.ts:10-13 | with only "1" qualifying, the users kept are Alice alone |
| `RecentlyActive.SampleRecent` | tests/task1.test.ts:15-28 | an activity a moment before `now` and one older than 7 days give `["Alice"]` for 7 days and `[]` for 0 days |
| `RecentlyActive.SameMillisecondKeepsAlice` | tests/task1.test.ts:25-28 | an activity stamped in the same millisecond as the clock reading qualifies for `days = 0`, so the test's `[]` depends on the clock advancing |
| `JsArray.MapMultisetLe` | ts-practice.ts:52-54 | mapping names over fewer user records gives no name more often |
| `JsArray.MapPermutation` | src/emailDomains.ts:11-12 | mapping a permutation gives a permutation |
| `RecentlyActivePractice.GetUserNamesActiveInLastNDays` | ts-practice.ts:42-55 | the result is no longer than `users` and no name occurs more often than among the users, however many qualifying activities repeat it |
| `RecentlyActivePractice.SameAsSetVersion` | ts-practice.ts:52-54 | filtering with `includes` on the id list gives the same output as filtering with `has` on the id set (src/task1.ts:29-33) |
| `RecentlyActivePractice.DependsOnlyOnActiveIds` | ts-practice.ts:47-54 | the result depends on the activities only through the set of qualifying ids, so the unused `activeUserIdSet` at line 50 plays no part |

## Left out

- ISO-8601 parsing (`new Date(iso)`, src/task1.ts:11-12, ts-practice.ts:32-34): a foreign library; an activity carries the parsed value as `Option<int>`.
- The wall clock (`new Date()`, src/task1.ts:15, ts-practice.ts:37) is the parameter `now`; `isInLastNDays` reading it once per activity is not modelled.
- Calendar arithmetic (`setDate(getDate() - days)`, src/task1.ts:16, ts-practice.ts:38): a day is a fixed 86400000 ms, so daylight-saving shifts and local-time effects are not modelled, and `days` is an integer (a fractional `days` is not modelled).
- The exact `for...in` key order of the JavaScript object model (integer-like keys first, ascending, then insertion order), src/task3.ts:27: the order is a parameter.
- The fixture constants, the `console.log` call and the commented-out test in ts-practice.ts (lines 11-19, 61-68, 76): glue with no behaviour to model.
- The test harness in tests/*.test.ts: used only as a source of sample properties. src/task2.ts, which tests/task2.test.ts imports, is not part of this model; the sample in `EmailDomains.SampleCounts` assumes it exports the same `countUsersByEmailDomain` as src/emailDomains.ts.
- JavaScript numbers are modelled as unbounded integers. Counts stay far below 2^53. The cutoff arithmetic is exact in the model, and its range is bounded by `RecentlyActive.TimeClip`. A parsed `lastActiveAt` is not constrained to the valid range, although `new Date(iso)` never produces a date outside it.
- Counting.Bump: the record starts as `{}`, which inherits from `Object.prototype`, and the model ignores this: it is a plain map. In the source, `r[k] ?? 0` (src/emailDomains.ts:13, src/task3.ts:21) reads the inherited member for a key naming one. For `"__proto__"` the new value `"[object Object]1"` goes to the prototype setter, which ignores it, so the key is never stored. For `"constructor"`, `"toString"`, `"valueOf"`, `"hasOwnProperty"`, `"isPrototypeOf"`, `"propertyIsEnumerable"`, `"toLocaleString"` and the `__defineGetter__` family, the stored value is a string such as `"function Object() { [native code] }1"`, and further increments append `"1"`.
- EmailDomains.CountUsersByEmailDomain: the contract holds only when no domain is such a key. For example, `[{email: "a@__proto__"}]` gives `{}` in the source but `{"__proto__": 1}` in the model, and the counts then no longer sum to the number of users.
- MostActive.CountByUserId, MostActive.MostActiveUserId, MostActive.MostActiveUserName and MostActive.GetMostActiveUserName: the contracts hold only when no user id is such a key. In the source, `"__proto__"` is never stored in the count record, and such an id never wins: its count is missing or a string, and `string > number` compares `NaN`, which is false. So users `C("constructor")` and `B("b")` with activities `constructor, constructor, b` give `"B"`, and activities all for `"__proto__"` give `null`.
