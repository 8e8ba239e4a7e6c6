# fleetscorebot version-scoring pipeline, in Dafny

This project models `getDevices` from `fleetscorebot/index.js`. That is the command which lists the devices of a balena fleet, groups them by (OS version, supervisor version) and prints one line per group with its device count, newest version first. The model is in four parts, one per stage of the source:

- **`Retry`** (`retry.dfy`) is `getAllRetry`, the bounded retry loop around the remote "list devices" call. The remote call is an oracle `call: nat -> Attempt`, where `call(i)` is what attempt `i` yields.
- **`Version`** (`version.dfy`) is `getVersion`. It turns one device record into the composite key `os%supervisor`. A falsy OS version becomes `1.0.0-pre` and an unparseable one becomes `Unknown`. A missing or unparseable supervisor version throws.
- **`Aggregator`** and **`AggregatorProperties`** (`aggregator.dfy`) are the aggregation, in four steps:
  - `_.filter` drops the records without a supervisor version;
  - `_.countBy` is an imperative loop over an insertion-ordered key list and a count map;
  - the `_.forEach` push loop splits each key back into a group;
  - a second filter drops the `Unknown` groups.

  Alongside them sit the promises about counting: conservation, counts of at least 1, distinct groups, and independence from the order of the records.
- **`Reporter`** (`reporter.dfy`) is the reporting step:
  - `.sort(comparator)` is an insertion sort in place on an `array<Group>`, using the source's two-level comparator;
  - `.reverse()` reverses that array in place;
  - the rendering loop produces one `os\tsupervisor\tcount` line per group.
- **`FleetScore`** (`fleetscore.dfy`) strings the stages together in `GetDevices`. It proves that the report does not depend on the order of the records, and that it reads back as the aggregated groups. It also works one example through to its exact output lines.

`Strings` (`strings.dfy`) holds `split` and decimal rendering. `Semver` (`semver.dfy`) is the interface to the foreign `resin-semver` library: `parse` yields `Option<canonical string>` and `compare` is a comparator. `Semver.Valid` states what the model assumes of that library:
- every canonical string is made of version characters, so it holds no `%` and no tab;
- `compare` is a consistent total order.

`Wrappers` (`wrappers.dfy`) holds `Option` and `Result`.

## Model

| member | source | states |
|---|---|---|
| Retry.GetAllRetry | fleetscorebot/index.js:44-53 | One call per iteration. It returns the first success, rethrows the error of the `n`-th failure, and falls through to `undefined` with no call when `n <= 0`. For `n >= 1` it makes between 1 and `n` calls and never yields `undefined`. Every call before the last failed. The result equals the reference function `Retry`. |
| Retry.RetryFrom | fleetscorebot/index.js:44-53 | The loop entered at counter `i`: it falls through to `undefined` exactly when `i >= n`, having made no further call. Otherwise it ends after more than `i` and at most `n` calls in total. `Retry.OutcomeFrom` states which outcome it ends with. |
| Retry.Retry | fleetscorebot/index.js:44-53 | The reference definition of `getAllRetry`: `undefined` with no call exactly when `n <= 0`, otherwise between 1 and `n` calls. `Retry.RetryOutcome`, `Retry.FailuresThenSuccess` and `Retry.AllFail` state which outcome it yields. |
| Retry.FailuresThenSuccess | fleetscorebot/index.js:44-53 | If the first `k < n` attempts fail and attempt `k` succeeds, exactly `k + 1` calls are made and that success's value is returned. |
| Retry.AllFail | fleetscorebot/index.js:44-53 | If all `n >= 1` attempts fail, exactly `n` calls are made and the last attempt's error is rethrown unchanged. |
| Retry.RetryOutcome | fleetscorebot/index.js:44-53 | For `n >= 1` there are exactly two cases: a success returned after only failures, or all `n` attempts failing and the last error thrown. |
| Version.GetVersion | fleetscorebot/index.js:55-66 | `getVersion` succeeds exactly when the supervisor version is present and parses. The key is then the normalised OS version, `%`, and the canonical supervisor version. |
| Version.OsVersion | fleetscorebot/index.js:57-62 | A record without a truthy OS version gets `1.0.0-pre`. Any other OS part is `Unknown` or the library's parse of the reported OS version. `Version.KeySplitsBack` states which of the three cases applies. |
| Version.IsTruthy | fleetscorebot/index.js:57 | JavaScript truthiness of the OS version field: present and not the empty string. It has no contract of its own. `Version.OsVersion` and `Version.KeySplitsBack` state that a record failing it gets `1.0.0-pre`. |
| Version.Combine | fleetscorebot/index.js:64 | Every composite key contains the separator `%`. |
| Version.KeySplitsBack | fleetscorebot/index.js:57-64 | The three OS cases: falsy gives `1.0.0-pre`, unparseable gives `Unknown`, otherwise the canonical parse. Splitting the key on `%` gives exactly two parts, the normalised OS version and the canonical supervisor version. |
| Version.OsVersionIsVersionString | fleetscorebot/index.js:57-62 | The OS part of a key is always a version string, including both fallbacks. |
| Version.CombineInjective | fleetscorebot/index.js:64 | Two keys built from `%`-free parts are equal only when both parts are equal. |
| Strings.Split | fleetscorebot/index.js:113 | No piece of `split` contains the separator. A string without the separator splits into itself. A string with it splits into at least two pieces. |
| Strings.SplitJoin2 | fleetscorebot/index.js:113-114 | Joining two `%`-free strings with `%` and splitting again gives back the two strings. |
| Strings.SplitJoin3 | fleetscorebot/index.js:131 | Joining three separator-free strings with a separator and splitting again gives back the three strings. |
| Strings.NatToString | fleetscorebot/index.js:131 | `${count}` has at least one character, all of them decimal digits, and no leading zero. |
| Strings.DecimalRoundTrip | fleetscorebot/index.js:131 | Reading the rendered count back as a decimal gives the count. |
| Aggregator.Filter | fleetscorebot/index.js:107-109 | The filter keeps exactly the accepted elements and never grows the list. |
| Aggregator.FilterMultiset | fleetscorebot/index.js:107-109 | Each accepted element is kept as often as it occurs; every other element is dropped entirely. |
| Aggregator.HasSupervisor | fleetscorebot/index.js:108 | The `!== null` test of the first filter. It has no contract of its own. `Aggregator.FilterMultiset` states that the filter keeps exactly the records passing it, and `AggregatorProperties.CountedGroupsSpec` that the counts add up to their number. |
| Aggregator.Dedup | fleetscorebot/index.js:110 | The key order of the count dictionary has no repetitions and holds exactly the keys seen. |
| Aggregator.KeyCounts | fleetscorebot/index.js:110 | The dictionary holds exactly the keys seen, and each count is that key's number of occurrences. |
| Aggregator.VersionKeys | fleetscorebot/index.js:110 | Mapping `getVersion` over the records succeeds exactly when it succeeds on every record. The key at each position is that record's key. |
| Aggregator.VersionKeysOf | fleetscorebot/index.js:110 | Any list of keys that `getVersion` yields record by record is what the mapping produces. |
| Aggregator.CountBy | fleetscorebot/index.js:110 | The counting loop throws exactly when some record's `getVersion` throws. Otherwise it yields the keys in order of first occurrence, each with its number of occurrences. |
| Aggregator.ToGroups | fleetscorebot/index.js:111-116 | The push loop yields one group per dictionary key, in dictionary order. Each group carries that key's count. |
| Aggregator.SplitGroup | fleetscorebot/index.js:113-114 | The group made from a key carries the key's count, and neither of its versions contains `%`. `Aggregator.SplitGroupOfCombine` states that it recovers the two versions the key was built from. |
| Aggregator.GroupsOf | fleetscorebot/index.js:111-116 | The reference definition of the push loop: one group per dictionary key, in dictionary order, each the split of its key with that key's count. |
| Aggregator.GroupMaker | fleetscorebot/index.js:112-115 | The callback of the `_.forEach`: it is defined on every dictionary key holding `%`, and maps the key to its split with the key's count. `Aggregator.GroupsOf` and `Aggregator.ToGroups` state what the loop builds from it. |
| Aggregator.IsKnown | fleetscorebot/index.js:119 | The `!== "Unknown"` test of the second filter. It has no contract of its own. `AggregatorProperties.AggregateDropsUnknown` states that exactly the groups whose OS version is not `Unknown` are kept. |
| Aggregator.CountedGroups | fleetscorebot/index.js:107-116 | The filter, count and push stages together. It has no contract of its own. `AggregatorProperties.CountedGroupsSpec` and `AggregatorProperties.CountedGroupsPermutation` state its properties. |
| Aggregator.Aggregate | fleetscorebot/index.js:107-120 | The aggregation up to the `Unknown` filter. It has no contract of its own. `AggregatorProperties.AggregateDropsUnknown` and `AggregatorProperties.AggregatePermutation` state its properties. |
| Aggregator.SplitGroupOfCombine | fleetscorebot/index.js:113-114 | Splitting a key built from `%`-free versions gives a group with exactly those two versions. |
| AggregatorProperties.TallyConservation | fleetscorebot/index.js:110-116 | The counts of the groups add up to the number of keys counted. |
| AggregatorProperties.KeysJoinBack | fleetscorebot/index.js:63-64 | Every key splits into two version strings that join back to the key. |
| AggregatorProperties.GroupsOfUnique | fleetscorebot/index.js:112-116 | Groups made from distinct keys that join back never share both versions. |
| AggregatorProperties.TallyGroupsMembers | fleetscorebot/index.js:110-116 | Every group stands for a key that was counted, and its count is that key's number of occurrences, at least 1. |
| AggregatorProperties.TallyGroupsCover | fleetscorebot/index.js:110-116 | Every key counted has its group. |
| AggregatorProperties.CountedGroupsSpec | fleetscorebot/index.js:107-116 | The counted groups' counts add up to the number of records that have a supervisor version. No two groups share both versions. Each count is the number of records with that key and is at least 1. Every counted key has its group. Both versions of every group are version strings. |
| AggregatorProperties.TallyPermutation | fleetscorebot/index.js:110 | Permuted keys give the same counts and permuted key orders. |
| AggregatorProperties.FilterPermutation | fleetscorebot/index.js:107-109 | Filtering permuted lists gives permuted results. |
| AggregatorProperties.VersionKeysPermutation | fleetscorebot/index.js:110 | For permuted records, `getVersion` throws on both or on neither. If on neither, the keys are permuted too. |
| AggregatorProperties.CountedGroupsPermutation | fleetscorebot/index.js:107-116 | Permuting the records leaves the multiset of `(os, supervisor, count)` groups unchanged. It also leaves unchanged whether counting throws. |
| AggregatorProperties.AggregatePermutation | fleetscorebot/index.js:107-120 | The same holds after the `Unknown` filter. |
| AggregatorProperties.AggregateDropsUnknown | fleetscorebot/index.js:117-120 | The final groups are exactly the counted groups whose OS version is not `Unknown`, with their counts unchanged and nothing added. |
| Reporter.CompareGroups | fleetscorebot/index.js:122-128 | The two-level comparator: OS versions first, supervisor versions when the OS strings are equal. It has no contract of its own. `Reporter.GroupLeFlip`, `Reporter.GroupLeTransitive` and `Reporter.GroupLeAntisymmetric` state that it orders groups totally. |
| Reporter.GroupLeFlip | fleetscorebot/index.js:122-128 | A pair the comparator puts out of order is in order the other way round. |
| Reporter.GroupLeTransitive | fleetscorebot/index.js:122-128 | The two-level comparator's "at most" is transitive. |
| Reporter.GroupLeAntisymmetric | fleetscorebot/index.js:122-128 | Two groups in order both ways have the same versions. |
| Reporter.InsertGroup | fleetscorebot/index.js:121-128 | One insertion pass extends the sorted prefix of the array by one, to index `i`. It permutes only that prefix: the prefix keeps its multiset, and the elements after index `i` are untouched. |
| Reporter.SortGroups | fleetscorebot/index.js:121-128 | `.sort(comparator)` leaves the array sorted ascending under the comparator, over all pairs, and a permutation of what it held. |
| Reporter.ReverseGroups | fleetscorebot/index.js:129 | `.reverse()` leaves the array holding its old contents backwards. |
| Reporter.Reversed | fleetscorebot/index.js:129 | The reference definition of `.reverse()` keeps the length. `Reporter.ReversedPermutation` and `Reporter.ReversedDescending` state the rest. |
| Reporter.ReversedPermutation | fleetscorebot/index.js:129 | Reversing keeps every element with its multiplicity. |
| Reporter.ReversedDescending | fleetscorebot/index.js:129 | Reversing an ascending sequence gives a descending one. |
| Reporter.SortDescending | fleetscorebot/index.js:121-129 | `.sort(...).reverse()` leaves the array sorted descending, OS version first and supervisor version when the OS strings are equal, and a permutation of what it held. |
| Reporter.StrictWhereVersionsIdentify | fleetscorebot/index.js:122-128 | Among groups identified by their versions, the comparator orders no two different groups both ways. |
| Reporter.DescendingUnique | fleetscorebot/index.js:121-129 | Two descending permutations of one another, on which the comparator is strict, are equal. So any correct sort gives the same result. |
| Reporter.NoVersionTwice | fleetscorebot/index.js:121-129 | A list of distinct groups identified by their versions has no version pair twice. |
| Reporter.Line | fleetscorebot/index.js:131 | The rendering of one group as `os\tsupervisor\tcount`. It has no contract of its own. `Reporter.LineRoundTrip` states that the line loses nothing of the group. |
| Reporter.LineRoundTrip | fleetscorebot/index.js:131 | A rendered line splits on tabs into exactly the two versions and a decimal string whose value is the count. |
| Reporter.ParseLineRoundTrip | fleetscorebot/index.js:131 | Reading a rendered line back gives the group it was rendered from. |
| Reporter.ParseReport | fleetscorebot/index.js:130-132 | A report that reads back has one group per line. |
| Reporter.ParseRendered | fleetscorebot/index.js:130-132 | Lines rendered from tab-free groups read back as exactly those groups, in order. |
| Reporter.Render | fleetscorebot/index.js:130-132 | The loop renders exactly one line per group, in order, and the lines read back as the groups. |
| FleetScore.SortReport | fleetscorebot/index.js:121-129 | Sorting and reversing the groups in an array yields a descending permutation of them. |
| FleetScore.GetDevices | fleetscorebot/index.js:106-132 | If all five attempts fail, the run ends with that error. If some record's supervisor version does not parse, the run ends with the counting error. Otherwise the output is a report of the aggregated groups: one line per group of a descending arrangement of exactly those groups. |
| FleetScore.AggregateWellFormed | fleetscorebot/index.js:107-120 | The groups of the report are identified by their versions, occur once each, and have version strings for both versions. |
| FleetScore.ArrangementsAgree | fleetscorebot/index.js:121-129 | There is only one descending arrangement of the report's groups. |
| FleetScore.ReportsAgree | fleetscorebot/index.js:121-132 | Two reports of one multiset of such groups are the same lines. |
| FleetScore.ReportIndependentOfOrder | fleetscorebot/index.js:106-132 | Whatever order the device records arrive in, the report lines are the same. |
| FleetScore.ReportLines | fleetscorebot/index.js:106-132 | The report reads back line by line as a permutation of the aggregated groups, sorted descending, with no version pair on two lines. |
| FleetScore.SupervisedOfFive | fleetscorebot/index.js:107-109 | Of five records, the one without a supervisor version is dropped and the others are kept, in order. |
| FleetScore.ExampleDeviceKeys | fleetscorebot/index.js:55-66 | The keys of the example's records: `2.0.0%10.0.0`, `1.0.0-pre%9.0.0` for the record without an OS version, and `Unknown%9.0.0` for the record whose OS version does not parse. |
| FleetScore.ExampleOrder | fleetscorebot/index.js:110 | A repeated key keeps the position of its first occurrence. |
| FleetScore.ExampleCounts | fleetscorebot/index.js:110 | A key seen twice is counted 2, and keys seen once are counted 1. |
| FleetScore.KnownOfThree | fleetscorebot/index.js:118-120 | The `Unknown` filter drops the `Unknown` group and keeps the other two in order. |
| FleetScore.ExampleCounted | fleetscorebot/index.js:106-116 | The five example records count into `(2.0.0, 10.0.0, 2)`, `(1.0.0-pre, 9.0.0, 1)` and `(Unknown, 9.0.0, 1)`. |
| FleetScore.ExampleAggregate | fleetscorebot/index.js:106-120 | After the `Unknown` filter, only `(2.0.0, 10.0.0, 2)` and `(1.0.0-pre, 9.0.0, 1)` remain. |
| FleetScore.ExampleLines | fleetscorebot/index.js:131 | The two lines are `2.0.0\t10.0.0\t2` and `1.0.0-pre\t9.0.0\t1`. |
| FleetScore.ReportOfTwo | fleetscorebot/index.js:121-132 | The report of two groups whose OS versions the comparator orders one way is their two lines, newer first. |
| FleetScore.ExampleReport | fleetscorebot/index.js:106-132 | The example's report is exactly those two lines, `2.0.0` first. This holds for any library that parses the example's versions as themselves and orders `1.0.0-pre` before `2.0.0`. |

## Left out

- The console override and log-file stream (fleetscorebot/index.js:17-28) are I/O. The model returns the rendered lines instead of logging them.
- Config loading, the `balena-sdk` client and `loginWithToken` (fleetscorebot/index.js:30-33, 91) are a network client and foreign calls. The remote "list devices" call is the oracle parameter `call` of `GetDevices`.
- `replaceToken` (fleetscorebot/index.js:68-88) is not modelled. It is a fire-and-forget HTTP request plus a file write, and nothing waits for it.
- The date computation with `moment` and the filter/projection descriptor (fleetscorebot/index.js:94-105) are not modelled. They depend on the wall clock and on the remote query language, and the oracle `call` stands for the query as a whole.
- The internals of `resin-semver` `parse` and `compare` are abstract in `Semver.Library`. SemVer precedence is not re-implemented.
- The `capitano` command registration, `help` and `capitano.run` (fleetscorebot/index.js:35-42, 135-156) are CLI dispatch. They are not modelled.
- The async/await mechanics are left out, and so are the failures of `await` on the login. The retry loop is a plain sequential loop over the oracle's outcomes.
- Semver.IsTotalOrder: the model assumes `compare` is antisymmetric, so only equal versions compare equal, rather than a mere total preorder. With ties between different strings, the source's two-level comparator is not transitive, and the sorted order would not be determined.
- Semver.ParsesToVersionStrings: the model assumes canonical version strings hold only letters, digits, `.`, `-` and `+`, and so never `%` or a tab.
- Reporter.SortGroups: JavaScript's `Array.prototype.sort` algorithm (TimSort in V8) is modelled by an insertion sort. `Reporter.DescendingUnique` shows any correct sort gives the same report for these groups.
- FleetScore.GetDevices: the five failed attempts end the run with the original error. An unparseable supervisor version ends it with `CountFailed(SupervisorUnparsed)`, without the TypeError's message.
- FleetScore.GetDevices: when `getAllRetry` falls through to `undefined` it is taken as the empty device list, as `_.filter(undefined)` gives `[]`. With five attempts this cannot happen.
- FleetScore.GetDevices: its contract relates the lines to the aggregated groups through `IsReport`, which says "some descending arrangement, rendered". It does not name the exact array the insertion sort produces. `FleetScore.ArrangementsAgree` shows there is only one such arrangement.
- Aggregator.ToGroups: it requires every key to contain `%`, which every key `getVersion` yields does (`Version.Combine`).
- Version.Device: a `null` and an absent (`undefined`) field are both `None`. The `$select` projection always supplies both fields, so the source's separate case of an `undefined` supervisor version is not modelled. That case passes the `!== null` filter and then throws in `getVersion`.
- Strings.Split: its contract states at least two pieces for a string holding the separator, not the exact number of pieces.
