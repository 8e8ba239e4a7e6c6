/** The aggregator of `getDevices`: drop devices without a supervisor
    version, count devices by version key (`_.countBy`), split every key
    back into an `{os, supervisor, count}` group, and drop the groups whose
    OS version is "Unknown". */
module Aggregator {
  import opened Wrappers
  import opened Strings
  import opened Version

  /** One line of the report before rendering. */
  datatype Group = Group(os: string, supervisor: string, count: nat)

  /** The `_.countBy` dictionary: its keys in insertion order (the order in
      which `_.forEach` visits them; no key is integer-like, since every key
      holds a `%`) and the count of each key. */
  datatype Tally = Tally(order: seq<string>, counts: map<string, nat>)

  // ---------------------------------------------------------------------
  // Sequence helpers

  /** `_.filter`: the elements that `keep` accepts, in their original order. */
  function Filter<T(==, !new)>(s: seq<T>, keep: T -> bool): (r: seq<T>)
    ensures forall x :: x in r <==> x in s && keep(x)
    ensures |r| <= |s|
    decreases |s|
  {
    if s == [] then []
    else
      assert s == [s[0]] + s[1..];
      (if keep(s[0]) then [s[0]] else []) + Filter(s[1..], keep)
  }

  /** The filter keeps every accepted element as often as it occurs and
      drops every other. */
  lemma {:induction false} FilterMultiset<T(!new)>(s: seq<T>, keep: T -> bool)
    ensures forall x :: multiset(Filter(s, keep))[x] == if keep(x) then multiset(s)[x] else 0
    decreases |s|
  {
    if s != [] {
      FilterMultiset(s[1..], keep);
      assert s == [s[0]] + s[1..];
    }
  }

  /** Filtering distributes over concatenation. */
  lemma {:induction false} FilterAppend<T(!new)>(a: seq<T>, b: seq<T>, keep: T -> bool)
    ensures Filter(a + b, keep) == Filter(a, keep) + Filter(b, keep)
    decreases |a|
  {
    if a == [] {
      assert a + b == b;
    } else {
      assert (a + b)[1..] == a[1..] + b;
      FilterAppend(a[1..], b, keep);
    }
  }

  /** Filtering keeps a sequence every element of which it accepts. */
  lemma {:induction false} FilterAll<T(!new)>(s: seq<T>, keep: T -> bool)
    requires forall x :: x in s ==> keep(x)
    ensures Filter(s, keep) == s
    decreases |s|
  {
    if s != [] {
      FilterAll(s[1..], keep);
    }
  }

  /** `f` applied to every element of `s`. */
  function Map<A, B>(s: seq<A>, f: A --> B): (r: seq<B>)
    requires forall x :: x in s ==> f.requires(x)
    ensures |r| == |s| && forall i :: 0 <= i < |s| ==> r[i] == f(s[i])
  {
    seq(|s|, i requires 0 <= i < |s| => f(s[i]))
  }

  predicate Distinct<T(==)>(s: seq<T>) {
    forall i, j :: 0 <= i < j < |s| ==> s[i] != s[j]
  }

  /** The distinct elements of `s`, each at the place of its first occurrence. */
  function Dedup<T(==, !new)>(s: seq<T>): (r: seq<T>)
    ensures Distinct(r)
    ensures forall x :: x in r <==> x in s
    decreases |s|
  {
    if s == [] then []
    else
      var prefix := Dedup(s[..|s| - 1]);
      assert forall x :: x in s <==> x in s[..|s| - 1] || x == s[|s| - 1] by {
        assert s == s[..|s| - 1] + [s[|s| - 1]];
      }
      if s[|s| - 1] in prefix then prefix else prefix + [s[|s| - 1]]
  }

  lemma DedupSnoc<T(!new)>(s: seq<T>, x: T)
    ensures Dedup(s + [x]) == if x in s then Dedup(s) else Dedup(s) + [x]
  {
    assert (s + [x])[..|s|] == s;
  }

  /** A sequence without repetitions holds each of its elements once. */
  lemma {:induction false} DistinctMultiplicity<T>(s: seq<T>)
    requires Distinct(s)
    ensures forall x :: multiset(s)[x] == if x in s then 1 else 0
  {
    if s != [] {
      var t := s[1..];
      assert s == [s[0]] + t;
      assert Distinct(t);
      DistinctMultiplicity(t);
      assert s[0] !in t;
    }
  }

  /** Two repetition-free sequences with the same elements are permutations
      of each other. */
  lemma DistinctSameElements<T>(a: seq<T>, b: seq<T>)
    requires Distinct(a) && Distinct(b)
    requires forall x :: x in a <==> x in b
    ensures multiset(a) == multiset(b)
  {
    DistinctMultiplicity(a);
    DistinctMultiplicity(b);
  }

  /** Two permutations of one another have the same elements. */
  lemma SameElements<A>(s1: seq<A>, s2: seq<A>)
    requires multiset(s1) == multiset(s2)
    ensures forall x :: x in s1 <==> x in s2
  {
    forall x ensures x in s1 <==> x in s2 {
      assert x in s1 <==> x in multiset(s1);
      assert x in s2 <==> x in multiset(s2);
    }
  }

  /** Removing the head of `s1` and an equal element of `s2` leaves two
      permutations of one another. */
  lemma RemovedPermutation<A>(s1: seq<A>, s2: seq<A>, j: nat)
    requires multiset(s1) == multiset(s2)
    requires s1 != [] && j < |s2| && s2[j] == s1[0]
    ensures s1 == [s1[0]] + s1[1..] && s2 == s2[..j] + [s1[0]] + s2[j + 1..]
    ensures multiset(s1[1..]) == multiset(s2[..j] + s2[j + 1..])
  {
    var x, left, right, tail := s1[0], s2[..j], s2[j + 1..], s1[1..];
    assert s2 == left + [x] + right;
    assert s1 == [x] + tail;
    assert multiset(s2) == multiset(left) + multiset{x} + multiset(right);
    assert multiset(tail) == multiset(s1) - multiset{x};
    assert multiset(left + right) == multiset(s2) - multiset{x};
  }

  /** Mapping a function over two permutations of one another gives two
      permutations of one another. */
  lemma {:induction false} MapPermutation<A, B>(s1: seq<A>, s2: seq<A>, f: A --> B)
    requires multiset(s1) == multiset(s2)
    requires forall x :: x in s1 ==> f.requires(x)
    ensures forall x :: x in s2 ==> f.requires(x)
    ensures multiset(Map(s1, f)) == multiset(Map(s2, f))
    decreases |s1|
  {
    SameElements(s1, s2);
    if s1 == [] {
      assert |s2| == |multiset(s2)| == 0;
    } else {
      var x := s1[0];
      assert x in multiset(s2);
      var j :| 0 <= j < |s2| && s2[j] == x;
      var left, right, tail := s2[..j], s2[j + 1..], s1[1..];
      RemovedPermutation(s1, s2, j);
      RemovedDefined(s1, s2, j, f);
      MapPermutation(tail, left + right, f);
      PermutationStep(left, x, right, tail, f);
    }
  }

  /** `f` is defined on what remains of `s1` and `s2` after removing the
      head of `s1` and an element of `s2`. */
  lemma RemovedDefined<A, B>(s1: seq<A>, s2: seq<A>, j: nat, f: A --> B)
    requires s1 != [] && j < |s2|
    requires forall y :: y in s1 ==> f.requires(y)
    requires forall y :: y in s2 ==> f.requires(y)
    ensures forall y :: y in s1[1..] ==> f.requires(y)
    ensures forall y :: y in s2[..j] + [s2[j]] + s2[j + 1..] ==> f.requires(y)
    ensures forall y :: y in s2[..j] + s2[j + 1..] ==> f.requires(y)
  {
    assert s2 == s2[..j] + [s2[j]] + s2[j + 1..];
    assert forall y :: y in s1[1..] ==> y in s1;
    assert forall y :: y in s2[..j] + s2[j + 1..] ==> y in s2;
  }

  lemma PermutationStep<A, B>(left: seq<A>, x: A, right: seq<A>, tail: seq<A>, f: A --> B)
    requires forall y :: y in left + [x] + right ==> f.requires(y)
    requires forall y :: y in tail ==> f.requires(y)
    requires multiset(Map(tail, f)) == multiset(Map(left + right, f))
    ensures multiset(Map([x] + tail, f)) == multiset(Map(left + [x] + right, f))
  {
    var l, r, t := Map(left, f), Map(right, f), Map(tail, f);
    assert Map(left + [x] + right, f) == l + [f(x)] + r;
    assert Map(left + right, f) == l + r;
    assert Map([x] + tail, f) == [f(x)] + t;
    calc {
      multiset(Map(left + [x] + right, f));
      multiset(l) + multiset{f(x)} + multiset(r);
      multiset{f(x)} + multiset(l + r);
      multiset{f(x)} + multiset(t);
      multiset(Map([x] + tail, f));
    }
  }

  // ---------------------------------------------------------------------
  // Step 1: drop the devices that never reported a supervisor version

  /** `o.supervisor_version !== null`. */
  predicate HasSupervisor(d: Device) {
    d.supervisorVersion.Some?
  }

  // ---------------------------------------------------------------------
  // Step 2: count the devices by version key

  /** The keys `getVersion` gives the devices, in order, or the error of
      the first device it throws on. */
  function VersionKeys(parse: string -> Option<string>, devices: seq<Device>): (r: Result<seq<string>, VersionError>)
    ensures r.Ok? <==> forall d :: d in devices ==> GetVersion(parse, d).Ok?
    ensures r.Ok? ==> |r.value| == |devices|
    ensures r.Ok? ==> forall i :: 0 <= i < |devices| ==> GetVersion(parse, devices[i]) == Ok(r.value[i])
    decreases |devices|
  {
    if devices == [] then Ok([])
    else
      assert devices == [devices[0]] + devices[1..];
      match GetVersion(parse, devices[0])
      case Err(e) => Err(e)
      case Ok(key) =>
        match VersionKeys(parse, devices[1..])
        case Err(e) => Err(e)
        case Ok(keys) => Ok([key] + keys)
  }

  /** The keys are determined position by position: a list of keys that
      `getVersion` gives the devices one by one is what the map yields. */
  lemma {:induction false} VersionKeysOf(parse: string -> Option<string>, devices: seq<Device>, keys: seq<string>)
    requires |devices| == |keys|
    requires forall i :: 0 <= i < |devices| ==> GetVersion(parse, devices[i]) == Ok(keys[i])
    ensures VersionKeys(parse, devices) == Ok(keys)
    decreases |devices|
  {
    if devices != [] {
      var rest, tail := devices[1..], keys[1..];
      forall i | 0 <= i < |rest|
        ensures GetVersion(parse, rest[i]) == Ok(tail[i])
      {
        assert rest[i] == devices[i + 1] && tail[i] == keys[i + 1];
      }
      VersionKeysOf(parse, rest, tail);
      VersionKeysCons(parse, devices, keys[0], tail);
      assert keys == [keys[0]] + tail;
    }
  }

  /** The keys of a non-empty list: that of its first device followed by
      those of the rest. */
  lemma VersionKeysCons(parse: string -> Option<string>, devices: seq<Device>, key: string, tail: seq<string>)
    requires devices != [] && GetVersion(parse, devices[0]) == Ok(key)
    requires VersionKeys(parse, devices[1..]) == Ok(tail)
    ensures VersionKeys(parse, devices) == Ok([key] + tail)
  {
  }

  /** One device that `getVersion` throws on makes the whole map throw. */
  lemma VersionKeysErr(parse: string -> Option<string>, devices: seq<Device>, i: nat)
    requires i < |devices| && GetVersion(parse, devices[i]).Err?
    ensures VersionKeys(parse, devices).Err?
  {
    assert devices[i] in devices;
  }

  /** The count of every key that occurs in `keys`. */
  function KeyCounts(keys: seq<string>): (counts: map<string, nat>)
    ensures forall k :: k in counts <==> k in keys
    ensures forall k :: k in counts ==> counts[k] == multiset(keys)[k]
  {
    map k | k in keys :: multiset(keys)[k]
  }

  lemma KeyCountsSnoc(keys: seq<string>, key: string)
    ensures KeyCounts(keys + [key])
      == KeyCounts(keys)[key := if key in keys then KeyCounts(keys)[key] + 1 else 1]
  {
    assert multiset(keys + [key]) == multiset(keys) + multiset{key};
    assert forall k :: k in keys + [key] <==> k in keys || k == key;
  }

  /** Counting one more key: a key already seen keeps the order and gets
      its count incremented, a new key is appended with count 1. */
  lemma TallyStep(seen: seq<string>, key: string)
    ensures key in KeyCounts(seen) ==>
      && Dedup(seen + [key]) == Dedup(seen)
      && KeyCounts(seen + [key]) == KeyCounts(seen)[key := KeyCounts(seen)[key] + 1]
    ensures key !in KeyCounts(seen) ==>
      && Dedup(seen + [key]) == Dedup(seen) + [key]
      && KeyCounts(seen + [key]) == KeyCounts(seen)[key := 1]
  {
    KeyCountsSnoc(seen, key);
    DedupSnoc(seen, key);
  }

  /** The keys of the first `|seen| + 1` devices, one more key seen. */
  lemma KeysSnoc(parse: string -> Option<string>, devices: seq<Device>, seen: seq<string>, key: string)
    requires |seen| < |devices|
    requires forall j :: 0 <= j < |seen| ==> GetVersion(parse, devices[j]) == Ok(seen[j])
    requires GetVersion(parse, devices[|seen|]) == Ok(key)
    ensures forall j :: 0 <= j < |seen| + 1 ==> GetVersion(parse, devices[j]) == Ok((seen + [key])[j])
  {
  }

  /** `_.countBy(devices, getVersion)`: one pass over the devices that adds
      a key with count 1 the first time it is seen and increments its count
      afterwards; the first device `getVersion` throws on aborts it. */
  method CountBy(parse: string -> Option<string>, devices: seq<Device>) returns (r: Result<Tally, VersionError>)
    ensures r.Ok? <==> VersionKeys(parse, devices).Ok?
    ensures r.Ok? ==> r.value == Tally(Dedup(VersionKeys(parse, devices).value), KeyCounts(VersionKeys(parse, devices).value))
  {
    var order: seq<string> := [];
    var counts: map<string, nat> := map[];
    ghost var seen: seq<string> := [];
    var i := 0;
    while i < |devices|
      invariant 0 <= i <= |devices|
      invariant |seen| == i
      invariant forall j :: 0 <= j < i ==> GetVersion(parse, devices[j]) == Ok(seen[j])
      invariant order == Dedup(seen)
      invariant counts == KeyCounts(seen)
    {
      match GetVersion(parse, devices[i]) {
        case Err(e) =>
          VersionKeysErr(parse, devices, i);
          return Err(e);
        case Ok(key) =>
          TallyStep(seen, key);
          if key in counts {
            counts := counts[key := counts[key] + 1];
          } else {
            counts := counts[key := 1];
            order := order + [key];
          }
          KeysSnoc(parse, devices, seen, key);
          seen := seen + [key];
      }
      i := i + 1;
    }
    VersionKeysOf(parse, devices, seen);
    return Ok(Tally(order, counts));
  }

  // ---------------------------------------------------------------------
  // Step 3: split every key back into a group

  /** `key.split("%")` made into a group: `os` is the piece before the first
      `%`, `supervisor` the piece after it. */
  function SplitGroup(key: string, count: nat): (g: Group)
    requires KeySeparator in key
    ensures g.count == count
    ensures KeySeparator !in g.os && KeySeparator !in g.supervisor
  {
    var parts := Split(key, KeySeparator);
    Group(parts[0], parts[1], count)
  }

  /** The callback of the `_.forEach` over the tally. */
  function GroupMaker(counts: map<string, nat>): (f: string --> Group)
    ensures forall key :: key in counts && KeySeparator in key ==> f.requires(key)
    ensures forall key :: key in counts && KeySeparator in key ==> f(key) == SplitGroup(key, counts[key])
  {
    key requires key in counts && KeySeparator in key => SplitGroup(key, counts[key])
  }

  /** The groups made from the keys of `order`, in that order. */
  function GroupsOf(order: seq<string>, counts: map<string, nat>): (groups: seq<Group>)
    requires forall k :: k in order ==> k in counts && KeySeparator in k
    ensures |groups| == |order|
    ensures forall j :: 0 <= j < |order| ==> groups[j] == SplitGroup(order[j], counts[order[j]])
  {
    Map(order, GroupMaker(counts))
  }

  /** The `_.forEach` over the tally that pushes one group per key. */
  method ToGroups(tally: Tally) returns (groups: seq<Group>)
    requires forall k :: k in tally.order ==> k in tally.counts && KeySeparator in k
    ensures groups == GroupsOf(tally.order, tally.counts)
    ensures |groups| == |tally.order|
    ensures forall i :: 0 <= i < |groups| ==> groups[i].count == tally.counts[tally.order[i]]
  {
    groups := [];
    for i := 0 to |tally.order|
      invariant |groups| == i
      invariant forall j :: 0 <= j < i ==> groups[j] == GroupMaker(tally.counts)(tally.order[j])
    {
      var key := tally.order[i];
      assert key in tally.order;
      groups := groups + [SplitGroup(key, tally.counts[key])];
    }
  }

  /** A key in which splitting on the separator and joining again is the
      identity. */
  predicate JoinsBack(key: string) {
    KeySeparator in key && Combine(SplitGroup(key, 0).os, SplitGroup(key, 0).supervisor) == key
  }

  /** Splitting a key made by `Combine` from separator-free parts gives back
      those parts. */
  lemma SplitGroupOfCombine(os: string, supervisor: string, count: nat)
    requires KeySeparator !in os && KeySeparator !in supervisor
    ensures SplitGroup(Combine(os, supervisor), count) == Group(os, supervisor, count)
    ensures JoinsBack(Combine(os, supervisor))
  {
    SplitJoin2(os, supervisor, KeySeparator);
  }

  // ---------------------------------------------------------------------
  // Step 4: drop the groups whose OS version is "Unknown"

  /** `o.os !== "Unknown"`. */
  predicate IsKnown(g: Group) {
    g.os != UnknownOs
  }

  // ---------------------------------------------------------------------
  // The aggregation as a whole

  /** The groups counted from `devices` (steps 1 to 3), before the
      "Unknown" filter, or the error counting throws. */
  function CountedGroups(parse: string -> Option<string>, devices: seq<Device>): (r: Result<seq<Group>, VersionError>)
  {
    var supervised := Filter(devices, HasSupervisor);
    match VersionKeys(parse, supervised)
    case Err(e) => Err(e)
    case Ok(keys) =>
      assert forall k :: k in keys ==> k in KeyCounts(keys) && KeySeparator in k by {
        forall k | k in keys ensures KeySeparator in k {
          var i :| 0 <= i < |keys| && keys[i] == k;
        }
      }
      Ok(GroupsOf(Dedup(keys), KeyCounts(keys)))
  }

  /** The groups of the report before sorting (steps 1 to 4). */
  function Aggregate(parse: string -> Option<string>, devices: seq<Device>): (r: Result<seq<Group>, VersionError>)
  {
    match CountedGroups(parse, devices)
    case Err(e) => Err(e)
    case Ok(groups) => Ok(Filter(groups, IsKnown))
  }
}

/** What the aggregation promises: counting conserves the devices, groups
    are distinct, every count is the number of devices with that key, and
    the result does not depend on the order of the device records. */
module AggregatorProperties {
  import opened Wrappers
  import opened Version
  import opened Aggregator
  import Semver

  /** The sum of the counts of `groups`. */
  function TotalCount(groups: seq<Group>): nat {
    if groups == [] then 0 else TotalCount(groups[..|groups| - 1]) + groups[|groups| - 1].count
  }

  /** No two groups share both their OS and their supervisor version. */
  predicate UniqueVersions(groups: seq<Group>) {
    forall i, j :: 0 <= i < j < |groups| ==>
      groups[i].os != groups[j].os || groups[i].supervisor != groups[j].supervisor
  }

  lemma GroupsOfSnoc(order: seq<string>, counts: map<string, nat>, key: string)
    requires forall k :: k in order ==> k in counts && KeySeparator in k
    requires key in counts && KeySeparator in key
    ensures GroupsOf(order + [key], counts) == GroupsOf(order, counts) + [SplitGroup(key, counts[key])]
  {
  }

  /** One more group adds its count to the total. */
  lemma TotalCountSnoc(groups: seq<Group>, g: Group)
    ensures TotalCount(groups + [g]) == TotalCount(groups) + g.count
  {
    assert (groups + [g])[..|groups|] == groups;
  }

  /** One more key adds its count to the total of the groups made. */
  lemma TotalCountOfSnoc(order: seq<string>, counts: map<string, nat>, key: string)
    requires forall k :: k in order ==> k in counts && KeySeparator in k
    requires key in counts && KeySeparator in key
    ensures forall k :: k in order + [key] ==> k in counts && KeySeparator in k
    ensures TotalCount(GroupsOf(order + [key], counts)) == TotalCount(GroupsOf(order, counts)) + counts[key]
  {
    GroupsOfSnoc(order, counts, key);
    TotalCountSnoc(GroupsOf(order, counts), SplitGroup(key, counts[key]));
  }

  /** The sum of the counts of the keys of `order`. */
  function SumCounts(order: seq<string>, counts: map<string, nat>): nat
    requires forall k :: k in order ==> k in counts
  {
    if order == [] then 0
    else
      assert forall k :: k in order[..|order| - 1] ==> k in order;
      SumCounts(order[..|order| - 1], counts) + counts[order[|order| - 1]]
  }

  /** The total count of the groups made from `order` is the sum of the
      counts of its keys. */
  lemma {:induction false} TotalCountIsSum(order: seq<string>, counts: map<string, nat>)
    requires forall k :: k in order ==> k in counts && KeySeparator in k
    ensures TotalCount(GroupsOf(order, counts)) == SumCounts(order, counts)
  {
    if order != [] {
      var prefix, last := order[..|order| - 1], order[|order| - 1];
      assert order == prefix + [last];
      assert forall k :: k in prefix ==> k in order;
      TotalCountOfSnoc(prefix, counts, last);
      TotalCountIsSum(prefix, counts);
    }
  }

  /** The sum over `order` does not see the count of a key outside it. */
  lemma {:induction false} SumCountsIgnores(order: seq<string>, counts: map<string, nat>, key: string, n: nat)
    requires forall k :: k in order ==> k in counts
    requires key !in order
    ensures SumCounts(order, counts[key := n]) == SumCounts(order, counts)
  {
    if order != [] {
      var prefix := order[..|order| - 1];
      assert forall k :: k in prefix ==> k in order;
      SumCountsIgnores(prefix, counts, key, n);
    }
  }

  /** Incrementing the count of one key of a repetition-free order increases
      the sum by one. */
  lemma {:induction false} SumCountsIncrement(order: seq<string>, counts: map<string, nat>, key: string)
    requires Distinct(order)
    requires forall k :: k in order ==> k in counts
    requires key in order
    ensures SumCounts(order, counts[key := counts[key] + 1]) == SumCounts(order, counts) + 1
  {
    var prefix, last := order[..|order| - 1], order[|order| - 1];
    assert order == prefix + [last];
    assert forall k :: k in prefix ==> k in order;
    if last == key {
      assert key !in prefix;
      SumCountsIgnores(prefix, counts, key, counts[key] + 1);
    } else {
      assert key in prefix;
      assert Distinct(prefix);
      SumCountsIncrement(prefix, counts, key);
    }
  }

  /** The counts of the tally of `keys` add up to the number of keys. */
  lemma {:induction false} TallySum(keys: seq<string>)
    ensures forall k :: k in Dedup(keys) ==> k in KeyCounts(keys)
    ensures SumCounts(Dedup(keys), KeyCounts(keys)) == |keys|
  {
    if keys != [] {
      var s, key := keys[..|keys| - 1], keys[|keys| - 1];
      assert keys == s + [key];
      TallySum(s);
      TallyStep(s, key);
      var d, c := Dedup(s), KeyCounts(s);
      if key in c {
        SumCountsIncrement(d, c, key);
      } else {
        SumCountsIgnores(d, c, key, 1);
        assert (d + [key])[..|d|] == d;
      }
    }
  }

  /** The counts of the tally add up to the number of keys counted. */
  lemma TallyConservation(keys: seq<string>)
    requires forall k :: k in keys ==> KeySeparator in k
    ensures forall k :: k in Dedup(keys) ==> k in KeyCounts(keys) && KeySeparator in k
    ensures TotalCount(GroupsOf(Dedup(keys), KeyCounts(keys))) == |keys|
  {
    TallySum(keys);
    TotalCountIsSum(Dedup(keys), KeyCounts(keys));
  }

  /** Every key `getVersion` produces under a parser that yields version
      strings splits into two version strings that join back to the key. */
  lemma KeysJoinBack(parse: string -> Option<string>, devices: seq<Device>)
    requires Semver.ParsesToVersionStrings(parse)
    requires VersionKeys(parse, devices).Ok?
    ensures forall k :: k in VersionKeys(parse, devices).value ==>
      && JoinsBack(k)
      && Semver.IsVersionString(SplitGroup(k, 0).os)
      && Semver.IsVersionString(SplitGroup(k, 0).supervisor)
  {
    var keys := VersionKeys(parse, devices).value;
    forall k | k in keys
      ensures JoinsBack(k)
      ensures Semver.IsVersionString(SplitGroup(k, 0).os)
      ensures Semver.IsVersionString(SplitGroup(k, 0).supervisor)
    {
      var i :| 0 <= i < |keys| && keys[i] == k;
      var d := devices[i];
      var os, supervisor := OsVersion(parse, d), parse(d.supervisorVersion.value).value;
      assert k == Combine(os, supervisor);
      OsVersionIsVersionString(parse, d);
      NotInVersionString(os, KeySeparator);
      NotInVersionString(supervisor, KeySeparator);
      SplitGroupOfCombine(os, supervisor, 0);
    }
  }

  /** Groups made from distinct keys that join back have distinct versions. */
  lemma GroupsOfUnique(order: seq<string>, counts: map<string, nat>)
    requires Distinct(order)
    requires forall k :: k in order ==> k in counts && KeySeparator in k && JoinsBack(k)
    ensures UniqueVersions(GroupsOf(order, counts))
  {
    var groups := GroupsOf(order, counts);
    forall i, j | 0 <= i < j < |groups|
      ensures groups[i].os != groups[j].os || groups[i].supervisor != groups[j].supervisor
    {
      assert order[i] in order && order[j] in order;
    }
  }

  /** The keys counted for `devices`: those of the devices that have a
      supervisor version. */
  function CountedKeys(parse: string -> Option<string>, devices: seq<Device>): (keys: seq<string>)
    requires VersionKeys(parse, Filter(devices, HasSupervisor)).Ok?
  {
    VersionKeys(parse, Filter(devices, HasSupervisor)).value
  }

  /** Each group made from the tally of `keys` stands for one key of
      `keys` and carries that key's number of occurrences. */
  lemma TallyGroupsMembers(keys: seq<string>)
    requires forall k :: k in keys ==> JoinsBack(k)
    ensures forall k :: k in Dedup(keys) ==> k in KeyCounts(keys) && KeySeparator in k
    ensures var groups := GroupsOf(Dedup(keys), KeyCounts(keys));
      forall g :: g in groups ==>
        && Combine(g.os, g.supervisor) in keys
        && g.count == multiset(keys)[Combine(g.os, g.supervisor)] >= 1
        && g == SplitGroup(Combine(g.os, g.supervisor), g.count)
  {
    var order, counts := Dedup(keys), KeyCounts(keys);
    var groups := GroupsOf(order, counts);
    forall g | g in groups
      ensures Combine(g.os, g.supervisor) in keys
      ensures g.count == multiset(keys)[Combine(g.os, g.supervisor)] >= 1
      ensures g == SplitGroup(Combine(g.os, g.supervisor), g.count)
    {
      var i :| 0 <= i < |groups| && groups[i] == g;
      var k := order[i];
      assert k in order;
      assert g == SplitGroup(k, counts[k]);
      assert Combine(g.os, g.supervisor) == k;
    }
  }

  /** Every key of `keys` has its group in the tally of `keys`. */
  lemma TallyGroupsCover(keys: seq<string>)
    requires forall k :: k in keys ==> JoinsBack(k)
    ensures forall k :: k in Dedup(keys) ==> k in KeyCounts(keys) && KeySeparator in k
    ensures var groups := GroupsOf(Dedup(keys), KeyCounts(keys));
      forall k :: k in keys ==> exists g :: g in groups && Combine(g.os, g.supervisor) == k
  {
    var order, counts := Dedup(keys), KeyCounts(keys);
    var groups := GroupsOf(order, counts);
    forall k | k in keys
      ensures exists g :: g in groups && Combine(g.os, g.supervisor) == k
    {
      assert k in order;
      var i :| 0 <= i < |order| && order[i] == k;
      assert groups[i] in groups;
    }
  }

  /** The counted groups (before the "Unknown" filter): their counts add up
      to the number of devices that have a supervisor version; no two share
      both versions; each count is the number of devices with the group's
      key, at least one; every key counted has its group; and both versions
      of a group are version strings (so hold no `%` and no tab). */
  lemma CountedGroupsSpec(parse: string -> Option<string>, devices: seq<Device>)
    requires Semver.ParsesToVersionStrings(parse)
    requires CountedGroups(parse, devices).Ok?
    ensures VersionKeys(parse, Filter(devices, HasSupervisor)).Ok?
    ensures var groups, keys := CountedGroups(parse, devices).value, CountedKeys(parse, devices);
      && TotalCount(groups) == |Filter(devices, HasSupervisor)|
      && UniqueVersions(groups)
      && (forall g :: g in groups ==>
            && Combine(g.os, g.supervisor) in keys
            && g.count == multiset(keys)[Combine(g.os, g.supervisor)] >= 1
            && Semver.IsVersionString(g.os) && Semver.IsVersionString(g.supervisor))
      && (forall k :: k in keys ==> exists g :: g in groups && Combine(g.os, g.supervisor) == k)
  {
    var supervised := Filter(devices, HasSupervisor);
    var keys := VersionKeys(parse, supervised).value;
    var order, counts := Dedup(keys), KeyCounts(keys);
    var groups := CountedGroups(parse, devices).value;
    assert groups == GroupsOf(order, counts);
    KeysJoinBack(parse, supervised);
    TallyConservation(keys);
    GroupsOfUnique(order, counts);
    TallyGroupsMembers(keys);
    TallyGroupsCover(keys);
    forall g | g in groups
      ensures Semver.IsVersionString(g.os) && Semver.IsVersionString(g.supervisor)
    {
      assert g == SplitGroup(Combine(g.os, g.supervisor), g.count);
    }
  }

  /** `getVersion` as a partial function: defined where it does not throw. */
  function KeyOf(parse: string -> Option<string>): (f: Device --> string)
    ensures forall d :: GetVersion(parse, d).Ok? ==> f.requires(d) && f(d) == GetVersion(parse, d).value
  {
    d requires GetVersion(parse, d).Ok? => GetVersion(parse, d).value
  }

  lemma VersionKeysAsMap(parse: string -> Option<string>, devices: seq<Device>)
    requires VersionKeys(parse, devices).Ok?
    ensures forall d :: d in devices ==> KeyOf(parse).requires(d)
    ensures VersionKeys(parse, devices).value == Map(devices, KeyOf(parse))
  {
  }

  /** Two permutations of one another have the same tally. */
  lemma TallyPermutation(keys1: seq<string>, keys2: seq<string>)
    requires multiset(keys1) == multiset(keys2)
    ensures KeyCounts(keys1) == KeyCounts(keys2)
    ensures multiset(Dedup(keys1)) == multiset(Dedup(keys2))
  {
    SameElements(keys1, keys2);
    DistinctSameElements(Dedup(keys1), Dedup(keys2));
  }

  lemma FilterPermutation<T(!new)>(s1: seq<T>, s2: seq<T>, keep: T -> bool)
    requires multiset(s1) == multiset(s2)
    ensures multiset(Filter(s1, keep)) == multiset(Filter(s2, keep))
  {
    FilterMultiset(s1, keep);
    FilterMultiset(s2, keep);
  }

  lemma VersionKeysPermutation(parse: string -> Option<string>, s1: seq<Device>, s2: seq<Device>)
    requires multiset(s1) == multiset(s2)
    ensures VersionKeys(parse, s1).Ok? <==> VersionKeys(parse, s2).Ok?
    ensures VersionKeys(parse, s1).Ok? ==>
      multiset(VersionKeys(parse, s1).value) == multiset(VersionKeys(parse, s2).value)
  {
    SameElements(s1, s2);
    if VersionKeys(parse, s1).Ok? {
      VersionKeysAsMap(parse, s1);
      VersionKeysAsMap(parse, s2);
      MapPermutation(s1, s2, KeyOf(parse));
    }
  }

  lemma KeysHaveSeparator(parse: string -> Option<string>, devices: seq<Device>)
    requires VersionKeys(parse, devices).Ok?
    ensures forall k :: k in VersionKeys(parse, devices).value ==> KeySeparator in k
  {
    var keys := VersionKeys(parse, devices).value;
    forall k | k in keys ensures KeySeparator in k {
      var i :| 0 <= i < |keys| && keys[i] == k;
    }
  }

  lemma TallyGroupsPermutation(keys1: seq<string>, keys2: seq<string>)
    requires multiset(keys1) == multiset(keys2)
    requires forall k :: k in keys1 ==> KeySeparator in k
    ensures forall k :: k in Dedup(keys1) ==> k in KeyCounts(keys1) && KeySeparator in k
    ensures forall k :: k in Dedup(keys2) ==> k in KeyCounts(keys2) && KeySeparator in k
    ensures multiset(GroupsOf(Dedup(keys1), KeyCounts(keys1))) == multiset(GroupsOf(Dedup(keys2), KeyCounts(keys2)))
  {
    SameElements(keys1, keys2);
    TallyPermutation(keys1, keys2);
    var counts := KeyCounts(keys1);
    assert forall k :: k in Dedup(keys1) ==> GroupMaker(counts).requires(k);
    MapPermutation(Dedup(keys1), Dedup(keys2), GroupMaker(counts));
  }

  /** Permuting the device records permutes the counted groups: the
      multiset of `(os, supervisor, count)` triples, and whether counting
      throws, do not depend on the order of the records. */
  lemma CountedGroupsPermutation(parse: string -> Option<string>, devices1: seq<Device>, devices2: seq<Device>)
    requires multiset(devices1) == multiset(devices2)
    ensures CountedGroups(parse, devices1).Ok? <==> CountedGroups(parse, devices2).Ok?
    ensures CountedGroups(parse, devices1).Ok? ==>
      multiset(CountedGroups(parse, devices1).value) == multiset(CountedGroups(parse, devices2).value)
  {
    var s1, s2 := Filter(devices1, HasSupervisor), Filter(devices2, HasSupervisor);
    FilterPermutation(devices1, devices2, HasSupervisor);
    VersionKeysPermutation(parse, s1, s2);
    if VersionKeys(parse, s1).Ok? {
      var keys1, keys2 := VersionKeys(parse, s1).value, VersionKeys(parse, s2).value;
      KeysHaveSeparator(parse, s1);
      TallyGroupsPermutation(keys1, keys2);
      assert CountedGroups(parse, devices1) == Ok(GroupsOf(Dedup(keys1), KeyCounts(keys1)));
      assert CountedGroups(parse, devices2) == Ok(GroupsOf(Dedup(keys2), KeyCounts(keys2)));
    }
  }

  /** Permuting the device records permutes the groups of the report. */
  lemma AggregatePermutation(parse: string -> Option<string>, devices1: seq<Device>, devices2: seq<Device>)
    requires multiset(devices1) == multiset(devices2)
    ensures Aggregate(parse, devices1).Ok? <==> Aggregate(parse, devices2).Ok?
    ensures Aggregate(parse, devices1).Ok? ==>
      multiset(Aggregate(parse, devices1).value) == multiset(Aggregate(parse, devices2).value)
  {
    CountedGroupsPermutation(parse, devices1, devices2);
    if CountedGroups(parse, devices1).Ok? {
      FilterPermutation(CountedGroups(parse, devices1).value, CountedGroups(parse, devices2).value, IsKnown);
    }
  }

  /** The groups of the report are exactly the counted groups whose OS
      version is not "Unknown", with their counts unchanged: the filter
      runs after counting. */
  lemma AggregateDropsUnknown(parse: string -> Option<string>, devices: seq<Device>)
    ensures Aggregate(parse, devices).Ok? <==> CountedGroups(parse, devices).Ok?
    ensures Aggregate(parse, devices).Ok? ==>
      forall g :: multiset(Aggregate(parse, devices).value)[g]
        == if g.os == UnknownOs then 0 else multiset(CountedGroups(parse, devices).value)[g]
  {
    if CountedGroups(parse, devices).Ok? {
      FilterMultiset(CountedGroups(parse, devices).value, IsKnown);
    }
  }
}
