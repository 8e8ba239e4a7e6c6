/** `getDevices`, the version-scoring pipeline: fetch the devices with
    retries, aggregate them by version pair, sort the groups newest first
    and render the report. */
module FleetScore {
  import opened Wrappers
  import opened Strings
  import opened Version
  import opened Retry
  import opened Aggregator
  import opened AggregatorProperties
  import opened Reporter
  import Semver

  /** The number of attempts `getDevices` allows the remote call. */
  const MaxAttempts: int := 5

  /** The two errors that end a run: the remote call failed on every
      attempt, or a device's supervisor version did not parse. */
  datatype RunError<E> = FetchFailed(error: E) | CountFailed(reason: VersionError)

  /** `lines` renders, one line per group, an arrangement of `groups` that
      is sorted descending under the two-level comparator. */
  ghost predicate IsReport(compare: (string, string) -> int, groups: seq<Group>, lines: seq<string>) {
    exists sorted: seq<Group> ::
      && multiset(sorted) == multiset(groups)
      && SortedDescending(compare, sorted)
      && Renders(sorted, lines)
  }

  /** `lines` is `sorted` rendered, one line per group in order. */
  predicate Renders(sorted: seq<Group>, lines: seq<string>) {
    |lines| == |sorted| && forall i :: 0 <= i < |sorted| ==> lines[i] == Line(sorted[i])
  }

  /** Sort and reverse the groups in an array, as `.sort(...).reverse()`
      does. */
  method SortReport(compare: (string, string) -> int, groups: seq<Group>) returns (sorted: seq<Group>)
    requires Semver.IsTotalOrder(compare)
    ensures multiset(sorted) == multiset(groups)
    ensures SortedDescending(compare, sorted)
  {
    var a := new Group[|groups|](i requires 0 <= i < |groups| => groups[i]);
    assert a[..] == groups;
    SortDescending(compare, a);
    sorted := a[..];
  }

  /** The body of `getDevices` after login: the report lines, or the error
      that ends the run. The remote call is the oracle `call`; when it never
      yields a list (which five attempts rule out) the list is taken as
      empty, as `_.filter(undefined)` does. */
  method GetDevices<E>(lib: Semver.Library, call: nat -> Attempt<seq<Device>, E>) returns (r: Result<seq<string>, RunError<E>>)
    requires Semver.Valid(lib)
    ensures Retry.Retry(MaxAttempts, call).0.Thrown? ==> r == Err(FetchFailed(Retry.Retry(MaxAttempts, call).0.error))
    ensures Retry.Retry(MaxAttempts, call).0.Returned? ==>
      var devices := Retry.Retry(MaxAttempts, call).0.value;
      && (Aggregate(lib.parse, devices).Err? ==> r == Err(CountFailed(SupervisorUnparsed)))
      && (Aggregate(lib.parse, devices).Ok? ==> r.Ok? && IsReport(lib.compare, Aggregate(lib.parse, devices).value, r.value))
  {
    var outcome, _ := GetAllRetry(MaxAttempts, call);
    var devices: seq<Device>;
    match outcome {
      case Thrown(e) => return Err(FetchFailed(e));
      case Returned(ds) => devices := ds;
      case Undefined => devices := [];
    }
    var supervised := Filter(devices, HasSupervisor);
    var tally := CountBy(lib.parse, supervised);
    match tally {
      case Err(_) => return Err(CountFailed(SupervisorUnparsed));
      case Ok(t) =>
        KeysHaveSeparator(lib.parse, supervised);
        var fleetList := ToGroups(t);
        var known := Filter(fleetList, IsKnown);
        assert known == Aggregate(lib.parse, devices).value;
        var sorted := SortReport(lib.compare, known);
        var lines := Render(sorted);
        return Ok(lines);
    }
  }

  // ---------------------------------------------------------------------
  // What the report promises

  /** Groups of which no two share both versions are identified by their
      versions, and each occurs once. */
  lemma UniqueVersionsIdentify(groups: seq<Group>)
    requires UniqueVersions(groups)
    ensures VersionsIdentify(groups)
    ensures forall g :: multiset(groups)[g] <= 1
  {
    forall g, h | g in groups && h in groups && g.os == h.os && g.supervisor == h.supervisor
      ensures g == h
    {
      var i :| 0 <= i < |groups| && groups[i] == g;
      var j :| 0 <= j < |groups| && groups[j] == h;
      assert i == j;
    }
    assert Distinct(groups);
    DistinctMultiplicity(groups);
  }

  /** The "Unknown" filter keeps what the counted groups promise. */
  lemma KnownWellFormed(counted: seq<Group>)
    requires UniqueVersions(counted)
    requires forall g :: g in counted ==> Semver.IsVersionString(g.os) && Semver.IsVersionString(g.supervisor)
    ensures var groups := Filter(counted, IsKnown);
      && VersionsIdentify(groups)
      && (forall g :: multiset(groups)[g] <= 1)
      && (forall g :: g in groups ==> Semver.IsVersionString(g.os) && Semver.IsVersionString(g.supervisor))
  {
    UniqueVersionsIdentify(counted);
    FilterMultiset(counted, IsKnown);
  }

  /** The groups of the report: no two share both versions, no group occurs
      twice, and both versions of each are version strings. */
  lemma AggregateWellFormed(parse: string -> Option<string>, devices: seq<Device>)
    requires Semver.ParsesToVersionStrings(parse)
    requires Aggregate(parse, devices).Ok?
    ensures var groups := Aggregate(parse, devices).value;
      && VersionsIdentify(groups)
      && (forall g :: multiset(groups)[g] <= 1)
      && (forall g :: g in groups ==> Semver.IsVersionString(g.os) && Semver.IsVersionString(g.supervisor))
  {
    CountedGroupsSpec(parse, devices);
    KnownWellFormed(CountedGroups(parse, devices).value);
  }

  /** Two reports of the same multiset of groups, identified by their
      versions, are the same lines. */
  lemma ReportsAgree(compare: (string, string) -> int, groups1: seq<Group>, groups2: seq<Group>, lines1: seq<string>, lines2: seq<string>)
    requires Semver.IsTotalOrder(compare)
    requires multiset(groups1) == multiset(groups2)
    requires VersionsIdentify(groups1)
    requires IsReport(compare, groups1, lines1) && IsReport(compare, groups2, lines2)
    ensures lines1 == lines2
  {
    var sorted1: seq<Group> :| multiset(sorted1) == multiset(groups1) && SortedDescending(compare, sorted1)
      && Renders(sorted1, lines1);
    var sorted2: seq<Group> :| multiset(sorted2) == multiset(groups2) && SortedDescending(compare, sorted2)
      && Renders(sorted2, lines2);
    ArrangementsAgree(compare, groups1, sorted1, sorted2);
    SameRendering(sorted1, lines1, lines2);
  }

  /** Two descending arrangements of one multiset of groups identified by
      their versions are the same sequence. */
  lemma ArrangementsAgree(compare: (string, string) -> int, groups: seq<Group>, sorted1: seq<Group>, sorted2: seq<Group>)
    requires Semver.IsTotalOrder(compare)
    requires VersionsIdentify(groups)
    requires multiset(sorted1) == multiset(groups) && multiset(sorted2) == multiset(groups)
    requires SortedDescending(compare, sorted1) && SortedDescending(compare, sorted2)
    ensures sorted1 == sorted2
  {
    SameElements(sorted1, groups);
    assert VersionsIdentify(sorted1);
    StrictWhereVersionsIdentify(compare, sorted1);
    DescendingUnique(compare, sorted1, sorted2);
  }

  /** A sequence of groups renders one way only. */
  lemma SameRendering(sorted: seq<Group>, lines1: seq<string>, lines2: seq<string>)
    requires Renders(sorted, lines1) && Renders(sorted, lines2)
    ensures lines1 == lines2
  {
  }

  /** Whatever order the device records come in, the report is the same:
      it depends only on the multiset of records. */
  lemma ReportIndependentOfOrder(lib: Semver.Library, devices1: seq<Device>, devices2: seq<Device>, lines1: seq<string>, lines2: seq<string>)
    requires Semver.Valid(lib)
    requires multiset(devices1) == multiset(devices2)
    requires Aggregate(lib.parse, devices1).Ok?
    requires IsReport(lib.compare, Aggregate(lib.parse, devices1).value, lines1)
    requires Aggregate(lib.parse, devices2).Ok? ==> IsReport(lib.compare, Aggregate(lib.parse, devices2).value, lines2)
    ensures Aggregate(lib.parse, devices2).Ok?
    ensures lines1 == lines2
  {
    AggregatePermutation(lib.parse, devices1, devices2);
    AggregateWellFormed(lib.parse, devices1);
    ReportsAgree(lib.compare, Aggregate(lib.parse, devices1).value, Aggregate(lib.parse, devices2).value, lines1, lines2);
  }

  /** A report of distinct groups with version strings for versions reads
      back, line by line, as those groups sorted newest first, with no
      version pair on two lines. */
  lemma ReportOfGroups(compare: (string, string) -> int, groups: seq<Group>, lines: seq<string>)
    requires VersionsIdentify(groups)
    requires forall g :: multiset(groups)[g] <= 1
    requires forall g :: g in groups ==> Semver.IsVersionString(g.os) && Semver.IsVersionString(g.supervisor)
    requires IsReport(compare, groups, lines)
    ensures ParseReport(lines).Some?
    ensures multiset(ParseReport(lines).value) == multiset(groups)
    ensures SortedDescending(compare, ParseReport(lines).value)
    ensures UniqueVersions(ParseReport(lines).value)
  {
    var sorted: seq<Group> :| multiset(sorted) == multiset(groups) && SortedDescending(compare, sorted)
      && Renders(sorted, lines);
    ReadsBack(groups, sorted, lines);
  }

  /** The lines rendered from an arrangement `sorted` of distinct groups
      with version strings for versions read back as `sorted`, with no
      version pair twice. */
  lemma ReadsBack(groups: seq<Group>, sorted: seq<Group>, lines: seq<string>)
    requires VersionsIdentify(groups)
    requires forall g :: multiset(groups)[g] <= 1
    requires forall g :: g in groups ==> Semver.IsVersionString(g.os) && Semver.IsVersionString(g.supervisor)
    requires multiset(sorted) == multiset(groups)
    requires Renders(sorted, lines)
    ensures ParseReport(lines) == Some(sorted)
    ensures UniqueVersions(sorted)
  {
    SameElements(sorted, groups);
    forall g | g in sorted
      ensures '\t' !in g.os && '\t' !in g.supervisor
    {
      NotInVersionString(g.os, '\t');
      NotInVersionString(g.supervisor, '\t');
    }
    ParseRendered(sorted, lines);
    assert VersionsIdentify(sorted);
    NoVersionTwice(sorted);
  }

  /** The report of `devices` reads back, line by line, as the aggregated
      groups of `devices` sorted newest first, one line per group and no
      version pair on two lines. */
  lemma ReportLines(lib: Semver.Library, devices: seq<Device>, lines: seq<string>)
    requires Semver.Valid(lib)
    requires Aggregate(lib.parse, devices).Ok?
    requires IsReport(lib.compare, Aggregate(lib.parse, devices).value, lines)
    ensures ParseReport(lines).Some?
    ensures multiset(ParseReport(lines).value) == multiset(Aggregate(lib.parse, devices).value)
    ensures SortedDescending(lib.compare, ParseReport(lines).value)
    ensures UniqueVersions(ParseReport(lines).value)
  {
    AggregateWellFormed(lib.parse, devices);
    ReportOfGroups(lib.compare, Aggregate(lib.parse, devices).value, lines);
  }

  // ---------------------------------------------------------------------
  // A worked example

  /** Five device records: two on OS 2.0.0 with supervisor 10.0.0, one
      without an OS version, one with an OS version that does not parse,
      and one without a supervisor version. */
  const ExampleDevices: seq<Device> := [RecentDevice, RecentDevice, DeviceWithoutOs, DeviceWithBadOs, DeviceWithoutSupervisor]

  const RecentDevice: Device := Device(Some("2.0.0"), Some("10.0.0"))
  const DeviceWithoutOs: Device := Device(None, Some("9.0.0"))
  const DeviceWithBadOs: Device := Device(Some("bad"), Some("9.0.0"))
  const DeviceWithoutSupervisor: Device := Device(Some("1.0.0"), None)

  /** A parser that accepts the versions of the example as they are and
      rejects "bad". */
  predicate ParsesExample(parse: string -> Option<string>) {
    && parse("2.0.0") == Some("2.0.0")
    && parse("10.0.0") == Some("10.0.0")
    && parse("9.0.0") == Some("9.0.0")
    && parse("bad") == None
  }

  /** Of five records, the first four of which report a supervisor
      version, the filter keeps those four. */
  lemma SupervisedOfFive(d0: Device, d1: Device, d2: Device, d3: Device, d4: Device)
    requires HasSupervisor(d0) && HasSupervisor(d1) && HasSupervisor(d2) && HasSupervisor(d3)
    requires !HasSupervisor(d4)
    ensures Filter([d0, d1, d2, d3, d4], HasSupervisor) == [d0, d1, d2, d3]
  {
    var first := [d0, d1, d2, d3];
    assert [d0, d1, d2, d3, d4] == first + [d4];
    FilterAppend(first, [d4], HasSupervisor);
    FilterAll(first, HasSupervisor);
    assert [d4][1..] == [];
  }

  /** The key of each of the four records that report a supervisor
      version. */
  lemma ExampleDeviceKeys(parse: string -> Option<string>)
    requires ParsesExample(parse)
    ensures GetVersion(parse, RecentDevice) == Ok(Combine("2.0.0", "10.0.0"))
    ensures GetVersion(parse, DeviceWithoutOs) == Ok(Combine(PreReleaseOs, "9.0.0"))
    ensures GetVersion(parse, DeviceWithBadOs) == Ok(Combine(UnknownOs, "9.0.0"))
  {
    assert OsVersion(parse, RecentDevice) == "2.0.0";
    assert OsVersion(parse, DeviceWithoutOs) == PreReleaseOs;
    assert OsVersion(parse, DeviceWithBadOs) == UnknownOs;
  }

  /** Three distinct keys, the first one twice, keep their order of first
      occurrence. */
  lemma ExampleOrder(k1: string, k2: string, k3: string)
    requires k1 != k2 && k1 != k3 && k2 != k3
    ensures Dedup([k1, k1, k2, k3]) == [k1, k2, k3]
  {
    DedupRepeated(k1);
    DedupNew([k1, k1], [k1], k2);
    assert [k1, k1] + [k2] == [k1, k1, k2];
    DedupNew([k1, k1, k2], [k1, k2], k3);
    assert [k1, k1, k2] + [k3] == [k1, k1, k2, k3];
  }

  /** A key seen twice is kept once. */
  lemma DedupRepeated(k: string)
    ensures Dedup([k, k]) == [k]
  {
    DedupSnoc([], k);
    assert [] + [k] == [k];
    DedupSnoc([k], k);
    assert [k] + [k] == [k, k];
  }

  /** A key not seen before is appended. */
  lemma DedupNew(s: seq<string>, d: seq<string>, k: string)
    requires Dedup(s) == d && k !in d
    ensures Dedup(s + [k]) == d + [k]
  {
    DedupSnoc(s, k);
  }

  /** The counts of three distinct keys, the first one twice. */
  lemma ExampleCounts(k1: string, k2: string, k3: string)
    requires k1 != k2 && k1 != k3 && k2 != k3
    ensures KeyCounts([k1, k1, k2, k3]) == map[k1 := 2, k2 := 1, k3 := 1]
  {
    var keys := [k1, k1, k2, k3];
    assert multiset(keys)[k1] == 2 && multiset(keys)[k2] == 1 && multiset(keys)[k3] == 1;
  }

  /** The groups made from three distinct keys and their counts. */
  lemma GroupsOfThree(k1: string, k2: string, k3: string, c1: nat, c2: nat, c3: nat)
    requires k1 != k2 && k1 != k3 && k2 != k3
    requires KeySeparator in k1 && KeySeparator in k2 && KeySeparator in k3
    ensures forall k :: k in [k1, k2, k3] ==> k in map[k1 := c1, k2 := c2, k3 := c3] && KeySeparator in k
    ensures GroupsOf([k1, k2, k3], map[k1 := c1, k2 := c2, k3 := c3])
      == [SplitGroup(k1, c1), SplitGroup(k2, c2), SplitGroup(k3, c3)]
  {
    var counts := map[k1 := c1, k2 := c2, k3 := c3];
    assert counts[k1] == c1 && counts[k2] == c2 && counts[k3] == c3;
  }

  /** The "Unknown" filter on three groups, the last of them "Unknown". */
  lemma KnownOfThree(g1: Group, g2: Group, g3: Group)
    requires IsKnown(g1) && IsKnown(g2) && !IsKnown(g3)
    ensures Filter([g1, g2, g3], IsKnown) == [g1, g2]
  {
    assert [g3][1..] == [];
    assert Filter([g3], IsKnown) == [];
    assert [g2, g3][1..] == [g3];
    assert Filter([g2, g3], IsKnown) == [g2];
    assert [g1, g2, g3][1..] == [g2, g3];
  }

  /** The groups made from three distinct composite keys and their counts
      are the version pairs the keys were made of. */
  lemma GroupsOfCombined(os1: string, sup1: string, os2: string, sup2: string, os3: string, sup3: string, c1: nat, c2: nat, c3: nat)
    requires KeySeparator !in os1 && KeySeparator !in sup1
    requires KeySeparator !in os2 && KeySeparator !in sup2
    requires KeySeparator !in os3 && KeySeparator !in sup3
    requires Combine(os1, sup1) != Combine(os2, sup2) && Combine(os1, sup1) != Combine(os3, sup3)
    requires Combine(os2, sup2) != Combine(os3, sup3)
    ensures var k1, k2, k3 := Combine(os1, sup1), Combine(os2, sup2), Combine(os3, sup3);
      && (forall k :: k in [k1, k2, k3] ==> k in map[k1 := c1, k2 := c2, k3 := c3] && KeySeparator in k)
      && GroupsOf([k1, k2, k3], map[k1 := c1, k2 := c2, k3 := c3])
        == [Group(os1, sup1, c1), Group(os2, sup2, c2), Group(os3, sup3, c3)]
  {
    GroupsOfThree(Combine(os1, sup1), Combine(os2, sup2), Combine(os3, sup3), c1, c2, c3);
    SplitGroupOfCombine(os1, sup1, c1);
    SplitGroupOfCombine(os2, sup2, c2);
    SplitGroupOfCombine(os3, sup3, c3);
  }

  /** The keys of the example's records that report a supervisor version. */
  lemma ExampleSupervisedKeys(parse: string -> Option<string>)
    requires ParsesExample(parse)
    ensures VersionKeys(parse, Filter(ExampleDevices, HasSupervisor)) == Ok([
      Combine("2.0.0", "10.0.0"), Combine("2.0.0", "10.0.0"),
      Combine(PreReleaseOs, "9.0.0"), Combine(UnknownOs, "9.0.0")])
  {
    SupervisedOfFive(RecentDevice, RecentDevice, DeviceWithoutOs, DeviceWithBadOs, DeviceWithoutSupervisor);
    var k1, k2, k3 := Combine("2.0.0", "10.0.0"), Combine(PreReleaseOs, "9.0.0"), Combine(UnknownOs, "9.0.0");
    ExampleDeviceKeys(parse);
    VersionKeysOf(parse, [RecentDevice, RecentDevice, DeviceWithoutOs, DeviceWithBadOs], [k1, k1, k2, k3]);
  }

  /** No version of the example contains the key separator, and its three
      keys differ. */
  lemma ExampleVersionsSeparate()
    ensures KeySeparator !in "2.0.0" && KeySeparator !in "10.0.0" && KeySeparator !in "9.0.0"
    ensures KeySeparator !in PreReleaseOs && KeySeparator !in UnknownOs
    ensures Combine("2.0.0", "10.0.0") != Combine(PreReleaseOs, "9.0.0")
    ensures Combine("2.0.0", "10.0.0") != Combine(UnknownOs, "9.0.0")
    ensures Combine(PreReleaseOs, "9.0.0") != Combine(UnknownOs, "9.0.0")
  {
    assert "2.0.0" == ['2', '.', '0', '.', '0'];
    assert "10.0.0" == ['1', '0', '.', '0', '.', '0'];
    assert "9.0.0" == ['9', '.', '0', '.', '0'];
    FallbacksAreVersionStrings();
    NotInVersionString(PreReleaseOs, KeySeparator);
    NotInVersionString(UnknownOs, KeySeparator);
    assert Combine("2.0.0", "10.0.0")[0] == '2';
    assert Combine(PreReleaseOs, "9.0.0")[0] == '1';
    assert Combine(UnknownOs, "9.0.0")[0] == 'U';
  }

  /** The example is counted into three groups, one of them "Unknown". */
  lemma ExampleCounted(parse: string -> Option<string>)
    requires ParsesExample(parse)
    ensures CountedGroups(parse, ExampleDevices)
      == Ok([Group("2.0.0", "10.0.0", 2), Group(PreReleaseOs, "9.0.0", 1), Group(UnknownOs, "9.0.0", 1)])
  {
    ExampleSupervisedKeys(parse);
    ExampleVersionsSeparate();
    var k1, k2, k3 := Combine("2.0.0", "10.0.0"), Combine(PreReleaseOs, "9.0.0"), Combine(UnknownOs, "9.0.0");
    ExampleOrder(k1, k2, k3);
    ExampleCounts(k1, k2, k3);
    GroupsOfCombined("2.0.0", "10.0.0", PreReleaseOs, "9.0.0", UnknownOs, "9.0.0", 2, 1, 1);
  }

  /** The example aggregates into two groups: the record without a
      supervisor version is dropped, and the one whose OS version does not
      parse is counted as "Unknown" and then filtered out. */
  lemma ExampleAggregate(parse: string -> Option<string>)
    requires ParsesExample(parse)
    ensures Aggregate(parse, ExampleDevices) == Ok([Group("2.0.0", "10.0.0", 2), Group(PreReleaseOs, "9.0.0", 1)])
  {
    ExampleCounted(parse);
    var g1, g2, g3 := Group("2.0.0", "10.0.0", 2), Group(PreReleaseOs, "9.0.0", 1), Group(UnknownOs, "9.0.0", 1);
    assert g1.os[0] == '2' && g2.os[0] == '1' && UnknownOs[0] == 'U';
    KnownOfThree(g1, g2, g3);
  }

  /** The lines of the example's two groups. */
  lemma ExampleLines()
    ensures Line(Group("2.0.0", "10.0.0", 2)) == "2.0.0\t10.0.0\t2"
    ensures Line(Group(PreReleaseOs, "9.0.0", 1)) == "1.0.0-pre\t9.0.0\t1"
  {
    assert NatToString(2) == "2" && NatToString(1) == "1";
  }

  /** The only descending arrangement of two groups with different OS
      versions that the comparator orders one way only is the one that puts
      the newer first. */
  lemma TwoDescending(compare: (string, string) -> int, g1: Group, g2: Group, sorted: seq<Group>)
    requires g1.os != g2.os
    requires compare(g2.os, g1.os) <= 0 && compare(g1.os, g2.os) > 0
    requires multiset(sorted) == multiset([g1, g2]) && SortedDescending(compare, sorted)
    ensures sorted == [g1, g2]
  {
    assert !GroupLe(compare, g1, g2);
    assert SortedDescending(compare, [g1, g2]);
    assert StrictOn(compare, [g1, g2]);
    DescendingUnique(compare, [g1, g2], sorted);
  }

  /** The report of two such groups is their two lines, newer first. */
  lemma ReportOfTwo(compare: (string, string) -> int, g1: Group, g2: Group, lines: seq<string>)
    requires g1.os != g2.os
    requires compare(g2.os, g1.os) <= 0 && compare(g1.os, g2.os) > 0
    requires IsReport(compare, [g1, g2], lines)
    ensures lines == [Line(g1), Line(g2)]
  {
    var sorted: seq<Group> :| multiset(sorted) == multiset([g1, g2]) && SortedDescending(compare, sorted)
      && Renders(sorted, lines);
    TwoDescending(compare, g1, g2, sorted);
  }

  /** The report of the example, for any library that parses the example's
      versions as they are and orders 1.0.0-pre before 2.0.0:
      `2.0.0<TAB>10.0.0<TAB>2`, then `1.0.0-pre<TAB>9.0.0<TAB>1`. */
  lemma ExampleReport(lib: Semver.Library)
    requires Semver.Valid(lib)
    requires ParsesExample(lib.parse)
    requires lib.compare(PreReleaseOs, "2.0.0") < 0
    ensures Aggregate(lib.parse, ExampleDevices).Ok?
    ensures forall lines :: IsReport(lib.compare, Aggregate(lib.parse, ExampleDevices).value, lines) ==>
      lines == ["2.0.0\t10.0.0\t2", "1.0.0-pre\t9.0.0\t1"]
  {
    ExampleAggregate(lib.parse);
    var g1, g2 := Group("2.0.0", "10.0.0", 2), Group(PreReleaseOs, "9.0.0", 1);
    assert g1.os[0] == '2' && g2.os[0] == '1';
    assert lib.compare(g1.os, g2.os) > 0;
    ExampleLines();
    forall lines | IsReport(lib.compare, [g1, g2], lines)
      ensures lines == ["2.0.0\t10.0.0\t2", "1.0.0-pre\t9.0.0\t1"]
    {
      ReportOfTwo(lib.compare, g1, g2, lines);
    }
  }
}
