/** The reporter of `getDevices`: sort the groups in place by OS version and
    then by supervisor version under the library's `compare`, reverse them
    in place, and render one `os<TAB>supervisor<TAB>count` line per group. */
module Reporter {
  import opened Strings
  import opened Wrappers
  import opened Aggregator
  import AggregatorProperties
  import Semver

  /** The comparator handed to `.sort`: the supervisor versions decide when
      the OS versions are the same string, the OS versions otherwise. */
  function CompareGroups(compare: (string, string) -> int, a: Group, b: Group): int {
    if a.os == b.os then compare(a.supervisor, b.supervisor) else compare(a.os, b.os)
  }

  /** `a` may stand before `b` in an ascending sort. */
  predicate GroupLe(compare: (string, string) -> int, a: Group, b: Group) {
    CompareGroups(compare, a, b) <= 0
  }

  predicate SortedAscending(compare: (string, string) -> int, s: seq<Group>) {
    forall i, j :: 0 <= i < j < |s| ==> GroupLe(compare, s[i], s[j])
  }

  predicate SortedDescending(compare: (string, string) -> int, s: seq<Group>) {
    forall i, j :: 0 <= i < j < |s| ==> GroupLe(compare, s[j], s[i])
  }

  /** Under a total order, a pair the comparator puts out of order is in
      order the other way round. */
  lemma GroupLeFlip(compare: (string, string) -> int, a: Group, b: Group)
    requires Semver.IsTotalOrder(compare)
    requires CompareGroups(compare, a, b) > 0
    ensures GroupLe(compare, b, a)
  {
  }

  /** Under a total order, the two-level comparator is transitive. This needs
      the order to be antisymmetric: when `a` and `c` share an OS version
      that `b` does not have, `a.os <= b.os <= a.os` forces `b.os == a.os`. */
  lemma GroupLeTransitive(compare: (string, string) -> int, a: Group, b: Group, c: Group)
    requires Semver.IsTotalOrder(compare)
    requires GroupLe(compare, a, b) && GroupLe(compare, b, c)
    ensures GroupLe(compare, a, c)
  {
  }

  /** Under a total order, two groups in order both ways have the same
      versions. */
  lemma GroupLeAntisymmetric(compare: (string, string) -> int, a: Group, b: Group)
    requires Semver.IsTotalOrder(compare)
    requires GroupLe(compare, a, b) && GroupLe(compare, b, a)
    ensures a.os == b.os && a.supervisor == b.supervisor
  {
  }

  /** `.sort(comparator)` on the array of groups, as an insertion sort that
      swaps neighbours the comparator puts out of order. */
  method SortGroups(compare: (string, string) -> int, a: array<Group>)
    requires Semver.IsTotalOrder(compare)
    modifies a
    ensures SortedAscending(compare, a[..])
    ensures multiset(a[..]) == old(multiset(a[..]))
  {
    var i := 0;
    while i < a.Length
      invariant 0 <= i <= a.Length
      invariant SortedAscending(compare, a[..i])
      invariant multiset(a[..]) == old(multiset(a[..]))
    {
      InsertGroup(compare, a, i);
      i := i + 1;
    }
    assert a[..a.Length] == a[..];
  }

  /** One pass of the insertion sort: move `a[i]` down past every group the
      comparator puts after it, so that `a[..i + 1]` is sorted. */
  method InsertGroup(compare: (string, string) -> int, a: array<Group>, i: nat)
    requires Semver.IsTotalOrder(compare)
    requires i < a.Length
    requires SortedAscending(compare, a[..i])
    modifies a
    ensures SortedAscending(compare, a[..i + 1])
    ensures multiset(a[..]) == old(multiset(a[..]))
    ensures a[i + 1..] == old(a[i + 1..])
    ensures multiset(a[..i + 1]) == old(multiset(a[..i + 1]))
  {
    ghost var start := a[..];
    InsertingStart(compare, start, i);
    var j := i;
    while j > 0 && CompareGroups(compare, a[j - 1], a[j]) > 0
      invariant 0 <= j <= i
      invariant Passing(compare, a[..], start, i, j)
    {
      SwapDown(compare, a, start, i, j);
      j := j - 1;
    }
    PassingDone(compare, a[..], start, i, j);
  }

  /** One step of the pass: swap the moved group with the predecessor the
      comparator puts after it. */
  method SwapDown(compare: (string, string) -> int, a: array<Group>, ghost start: seq<Group>, i: nat, j: nat)
    requires Semver.IsTotalOrder(compare)
    requires 0 < j <= i < a.Length == |start|
    requires Passing(compare, a[..], start, i, j)
    requires CompareGroups(compare, a[j - 1], a[j]) > 0
    modifies a
    ensures a[..] == old(a[..])[j - 1 := old(a[j])][j := old(a[j - 1])]
    ensures Passing(compare, a[..], start, i, j - 1)
  {
    ghost var s := a[..];
    PassingSwap(compare, s, start, i, j);
    a[j - 1], a[j] := a[j], a[j - 1];
    assert a[..] == s[j - 1 := s[j]][j := s[j - 1]];
  }

  /** The state of the pass over `start` that has moved the group it
      inserts down to `j`: the pass invariant, the same groups as `start`,
      and everything after `i` untouched. */
  predicate Passing(compare: (string, string) -> int, s: seq<Group>, start: seq<Group>, i: int, j: int)
    requires 0 <= j <= i < |s| == |start|
  {
    Inserting(compare, s, i, j) && multiset(s) == multiset(start) && s[i + 1..] == start[i + 1..]
  }

  /** One swap of the pass. */
  lemma PassingSwap(compare: (string, string) -> int, s: seq<Group>, start: seq<Group>, i: int, j: int)
    requires Semver.IsTotalOrder(compare)
    requires 0 < j <= i < |s| == |start|
    requires Passing(compare, s, start, i, j)
    requires CompareGroups(compare, s[j - 1], s[j]) > 0
    ensures Passing(compare, s[j - 1 := s[j]][j := s[j - 1]], start, i, j - 1)
  {
    InsertingSwap(compare, s, i, j);
    SwapPermutation(s, j, i);
  }

  /** The end of the pass: the prefix up to `i` is sorted and holds the
      groups it held at the start, and the rest is untouched. */
  lemma PassingDone(compare: (string, string) -> int, s: seq<Group>, start: seq<Group>, i: int, j: int)
    requires Semver.IsTotalOrder(compare)
    requires 0 <= j <= i < |s| == |start|
    requires Passing(compare, s, start, i, j)
    requires j == 0 || CompareGroups(compare, s[j - 1], s[j]) <= 0
    ensures SortedAscending(compare, s[..i + 1])
    ensures multiset(s) == multiset(start) && s[i + 1..] == start[i + 1..]
    ensures multiset(s[..i + 1]) == multiset(start[..i + 1])
  {
    InsertingDone(compare, s, i, j);
    PrefixPermutation(start, s, i + 1);
  }

  /** Two permutations of one another that agree from `k` on are
      permutations of one another up to `k`. */
  lemma PrefixPermutation<T>(s: seq<T>, t: seq<T>, k: nat)
    requires k <= |s| == |t|
    requires multiset(s) == multiset(t) && s[k..] == t[k..]
    ensures multiset(s[..k]) == multiset(t[..k])
  {
    assert s == s[..k] + s[k..] && t == t[..k] + t[k..];
    assert multiset(s) == multiset(s[..k]) + multiset(s[k..]);
    assert multiset(t) == multiset(t[..k]) + multiset(t[k..]);
    assert multiset(s[..k]) == multiset(s) - multiset(s[k..]);
    assert multiset(t[..k]) == multiset(t) - multiset(t[k..]);
  }

  /** The state of an insertion pass that has moved the group it inserts
      down to `j`: every other pair up to `i` is in order, and the moved
      group is in order with everything after it. */
  predicate Inserting(compare: (string, string) -> int, s: seq<Group>, i: int, j: int)
    requires 0 <= j <= i < |s|
  {
    && (forall p, q :: 0 <= p < q <= i && p != j && q != j ==> GroupLe(compare, s[p], s[q]))
    && (forall q :: j < q <= i ==> GroupLe(compare, s[j], s[q]))
  }

  lemma InsertingStart(compare: (string, string) -> int, s: seq<Group>, i: int)
    requires 0 <= i < |s|
    requires SortedAscending(compare, s[..i])
    ensures Inserting(compare, s, i, i)
  {
    forall p, q | 0 <= p < q < i
      ensures GroupLe(compare, s[p], s[q])
    {
      assert s[p] == s[..i][p] && s[q] == s[..i][q];
    }
  }

  /** Swapping the moved group with a predecessor the comparator puts after
      it moves the pass one step down. */
  lemma InsertingSwap(compare: (string, string) -> int, s: seq<Group>, i: int, j: int)
    requires Semver.IsTotalOrder(compare)
    requires 0 < j <= i < |s|
    requires Inserting(compare, s, i, j)
    requires CompareGroups(compare, s[j - 1], s[j]) > 0
    ensures Inserting(compare, s[j - 1 := s[j]][j := s[j - 1]], i, j - 1)
  {
    GroupLeFlip(compare, s[j - 1], s[j]);
  }

  /** Swapping two neighbours keeps every element with its multiplicity and
      leaves everything after `i` alone. */
  lemma SwapPermutation<T>(s: seq<T>, j: int, i: int)
    requires 0 < j <= i < |s|
    ensures multiset(s[j - 1 := s[j]][j := s[j - 1]]) == multiset(s)
    ensures s[j - 1 := s[j]][j := s[j - 1]][i + 1..] == s[i + 1..]
  {
    var t := s[j - 1 := s[j]];
    assert multiset(t) == multiset(s) - multiset{s[j - 1]} + multiset{s[j]};
    assert multiset(t[j := s[j - 1]]) == multiset(t) - multiset{s[j]} + multiset{s[j - 1]};
  }

  /** A pass that stops, at the bottom or below a predecessor in order with
      the moved group, leaves `s[..i + 1]` sorted. */
  lemma InsertingDone(compare: (string, string) -> int, s: seq<Group>, i: int, j: int)
    requires Semver.IsTotalOrder(compare)
    requires 0 <= j <= i < |s|
    requires Inserting(compare, s, i, j)
    requires j == 0 || CompareGroups(compare, s[j - 1], s[j]) <= 0
    ensures SortedAscending(compare, s[..i + 1])
  {
    if j > 0 {
      forall p | 0 <= p < j - 1
        ensures GroupLe(compare, s[p], s[j])
      {
        GroupLeTransitive(compare, s[p], s[j - 1], s[j]);
      }
    }
    var t := s[..i + 1];
    forall p, q | 0 <= p < q < |t|
      ensures GroupLe(compare, t[p], t[q])
    {
      assert t[p] == s[p] && t[q] == s[q];
    }
  }

  /** `s` read backwards. */
  function Reversed<T>(s: seq<T>): (r: seq<T>)
    ensures |r| == |s|
  {
    seq(|s|, k requires 0 <= k < |s| => s[|s| - 1 - k])
  }

  /** Reversing keeps every element with its multiplicity. */
  lemma {:induction false} ReversedPermutation<T>(s: seq<T>)
    ensures multiset(Reversed(s)) == multiset(s)
  {
    if s != [] {
      var tail := s[1..];
      ReversedPermutation(tail);
      assert Reversed(s) == Reversed(tail) + [s[0]];
      assert s == [s[0]] + tail;
    }
  }

  /** Reversing an ascending sequence gives a descending one. */
  lemma ReversedDescending(compare: (string, string) -> int, s: seq<Group>)
    requires SortedAscending(compare, s)
    ensures SortedDescending(compare, Reversed(s))
  {
    var r := Reversed(s);
    forall i, j | 0 <= i < j < |r|
      ensures GroupLe(compare, r[j], r[i])
    {
      assert r[i] == s[|s| - 1 - i] && r[j] == s[|s| - 1 - j];
    }
  }

  /** `.reverse()` on the array of groups: swap the ends and move inwards. */
  method ReverseGroups(a: array<Group>)
    modifies a
    ensures a[..] == Reversed(old(a[..]))
  {
    ghost var original := a[..];
    var lo, hi := 0, a.Length;
    while lo + 1 < hi
      invariant 0 <= lo <= hi <= a.Length && lo + hi == a.Length
      invariant forall k :: 0 <= k < lo || hi <= k < a.Length ==> a[k] == original[a.Length - 1 - k]
      invariant forall k :: lo <= k < hi ==> a[k] == original[k]
    {
      a[lo], a[hi - 1] := a[hi - 1], a[lo];
      lo, hi := lo + 1, hi - 1;
    }
  }

  /** The sort followed by the reverse: a descending permutation. */
  method SortDescending(compare: (string, string) -> int, a: array<Group>)
    requires Semver.IsTotalOrder(compare)
    modifies a
    ensures SortedDescending(compare, a[..])
    ensures multiset(a[..]) == old(multiset(a[..]))
  {
    SortGroups(compare, a);
    ghost var ascending := a[..];
    ReverseGroups(a);
    ReversedDescending(compare, ascending);
    ReversedPermutation(ascending);
  }

  /** Two groups with the same versions are the same group. */
  predicate VersionsIdentify(groups: seq<Group>) {
    forall g, h :: g in groups && h in groups && g.os == h.os && g.supervisor == h.supervisor ==> g == h
  }

  /** Among `groups`, the comparator orders no two different groups both
      ways. */
  predicate StrictOn(compare: (string, string) -> int, groups: seq<Group>) {
    forall g, h :: g in groups && h in groups && GroupLe(compare, g, h) && GroupLe(compare, h, g) ==> g == h
  }

  /** A total order is strict on groups that versions identify. */
  lemma StrictWhereVersionsIdentify(compare: (string, string) -> int, groups: seq<Group>)
    requires Semver.IsTotalOrder(compare)
    requires VersionsIdentify(groups)
    ensures StrictOn(compare, groups)
  {
    forall g, h | g in groups && h in groups && GroupLe(compare, g, h) && GroupLe(compare, h, g)
      ensures g == h
    {
      GroupLeAntisymmetric(compare, g, h);
    }
  }

  lemma DescendingTail(compare: (string, string) -> int, s: seq<Group>)
    requires s != [] && SortedDescending(compare, s)
    ensures SortedDescending(compare, s[1..])
  {
    forall i, j | 0 <= i < j < |s| - 1
      ensures GroupLe(compare, s[1..][j], s[1..][i])
    {
      assert s[1..][j] == s[j + 1] && s[1..][i] == s[i + 1];
    }
  }

  /** Two descending permutations of one another, on which the
      comparator is strict, start with the same group. */
  lemma DescendingHeads(compare: (string, string) -> int, s1: seq<Group>, s2: seq<Group>)
    requires s1 != [] && s2 != []
    requires forall g :: g in s1 <==> g in s2
    requires SortedDescending(compare, s1) && SortedDescending(compare, s2)
    requires StrictOn(compare, s1)
    ensures s1[0] == s2[0]
  {
    var x, y := s1[0], s2[0];
    assert y in s1 && x in s2;
    var j :| 0 <= j < |s1| && s1[j] == y;
    var i :| 0 <= i < |s2| && s2[i] == x;
    assert j != 0 ==> GroupLe(compare, y, x);
    assert i != 0 ==> GroupLe(compare, x, y);
  }

  /** There is only one descending arrangement of groups the comparator is
      strict on. */
  lemma {:induction false} DescendingUnique(compare: (string, string) -> int, s1: seq<Group>, s2: seq<Group>)
    requires multiset(s1) == multiset(s2)
    requires SortedDescending(compare, s1) && SortedDescending(compare, s2)
    requires StrictOn(compare, s1)
    ensures s1 == s2
    decreases |s1|
  {
    SameElements(s1, s2);
    if s1 == [] {
      assert |s2| == |multiset(s2)| == 0;
    } else {
      assert |s2| == |multiset(s2)| == |s1|;
      DescendingHeads(compare, s1, s2);
      var t1, t2 := s1[1..], s2[1..];
      SameTails(s1, s2);
      StrictOnSubset(compare, s1, t1);
      DescendingTail(compare, s1);
      DescendingTail(compare, s2);
      DescendingUnique(compare, t1, t2);
    }
  }

  /** Permutations of one another with the same head have permuted tails. */
  lemma SameTails<T>(s1: seq<T>, s2: seq<T>)
    requires s1 != [] && s2 != [] && s1[0] == s2[0]
    requires multiset(s1) == multiset(s2)
    ensures multiset(s1[1..]) == multiset(s2[1..])
    ensures forall g :: g in s1[1..] ==> g in s1
  {
    assert s1 == [s1[0]] + s1[1..] && s2 == [s2[0]] + s2[1..];
    assert multiset(s1[1..]) == multiset(s1) - multiset{s1[0]};
    assert multiset(s2[1..]) == multiset(s2) - multiset{s2[0]};
  }

  lemma StrictOnSubset(compare: (string, string) -> int, s: seq<Group>, t: seq<Group>)
    requires StrictOn(compare, s)
    requires forall g :: g in t ==> g in s
    ensures StrictOn(compare, t)
  {
  }

  /** Two positions holding the same group make it occur at least twice. */
  lemma TwoPositions<T>(s: seq<T>, i: nat, j: nat)
    requires i < j < |s| && s[i] == s[j]
    ensures multiset(s)[s[i]] >= 2
  {
    assert s == s[..j] + [s[j]] + s[j + 1..];
    assert s[i] in s[..j];
    assert multiset(s) == multiset(s[..j]) + multiset{s[j]} + multiset(s[j + 1..]);
  }

  /** A sequence of groups with no group twice, in which versions identify
      groups, has no two positions with the same versions. */
  lemma NoVersionTwice(groups: seq<Group>)
    requires forall g :: multiset(groups)[g] <= 1
    requires VersionsIdentify(groups)
    ensures AggregatorProperties.UniqueVersions(groups)
  {
    forall i, j | 0 <= i < j < |groups|
      ensures groups[i].os != groups[j].os || groups[i].supervisor != groups[j].supervisor
    {
      if groups[i].os == groups[j].os && groups[i].supervisor == groups[j].supervisor {
        assert groups[i] in groups && groups[j] in groups;
        TwoPositions(groups, i, j);
        assert false;
      }
    }
  }

  // ---------------------------------------------------------------------
  // Rendering

  /** The line `${o.os}\t${o.supervisor}\t${o.count}` of one group. */
  function Line(g: Group): string {
    g.os + "\t" + g.supervisor + "\t" + NatToString(g.count)
  }

  /** A rendered line splits on tabs into the two versions and the decimal
      count it was made of, so the report loses nothing of a group. */
  lemma LineRoundTrip(g: Group)
    requires '\t' !in g.os && '\t' !in g.supervisor
    ensures var parts := Split(Line(g), '\t');
      && |parts| == 3
      && parts[0] == g.os && parts[1] == g.supervisor
      && (forall i :: 0 <= i < |parts[2]| ==> IsDigit(parts[2][i]))
      && DecimalValue(parts[2]) == g.count
  {
    var count := NatToString(g.count);
    assert '\t' !in count;
    assert Line(g) == g.os + ['\t'] + g.supervisor + ['\t'] + count;
    SplitJoin3(g.os, g.supervisor, count, '\t');
    DecimalRoundTrip(g.count);
  }

  /** Reading one report line back: three tab-separated fields, the last
      one decimal. */
  function ParseLine(line: string): Option<Group> {
    var parts := Split(line, '\t');
    if |parts| == 3 && forall i :: 0 <= i < |parts[2]| ==> IsDigit(parts[2][i])
    then Some(Group(parts[0], parts[1], DecimalValue(parts[2])))
    else None
  }

  /** Reading a line back gives the group it was rendered from. */
  lemma ParseLineRoundTrip(g: Group)
    requires '\t' !in g.os && '\t' !in g.supervisor
    ensures ParseLine(Line(g)) == Some(g)
  {
    LineRoundTrip(g);
  }

  /** Reading a whole report back, line by line. */
  function ParseReport(lines: seq<string>): (r: Option<seq<Group>>)
    ensures r.Some? ==> |r.value| == |lines|
  {
    if lines == [] then Some([])
    else match (ParseLine(lines[0]), ParseReport(lines[1..]))
      case (Some(g), Some(rest)) => Some([g] + rest)
      case _ => None
  }

  /** The lines rendered from groups without tabs in their versions read
      back as those groups, in the same order. */
  lemma {:induction false} ParseRendered(groups: seq<Group>, lines: seq<string>)
    requires forall g :: g in groups ==> '\t' !in g.os && '\t' !in g.supervisor
    requires |lines| == |groups| && forall i :: 0 <= i < |groups| ==> lines[i] == Line(groups[i])
    ensures ParseReport(lines) == Some(groups)
    decreases |groups|
  {
    if groups != [] {
      ParseLineRoundTrip(groups[0]);
      ParseRendered(groups[1..], lines[1..]);
      assert groups == [groups[0]] + groups[1..];
    }
  }

  /** The `_.forEach` that logs one line per group, in order. */
  method Render(groups: seq<Group>) returns (lines: seq<string>)
    ensures |lines| == |groups|
    ensures forall i :: 0 <= i < |groups| ==> lines[i] == Line(groups[i])
    ensures (forall g :: g in groups ==> '\t' !in g.os && '\t' !in g.supervisor) ==>
      ParseReport(lines) == Some(groups)
  {
    lines := [];
    for i := 0 to |groups|
      invariant |lines| == i
      invariant forall k :: 0 <= k < i ==> lines[k] == Line(groups[k])
    {
      lines := lines + [Line(groups[i])];
    }
    if forall g :: g in groups ==> '\t' !in g.os && '\t' !in g.supervisor {
      ParseRendered(groups, lines);
    }
  }
}
