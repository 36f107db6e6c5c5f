/** The registry checker: do the declared ranges share out the identifier space between them? */
module Registry {
  const ID_MAX := 2147483647
  const RESERVED := "Reserved"

  const LONG_MIN := -0x8000_0000_0000_0000
  const LONG_MAX := 0x7FFF_FFFF_FFFF_FFFF

  type long = x: int | LONG_MIN <= x <= LONG_MAX

  datatype Range = Range(first: long, last: long, policy: string) {
    predicate Contains(id: int) {
      first <= id <= last
    }
  }

  /** An assignment, and which of its required keys the registry gives it. */
  datatype Assignment = Assignment(id: long, named: bool, hasStatus: bool, specified: bool, guided: bool)

  /** How many of the ranges have a say over an identifier. */
  function Covering(ranges: seq<Range>, id: int): nat {
    if ranges == [] then 0
    else Covering(ranges[..|ranges| - 1], id) + (if ranges[|ranges| - 1].Contains(id) then 1 else 0)
  }

  /** Every identifier has exactly one range, and no range is empty or leaves the space. */
  ghost predicate Partitions(ranges: seq<Range>) {
    && (forall i | 0 <= i < |ranges| :: 0 <= ranges[i].first <= ranges[i].last <= ID_MAX)
    && forall id | 0 <= id <= ID_MAX :: Covering(ranges, id) == 1
  }

  function Compare(a: Range, b: Range): int {
    if a.first < b.first then -1 else if a.first > b.first then 1 else 0
  }

  predicate InOrderOfFirst(s: seq<Range>) {
    forall i, j | 0 <= i < j < |s| :: Compare(s[i], s[j]) <= 0
  }

  /** What sorting leaves: the same ranges, in the order of the comparison. */
  ghost predicate IsSorting(declared: seq<Range>, sorted: seq<Range>) {
    multiset(declared) == multiset(sorted) && InOrderOfFirst(sorted)
  }

  /** What the checker looks at: the ends, and each range with the one before it. */
  predicate Clean(s: seq<Range>) {
    && s != []
    && (forall i | 0 <= i < |s| :: s[i].first <= s[i].last)
    && s[0].first == 0
    && (forall i | 0 < i < |s| :: s[i].first == s[i - 1].last + 1)
    && s[|s| - 1].last == ID_MAX
  }

  lemma CoveringSnoc(s: seq<Range>, r: Range, id: int)
    ensures Covering(s + [r], id) == Covering(s, id) + (if r.Contains(id) then 1 else 0)
  {
    assert (s + [r])[..|s|] == s;
  }

  lemma {:induction false} CoveringConcat(s: seq<Range>, t: seq<Range>, id: int)
    ensures Covering(s + t, id) == Covering(s, id) + Covering(t, id)
  {
    if t == [] {
      assert s + t == s;
    } else {
      var u, r := t[..|t| - 1], t[|t| - 1];
      CoveringConcat(s, u, id);
      CoveringSnoc(s + u, r, id);
      assert s + t == s + u + [r];
    }
  }

  /** Taking one range out takes out its say. */
  lemma CoveringWithout(s: seq<Range>, k: nat, id: int)
    requires k < |s|
    ensures Covering(s, id) == Covering(s[..k] + s[k + 1..], id) + (if s[k].Contains(id) then 1 else 0)
  {
    CoveringConcat(s[..k], s[k + 1..], id);
    CoveringSnoc(s[..k], s[k], id);
    CoveringConcat(s[..k] + [s[k]], s[k + 1..], id);
    assert s == s[..k] + [s[k]] + s[k + 1..];
  }

  /** The last range of one arrangement, found in another, leaves arrangements of the rest. */
  lemma TakeOut(s: seq<Range>, t: seq<Range>) returns (k: nat)
    requires s != [] && multiset(s) == multiset(t)
    ensures k < |t| && t[k] == s[|s| - 1]
    ensures multiset(s[..|s| - 1]) == multiset(t[..k] + t[k + 1..])
  {
    var n := |s| - 1;
    var r := s[n];
    assert r in multiset(s);
    k :| 0 <= k < |t| && t[k] == r;
    assert s == s[..n] + [r];
    assert t == t[..k] + [r] + t[k + 1..];
    assert multiset(s[..n]) == multiset(s) - multiset{r};
    assert multiset(t[..k] + t[k + 1..]) == multiset(t) - multiset{r};
  }

  /** The order of the ranges does not matter to how many cover an identifier. */
  lemma {:induction false} CoveringPermuted(s: seq<Range>, t: seq<Range>, id: int)
    requires multiset(s) == multiset(t)
    ensures Covering(s, id) == Covering(t, id)
  {
    if s == [] {
      assert |multiset(t)| == 0;
    } else {
      var k := TakeOut(s, t);
      CoveringPermuted(s[..|s| - 1], t[..k] + t[k + 1..], id);
      CoveringWithout(t, k, id);
    }
  }

  lemma {:induction false} CoveredSomewhere(s: seq<Range>, id: int)
    ensures Covering(s, id) > 0 <==> exists i :: 0 <= i < |s| && s[i].Contains(id)
  {
    if s != [] {
      var n := |s| - 1;
      CoveredSomewhere(s[..n], id);
      if Covering(s[..n], id) > 0 {
        var i :| 0 <= i < n && s[..n][i].Contains(id);
        assert s[i].Contains(id);
      }
      if i :| 0 <= i < |s| && s[i].Contains(id) {
        if i < n {
          assert s[..n][i].Contains(id);
        }
      }
    }
  }

  /** Two ranges that share an identifier cover it twice. */
  lemma CoveredTwice(s: seq<Range>, i: nat, j: nat, id: int)
    requires i < j < |s| && s[i].Contains(id) && s[j].Contains(id)
    ensures Covering(s, id) >= 2
  {
    CoveringWithout(s, j, id);
    var rest := s[..j] + s[j + 1..];
    assert rest[i] == s[i];
    CoveredSomewhere(rest, id);
  }

  /** Abutting ranges cover what lies between their ends, once, and nothing else. */
  lemma {:induction false} AbuttingCover(s: seq<Range>, n: nat, id: int)
    requires Clean(s) && n <= |s|
    ensures Covering(s[..n], id) == if n > 0 && 0 <= id <= s[n - 1].last then 1 else 0
    ensures n > 0 ==> s[n - 1].first >= 0
    decreases n
  {
    if n > 0 {
      AbuttingCover(s, n - 1, id);
      var r, edge := s[n - 1], if n > 1 then s[n - 2].last + 1 else 0;
      assert r.first == edge && r.first <= r.last;
      assert Covering(s[..n], id) == Covering(s[..n - 1], id) + (if r.Contains(id) then 1 else 0) by {
        assert s[..n] == s[..n - 1] + [r];
        CoveringSnoc(s[..n - 1], r, id);
      }
    }
  }

  lemma {:induction false} AbuttingStayInside(s: seq<Range>, i: nat)
    requires Clean(s) && i < |s|
    ensures s[i].last <= ID_MAX
    decreases |s| - i
  {
    if i < |s| - 1 {
      AbuttingStayInside(s, i + 1);
    }
  }

  lemma CleanPartitions(s: seq<Range>)
    requires Clean(s)
    ensures Partitions(s)
  {
    forall i | 0 <= i < |s|
      ensures 0 <= s[i].first <= s[i].last <= ID_MAX
    {
      AbuttingCover(s, i + 1, 0);
      AbuttingStayInside(s, i);
    }
    forall id | 0 <= id <= ID_MAX
      ensures Covering(s, id) == 1
    {
      AbuttingCover(s, |s|, id);
      assert s[..|s|] == s;
    }
  }

  /** No identifier lies between two neighbours of a sorted partition. */
  lemma NeighboursAbut(s: seq<Range>, i: nat)
    requires Partitions(s) && 0 < i < |s|
    requires forall a, b | 0 <= a < b < |s| :: s[a].first <= s[b].first
    ensures s[i].first == s[i - 1].last + 1
  {
    var before, after := s[i - 1], s[i];
    if after.first <= before.last {
      CoveredTwice(s, i - 1, i, after.first);
    } else if after.first > before.last + 1 {
      var gap := before.last + 1;
      CoveredSomewhere(s, gap);
      var j :| 0 <= j < |s| && s[j].Contains(gap);
      assert j < i - 1;
      CoveredTwice(s, j, i - 1, before.first);
    }
  }

  lemma PartitionIsClean(s: seq<Range>)
    requires Partitions(s) && s != []
    requires forall a, b | 0 <= a < b < |s| :: s[a].first <= s[b].first
    ensures Clean(s)
  {
    CoveredSomewhere(s, 0);
    var z :| 0 <= z < |s| && s[z].Contains(0);
    assert s[0].first <= s[z].first;
    forall i | 0 < i < |s|
      ensures s[i].first == s[i - 1].last + 1
    {
      NeighboursAbut(s, i);
    }
    CoveredSomewhere(s, ID_MAX);
    var m :| 0 <= m < |s| && s[m].Contains(ID_MAX);
    if m < |s| - 1 {
      assert s[m].first <= s[m + 1].first;
      NeighboursAbut(s, m + 1);
    }
  }

  /** The checker is sound and complete: it finds nothing just when the declared ranges partition. */
  lemma CleanExactlyWhenPartition(declared: seq<Range>, sorted: seq<Range>)
    requires IsSorting(declared, sorted)
    ensures Clean(sorted) <==> Partitions(declared)
  {
    assert Partitions(declared) ==> Covering(declared, 0) == 1;
    SameRanges(declared, sorted);
    assert |sorted| == |multiset(sorted)| == |declared|;
    if Clean(sorted) {
      CleanPartitions(sorted);
      PartitionsPermuted(sorted, declared);
    }
    if Partitions(declared) {
      PartitionsPermuted(declared, sorted);
      PartitionIsClean(sorted);
    }
  }

  lemma SameRanges(s: seq<Range>, t: seq<Range>)
    requires multiset(s) == multiset(t)
    ensures forall r :: r in s <==> r in t
  {
    assert forall r :: r in s <==> r in multiset(s);
    assert forall r :: r in t <==> r in multiset(t);
  }

  lemma PartitionsPermuted(s: seq<Range>, t: seq<Range>)
    requires multiset(s) == multiset(t) && Partitions(s)
    ensures Partitions(t)
  {
    SameRanges(s, t);
    forall i | 0 <= i < |t|
      ensures 0 <= t[i].first <= t[i].last <= ID_MAX
    {
      assert t[i] in s;
    }
    forall id | 0 <= id <= ID_MAX
      ensures Covering(t, id) == 1
    {
      CoveringPermuted(s, t, id);
    }
  }

  // ---- the passes --------------------------------------------------------------------------------

  function Insert(s: seq<Range>, r: Range): seq<Range> {
    if s == [] then [r]
    else if Compare(s[|s| - 1], r) <= 0 then s + [r]
    else Insert(s[..|s| - 1], r) + [s[|s| - 1]]
  }

  function Sorted(s: seq<Range>): seq<Range> {
    if s == [] then [] else Insert(Sorted(s[..|s| - 1]), s[|s| - 1])
  }

  lemma {:induction false} InsertAdds(s: seq<Range>, r: Range)
    ensures multiset(Insert(s, r)) == multiset(s) + multiset{r}
  {
    if s != [] && Compare(s[|s| - 1], r) > 0 {
      var t, m := s[..|s| - 1], s[|s| - 1];
      InsertAdds(t, r);
      assert s == t + [m];
      assert multiset(Insert(s, r)) == multiset(Insert(t, r)) + multiset{m};
    }
  }

  predicate AllUpTo(s: seq<Range>, m: Range) {
    forall i | 0 <= i < |s| :: Compare(s[i], m) <= 0
  }

  lemma {:induction false} InsertUpTo(s: seq<Range>, r: Range, m: Range)
    requires AllUpTo(s, m) && Compare(r, m) <= 0
    ensures AllUpTo(Insert(s, r), m)
  {
    if s != [] && Compare(s[|s| - 1], r) > 0 {
      InsertUpTo(s[..|s| - 1], r, m);
    }
  }

  lemma OrderSnoc(s: seq<Range>, m: Range)
    requires InOrderOfFirst(s) && AllUpTo(s, m)
    ensures InOrderOfFirst(s + [m])
  {
  }

  lemma {:induction false} InsertKeepsOrder(s: seq<Range>, r: Range)
    requires InOrderOfFirst(s)
    ensures InOrderOfFirst(Insert(s, r))
  {
    if s != [] {
      var t, m := s[..|s| - 1], s[|s| - 1];
      if Compare(m, r) > 0 {
        InsertKeepsOrder(t, r);
        InsertUpTo(t, r, m);
        OrderSnoc(Insert(t, r), m);
      } else {
        OrderSnoc(s, r);
      }
    }
  }

  lemma {:induction false} SortedSorts(s: seq<Range>)
    ensures IsSorting(s, Sorted(s))
  {
    hide Insert;
    if s != [] {
      SortedSorts(s[..|s| - 1]);
      InsertAdds(Sorted(s[..|s| - 1]), s[|s| - 1]);
      InsertKeepsOrder(Sorted(s[..|s| - 1]), s[|s| - 1]);
      assert s == s[..|s| - 1] + [s[|s| - 1]];
    }
  }

  /** Stands for the library's sort, of which nothing but this contract is used. */
  method Sort(ranges: array<Range>)
    modifies ranges
    ensures IsSorting(old(ranges[..]), ranges[..])
  {
    ghost var declared := ranges[..];
    var sorted := Sorted(ranges[..]);
    SortedSorts(declared);
    assert |sorted| == |multiset(sorted)| == |declared|;
    for i := 0 to ranges.Length
      invariant ranges[..i] == sorted[..i]
    {
      ranges[i] := sorted[i];
    }
    assert ranges[..] == ranges[..ranges.Length] == sorted;
  }

  /** The next identifier in the width of the machine, where the last one wraps. */
  function Successor(last: long): long {
    if last == LONG_MAX then LONG_MIN else last + 1
  }

  /** In a sorted table that starts at zero the wrap cannot pass for a seam. */
  lemma WrapIsNoSeam(s: seq<Range>, i: nat)
    requires InOrderOfFirst(s) && 0 < i < |s| && s[0].first == 0
    ensures s[i].first == Successor(s[i - 1].last) <==> s[i].first == s[i - 1].last + 1
  {
    assert Compare(s[0], s[i]) <= 0;
  }

  /** The ends, the directions and the seams of the sorted table. */
  method CheckPartition(ranges: array<Range>) returns (failures: nat)
    requires InOrderOfFirst(ranges[..])
    ensures failures == 0 <==> Clean(ranges[..])
  {
    failures := 0;
    if ranges.Length == 0 {
      failures := failures + 1;
    }
    for i := 0 to ranges.Length
      invariant failures == 0 <==> ranges.Length != 0 && forall k | 0 <= k < i :: ranges[k].first <= ranges[k].last
    {
      if ranges[i].last < ranges[i].first {
        failures := failures + 1;
      }
    }
    ghost var forwards := failures == 0;
    if ranges.Length > 0 {
      if ranges[0].first != 0 {
        failures := failures + 1;
      }
      for i := 1 to ranges.Length
        invariant failures == 0 <==> forwards && ranges[0].first == 0
                                     && forall k | 0 < k < i :: ranges[k].first == ranges[k - 1].last + 1
      {
        if ranges[0].first == 0 {
          WrapIsNoSeam(ranges[..], i);
        }
        if ranges[i].first != Successor(ranges[i - 1].last) {
          failures := failures + 1;
        }
      }
      if ranges[ranges.Length - 1].last != ID_MAX {
        failures := failures + 1;
      }
    }
  }

  /** Zero belongs to the encoding: any range with a say over it has to be reserved. */
  predicate ZeroIsReserved(ranges: seq<Range>) {
    forall i | 0 <= i < |ranges| && ranges[i].Contains(0) :: ranges[i].policy == RESERVED
  }

  method CheckZero(ranges: array<Range>) returns (failures: nat)
    ensures failures == 0 <==> ZeroIsReserved(ranges[..])
    ensures failures == 0 <==>
            forall i | 0 <= i < ranges.Length && ranges[i].first <= 0 <= ranges[i].last :: ranges[i].policy == "Reserved"
  {
    failures := 0;
    for i := 0 to ranges.Length
      invariant failures == 0 <==> ZeroIsReserved(ranges[..i])
    {
      if ranges[i].first <= 0 && ranges[i].last >= 0 {
        if ranges[i].policy != RESERVED {
          failures := failures + 1;
        }
      }
      assert ranges[..i + 1] == ranges[..i] + [ranges[i]];
      assert ranges[..i + 1][i] == ranges[i];
      assert forall k | 0 <= k < i :: ranges[..i + 1][k] == ranges[..i][k];
    }
    assert ranges[..ranges.Length] == ranges[..];
    assert forall i | 0 <= i < ranges.Length :: ranges[..][i] == ranges[i];
  }

  /** The first range that has an identifier decides about it. */
  predicate Governed(ranges: seq<Range>, id: int) {
    exists j | 0 <= j < |ranges| ::
      && ranges[j].Contains(id)
      && ranges[j].policy != RESERVED
      && forall k | 0 <= k < j :: !ranges[k].Contains(id)
  }

  predicate IdsDiffer(assignments: seq<Assignment>, i: int)
    requires 0 <= i < |assignments|
  {
    forall j | i < j < |assignments| :: assignments[i].id != assignments[j].id
  }

  predicate Settled(assignments: seq<Assignment>, ranges: seq<Range>, i: int)
    requires 0 <= i < |assignments|
  {
    && 0 < assignments[i].id <= ID_MAX
    && Governed(ranges, assignments[i].id)
    && IdsDiffer(assignments, i)
  }

  method CheckRangeOf(ranges: array<Range>, id: int) returns (failures: nat)
    ensures failures == 0 <==> Governed(ranges[..], id)
    ensures failures == 0 <==>
            exists j | 0 <= j < ranges.Length ::
              && ranges[j].first <= id <= ranges[j].last && ranges[j].policy != "Reserved"
              && forall k | 0 <= k < j :: !(ranges[k].first <= id <= ranges[k].last)
  {
    var inside := false;
    failures := 0;
    for j := 0 to ranges.Length
      invariant !inside && failures == 0
      invariant forall k | 0 <= k < j :: !ranges[..][k].Contains(id)
    {
      if id >= ranges[j].first && id <= ranges[j].last {
        inside := true;
        assert ranges[..][j].Contains(id);
        if ranges[j].policy == RESERVED {
          failures := failures + 1;
        }
        break;
      }
    }
    if !inside {
      failures := failures + 1;
    }
  }

  /** The pass over the assignments finds nothing just when every one of them is settled. */
  method CheckAssignments(ranges: array<Range>, assignments: array<Assignment>) returns (failures: nat)
    ensures failures == 0 <==>
            forall i | 0 <= i < assignments.Length :: Settled(assignments[..], ranges[..], i)
  {
    failures := 0;
    for i := 0 to assignments.Length
      invariant failures == 0 <==> forall k | 0 <= k < i :: Settled(assignments[..], ranges[..], k)
    {
      ghost var before := failures;
      if assignments[i].id <= 0 || assignments[i].id > ID_MAX {
        failures := failures + 1;
      }
      var homeless := CheckRangeOf(ranges, assignments[i].id);
      failures := failures + homeless;
      ghost var alone := failures;
      for j := i + 1 to assignments.Length
        invariant failures >= alone
        invariant failures == alone <==> forall k | i < k < j :: assignments[..][i].id != assignments[..][k].id
      {
        if assignments[i].id == assignments[j].id {
          failures := failures + 1;
        }
      }
      assert failures == alone <==> IdsDiffer(assignments[..], i);
      assert failures == before <==> Settled(assignments[..], ranges[..], i);
    }
  }

  /** An assignment says what it is, where it stands, where it is specified and what rejecting it costs. */
  predicate Complete(a: Assignment) {
    a.named && a.hasStatus && a.specified && a.guided
  }

  method CheckKeys(assignments: array<Assignment>) returns (failures: nat)
    ensures failures == 0 <==> forall i | 0 <= i < assignments.Length :: Complete(assignments[i])
  {
    failures := 0;
    for i := 0 to assignments.Length
      invariant failures == 0 <==> forall k | 0 <= k < i :: Complete(assignments[k])
    {
      if !assignments[i].named {
        failures := failures + 1;
      }
      if !assignments[i].hasStatus {
        failures := failures + 1;
      }
      if !assignments[i].specified {
        failures := failures + 1;
      }
      if !assignments[i].guided {
        failures := failures + 1;
      }
    }
  }

  /** An assignment is in order when its number can be sent and some range that takes assignments has it. */
  ghost predicate InOrder(a: Assignment, declared: seq<Range>) {
    1 <= a.id <= ID_MAX && exists r | r in declared :: r.Contains(a.id) && r.policy != RESERVED
  }

  ghost predicate NeverReused(assignments: seq<Assignment>) {
    forall i, j | 0 <= i < j < |assignments| :: assignments[i].id != assignments[j].id
  }

  /** What a clean registry promises: one policy for every identifier, and no number handed out wrongly or twice. */
  ghost predicate Sound(declared: seq<Range>, assignments: seq<Assignment>) {
    && Partitions(declared)
    && (forall r | r in declared && r.Contains(0) :: r.policy == RESERVED)
    && (forall i | 0 <= i < |assignments| :: InOrder(assignments[i], declared))
    && NeverReused(assignments)
  }

  /** With one range an identifier, the first one found is the only one there is. */
  lemma GovernedByItsRange(s: seq<Range>, id: int)
    requires Partitions(s) && 0 <= id <= ID_MAX
    ensures Governed(s, id) <==> exists r | r in s :: r.Contains(id) && r.policy != RESERVED
  {
    if r :| r in s && r.Contains(id) && r.policy != RESERVED {
      var j :| 0 <= j < |s| && s[j] == r;
      forall k | 0 <= k < j
        ensures !s[k].Contains(id)
      {
        if s[k].Contains(id) {
          CoveredTwice(s, k, j, id);
        }
      }
    }
  }

  lemma SettledInOrder(declared: seq<Range>, sorted: seq<Range>, assignments: seq<Assignment>, i: nat)
    requires Partitions(sorted) && i < |assignments|
    requires forall r :: r in declared <==> r in sorted
    ensures Settled(assignments, sorted, i) <==> InOrder(assignments[i], declared) && IdsDiffer(assignments, i)
  {
    if 1 <= assignments[i].id <= ID_MAX {
      GovernedByItsRange(sorted, assignments[i].id);
    }
  }

  /** The three passes together are sound and complete for the registry as it was declared. */
  lemma ChecksDecideSoundness(declared: seq<Range>, sorted: seq<Range>, assignments: seq<Assignment>)
    requires IsSorting(declared, sorted)
    ensures (&& Clean(sorted)
             && ZeroIsReserved(sorted)
             && forall i | 0 <= i < |assignments| :: Settled(assignments, sorted, i))
            <==> Sound(declared, assignments)
  {
    CleanExactlyWhenPartition(declared, sorted);
    SameRanges(declared, sorted);
    if Partitions(declared) {
      PartitionsPermuted(declared, sorted);
      forall i | 0 <= i < |assignments|
        ensures Settled(assignments, sorted, i) <==> InOrder(assignments[i], declared) && IdsDiffer(assignments, i)
      {
        SettledInOrder(declared, sorted, assignments, i);
      }
      if forall i | 0 <= i < |assignments| :: IdsDiffer(assignments, i) {
        forall i, j | 0 <= i < j < |assignments|
          ensures assignments[i].id != assignments[j].id
        {
          assert IdsDiffer(assignments, i);
        }
      }
      assert ZeroIsReserved(sorted) <==> forall r | r in sorted && r.Contains(0) :: r.policy == RESERVED;
    }
  }

  // ---- the same in plain numbers and words ---------------------------------------------------------

  /** One range has the identifier, and no other range does. */
  ghost predicate HasOneRange(declared: seq<Range>, id: int) {
    exists i | 0 <= i < |declared| ::
      && declared[i].first <= id <= declared[i].last
      && forall j | 0 <= j < |declared| && declared[j].first <= id <= declared[j].last :: j == i
  }

  /** Some range has the identifier and gives it out. */
  ghost predicate HasOpenRange(declared: seq<Range>, id: int) {
    exists i | 0 <= i < |declared| :: declared[i].first <= id <= declared[i].last && declared[i].policy != "Reserved"
  }

  ghost predicate GoodRanges(declared: seq<Range>) {
    && (forall i | 0 <= i < |declared| :: 0 <= declared[i].first <= declared[i].last <= 2147483647)
    && (forall id | 0 <= id <= 2147483647 :: HasOneRange(declared, id))
    && (forall i | 0 <= i < |declared| && declared[i].first <= 0 <= declared[i].last :: declared[i].policy == "Reserved")
  }

  ghost predicate GoodAssignments(declared: seq<Range>, assignments: seq<Assignment>) {
    && (forall i | 0 <= i < |assignments| ::
          && 1 <= assignments[i].id <= 2147483647 && HasOpenRange(declared, assignments[i].id)
          && assignments[i].named && assignments[i].hasStatus && assignments[i].specified && assignments[i].guided)
    && (forall i, j | 0 <= i < j < |assignments| :: assignments[i].id != assignments[j].id)
  }

  lemma CoveredOnce(s: seq<Range>, id: int)
    ensures Covering(s, id) == 1 <==> HasOneRange(s, id)
  {
    if Covering(s, id) == 1 {
      CoveredSomewhere(s, id);
      var i :| 0 <= i < |s| && s[i].Contains(id);
      forall j | 0 <= j < |s| && s[j].first <= id <= s[j].last
        ensures j == i
      {
        if i < j {
          CoveredTwice(s, i, j, id);
        } else if j < i {
          CoveredTwice(s, j, i, id);
        }
      }
    }
    if HasOneRange(s, id) {
      var i :| 0 <= i < |s| && s[i].first <= id <= s[i].last
               && forall j | 0 <= j < |s| && s[j].first <= id <= s[j].last :: j == i;
      CoveringWithout(s, i, id);
      OthersDoNot(s, i, id);
    }
  }

  lemma OthersDoNot(s: seq<Range>, i: nat, id: int)
    requires i < |s| && forall j | 0 <= j < |s| && s[j].first <= id <= s[j].last :: j == i
    ensures Covering(s[..i] + s[i + 1..], id) == 0
  {
    var rest := s[..i] + s[i + 1..];
    CoveredSomewhere(rest, id);
    forall k | 0 <= k < |rest|
      ensures !rest[k].Contains(id)
    {
      assert rest[k] == s[if k < i then k else k + 1];
    }
  }

  lemma PartitionsMeans(declared: seq<Range>)
    ensures Partitions(declared) <==>
            && (forall i | 0 <= i < |declared| :: 0 <= declared[i].first <= declared[i].last <= 2147483647)
            && forall id | 0 <= id <= 2147483647 :: HasOneRange(declared, id)
  {
    hide HasOneRange;
    if Partitions(declared) {
      forall id | 0 <= id <= 2147483647
        ensures HasOneRange(declared, id)
      {
        CoveredOnce(declared, id);
      }
    }
    if forall id | 0 <= id <= 2147483647 :: HasOneRange(declared, id) {
      forall id | 0 <= id <= ID_MAX
        ensures Covering(declared, id) == 1
      {
        CoveredOnce(declared, id);
      }
    }
  }

  lemma OpenMeans(declared: seq<Range>, id: int)
    ensures HasOpenRange(declared, id) <==> exists r | r in declared :: r.Contains(id) && r.policy != RESERVED
  {
    if r :| r in declared && r.Contains(id) && r.policy != RESERVED {
      var i :| 0 <= i < |declared| && declared[i] == r;
    }
  }

  /** Sound and complete is this, in plain numbers. */
  lemma SoundMeans(declared: seq<Range>, assignments: seq<Assignment>)
    ensures (Sound(declared, assignments) && forall a | a in assignments :: Complete(a)) <==>
            GoodRanges(declared) && GoodAssignments(declared, assignments)
  {
    hide HasOneRange, HasOpenRange, Partitions;
    PartitionsMeans(declared);
    forall i | 0 <= i < |assignments|
      ensures InOrder(assignments[i], declared) <==>
              1 <= assignments[i].id <= 2147483647 && HasOpenRange(declared, assignments[i].id)
    {
      OpenMeans(declared, assignments[i].id);
    }
    assert (forall r | r in declared && r.Contains(0) :: r.policy == RESERVED) <==>
           (forall i | 0 <= i < |declared| && declared[i].first <= 0 <= declared[i].last :: declared[i].policy == "Reserved");
    assert (forall a | a in assignments :: Complete(a)) <==> (forall i | 0 <= i < |assignments| :: Complete(assignments[i]));
  }

  /** The ranges of the registry as it was shipped. */
  function ShippedRanges(): seq<Range> {
    [Range(0, 0, "Reserved"),
     Range(1, 63, "MCL Standards Action"),
     Range(64, 8191, "MCL Standards Action"),
     Range(8192, 1048575, "Specification Required"),
     Range(1048576, 2097151, "Experimental Use"),
     Range(2097152, 4194303, "Private Use"),
     Range(4194304, 2147483647, "Reserved")]
  }

  /** It gives every identifier its one policy, and so with no assignments there is nothing to find in it. */
  lemma ShippedRegistryIsSound()
    ensures GoodRanges(ShippedRanges()) && GoodAssignments(ShippedRanges(), [])
    ensures Sound(ShippedRanges(), [])
  {
    hide GoodRanges, GoodAssignments;
    var t := ShippedRanges();
    CleanPartitions(t);
    assert Sound(t, []);
    SoundMeans(t, []);
  }

  /**
   * The whole check of a registry that has been read: sort, passes over the table, passes over the
   * assignments. An empty table is a failure of its own.
   */
  method CheckRegistry(ranges: array<Range>, assignments: array<Assignment>) returns (failures: nat)
    modifies ranges
    ensures IsSorting(old(ranges[..]), ranges[..])
    ensures failures == 0 <==>
            && Sound(old(ranges[..]), old(assignments[..]))
            && forall a | a in old(assignments[..]) :: Complete(a)
    ensures failures == 0 <==>
            GoodRanges(old(ranges[..])) && GoodAssignments(old(ranges[..]), old(assignments[..]))
  {
    hide GoodRanges, GoodAssignments, Clean, ZeroIsReserved, Settled, Sound, Complete;
    ghost var declared := ranges[..];
    Sort(ranges);
    var table := CheckPartition(ranges);
    var zero := CheckZero(ranges);
    var keys := CheckKeys(assignments);
    var handedOut := CheckAssignments(ranges, assignments);
    failures := table + zero + keys + handedOut;
    ChecksDecideSoundness(declared, ranges[..], assignments[..]);
    SoundMeans(declared, assignments[..]);
    assert forall i | 0 <= i < assignments.Length :: assignments[..][i] == assignments[i];
  }
}
