/**
 The CPU balancer: deviceTaskBalance. Containers limited to a number of CPUs are spread over the usable CPUs, each
 taking the least used ones in turn; containers pinned to a CPU list keep the usable part of that list.
 */
module CpuBalancer {
  import opened Prelude
  import opened Text
  import Cpuset

  // how many containers each usable CPU serves
  type Usage = map<int, int>

  // a container appears in the pinning with its first CPU
  type Pins = s: seq<int> | s != [] witness [0]

  // the CPUs each container has been given so far
  type Pinning = map<string, Pins>

  datatype Limit = Count(n: int) | Pinned(cpus: seq<int>)

  datatype Request = Request(name: string, limit: Limit)

  /** limits.cpu as the balancer reads it; the empty string stands for all usable CPUs. */
  function LimitOf(value: string, effective: string): Option<Limit> {
    var v := if value == "" then effective else value;
    match Atoi(v)
    case Some(n) => Some(Count(n))
    case None =>
      match Cpuset.Parse(v)
      case Some(cpus) => Some(Pinned(cpus))
      case None => None
  }

  function PinOf(pinning: Pinning, name: string): seq<int> {
    if name in pinning then pinning[name] else []
  }

  /** What a limit of n out of `cpus` CPUs amounts to; a negative limit never runs out. */
  function Share(n: int, cpus: nat): (r: nat)
    ensures 0 <= n <= cpus ==> r == n
    ensures n < 0 || n > cpus ==> r == cpus
  {
    if n < 0 || n > cpus then cpus else n
  }

  function Usable(ids: seq<int>, isolated: seq<int>): (r: seq<int>)
    ensures forall id :: id in r <==> id in ids && id !in isolated
  {
    if ids == [] then []
    else
      var front := Usable(ids[..|ids| - 1], isolated);
      if ids[|ids| - 1] in isolated then front else front + [ids[|ids| - 1]]
  }

  predicate DistinctNames(reqs: seq<Request>) {
    forall i, j :: 0 <= i < j < |reqs| ==> reqs[i].name != reqs[j].name
  }

  // ----- counting --------------------------------------------------------------------------------------------------

  /** How often CPU `id` occurs in the pinnings of the requests. */
  function Load(reqs: seq<Request>, pinning: Pinning, id: int): nat {
    if reqs == [] then 0
    else Load(reqs[..|reqs| - 1], pinning, id) + multiset(PinOf(pinning, reqs[|reqs| - 1].name))[id]
  }

  /** How often CPU `id` occurs in the lists of the pinned requests. */
  function PinnedLoad(reqs: seq<Request>, id: int): nat {
    if reqs == [] then 0
    else
      var last := reqs[|reqs| - 1].limit;
      PinnedLoad(reqs[..|reqs| - 1], id) + if last.Pinned? then multiset(last.cpus)[id] else 0
  }

  function TotalUsage(ids: seq<int>, usage: Usage): int
    requires forall i :: 0 <= i < |ids| ==> ids[i] in usage
  {
    if ids == [] then 0 else TotalUsage(ids[..|ids| - 1], usage) + usage[ids[|ids| - 1]]
  }

  function TotalPins(reqs: seq<Request>, pinning: Pinning): nat {
    if reqs == [] then 0 else TotalPins(reqs[..|reqs| - 1], pinning) + |PinOf(pinning, reqs[|reqs| - 1].name)|
  }

  function TotalShares(reqs: seq<Request>, cpus: nat): nat {
    if reqs == [] then 0
    else
      var last := reqs[|reqs| - 1].limit;
      TotalShares(reqs[..|reqs| - 1], cpus) +
      if !last.Count? then 0 else if 0 <= last.n <= cpus then last.n else cpus
  }

  /** Changing one container's pinning changes the load of a CPU by the difference. */
  lemma {:induction false} LoadAfter(reqs: seq<Request>, pinning: Pinning, name: string, pins: Pins, id: int)
    requires DistinctNames(reqs)
    ensures var after := Load(reqs, pinning[name := pins], id);
            if exists i :: 0 <= i < |reqs| && reqs[i].name == name then
              after + multiset(PinOf(pinning, name))[id] == Load(reqs, pinning, id) + multiset(pins)[id]
            else
              after == Load(reqs, pinning, id)
  {
    if reqs != [] {
      var front, last := reqs[..|reqs| - 1], reqs[|reqs| - 1];
      LoadAfter(front, pinning, name, pins, id);
      if last.name == name {
        assert forall i :: 0 <= i < |front| ==> front[i] == reqs[i] && front[i].name != name;
        assert reqs[|reqs| - 1].name == name;
      } else if exists i :: 0 <= i < |reqs| && reqs[i].name == name {
        var i :| 0 <= i < |reqs| && reqs[i].name == name;
        assert front[i].name == name;
      } else {
        assert forall i :: 0 <= i < |front| ==> front[i] == reqs[i];
      }
    }
  }

  function CountIn(ids: seq<int>, pins: seq<int>): nat {
    if ids == [] then 0 else CountIn(ids[..|ids| - 1], pins) + multiset(pins)[ids[|ids| - 1]]
  }

  lemma {:induction false} CountInAppend(ids: seq<int>, pins: seq<int>, id: int)
    requires Distinct(ids)
    ensures CountIn(ids, pins + [id]) == CountIn(ids, pins) + if id in ids then 1 else 0
  {
    if ids != [] {
      CountInAppend(ids[..|ids| - 1], pins, id);
      assert id in ids <==> id in ids[..|ids| - 1] || id == ids[|ids| - 1];
    }
  }

  lemma {:induction false} CountInAll(ids: seq<int>, pins: seq<int>)
    requires Distinct(ids) && forall id :: id in pins ==> id in ids
    ensures CountIn(ids, pins) == |pins|
  {
    if pins == [] {
      CountInNone(ids);
    } else {
      var front, last := pins[..|pins| - 1], pins[|pins| - 1];
      assert pins == front + [last];
      CountInAll(ids, front);
      CountInAppend(ids, front, last);
    }
  }

  lemma {:induction false} CountInNone(ids: seq<int>)
    ensures CountIn(ids, []) == 0
  {
    if ids != [] {
      CountInNone(ids[..|ids| - 1]);
    }
  }

  function TotalLoad(ids: seq<int>, reqs: seq<Request>, pinning: Pinning): nat {
    if ids == [] then 0 else TotalLoad(ids[..|ids| - 1], reqs, pinning) + Load(reqs, pinning, ids[|ids| - 1])
  }

  lemma {:induction false} TotalLoadLast(ids: seq<int>, reqs: seq<Request>, pinning: Pinning)
    requires reqs != []
    ensures TotalLoad(ids, reqs, pinning) ==
            TotalLoad(ids, reqs[..|reqs| - 1], pinning) + CountIn(ids, PinOf(pinning, reqs[|reqs| - 1].name))
  {
    if ids != [] {
      TotalLoadLast(ids[..|ids| - 1], reqs, pinning);
    }
  }

  lemma {:induction false} TotalLoadNone(ids: seq<int>, pinning: Pinning)
    ensures TotalLoad(ids, [], pinning) == 0
  {
    if ids != [] {
      TotalLoadNone(ids[..|ids| - 1], pinning);
    }
  }

  /** Counting by CPU and counting by container agree. */
  lemma {:induction false} CountBothWays(ids: seq<int>, reqs: seq<Request>, pinning: Pinning)
    requires Distinct(ids)
    requires forall i :: 0 <= i < |reqs| ==> forall id :: id in PinOf(pinning, reqs[i].name) ==> id in ids
    ensures TotalLoad(ids, reqs, pinning) == TotalPins(reqs, pinning)
  {
    if reqs == [] {
      TotalLoadNone(ids, pinning);
    } else {
      var front := reqs[..|reqs| - 1];
      assert forall i :: 0 <= i < |front| ==> front[i] == reqs[i];
      CountBothWays(ids, front, pinning);
      TotalLoadLast(ids, reqs, pinning);
      CountInAll(ids, PinOf(pinning, reqs[|reqs| - 1].name));
    }
  }

  lemma {:induction false} UsageIsLoad(ids: seq<int>, usage: Usage, reqs: seq<Request>, pinning: Pinning)
    requires forall i :: 0 <= i < |ids| ==> ids[i] in usage
    requires forall id :: id in usage ==> usage[id] == Load(reqs, pinning, id)
    ensures TotalUsage(ids, usage) == TotalLoad(ids, reqs, pinning)
  {
    if ids != [] {
      UsageIsLoad(ids[..|ids| - 1], usage, reqs, pinning);
    }
  }

  // ----- what a rebalance achieves ---------------------------------------------------------------------------------

  /** What a container must end up with, given its limit. */
  ghost predicate Granted(cpus: seq<int>, limit: Limit, pins: seq<int>) {
    match limit
    case Count(n) =>
      && Distinct(pins)
      && (forall id :: id in pins ==> id in cpus)
      && |pins| == Share(n, |Elements(cpus)|)
    case Pinned(list) =>
      forall id :: multiset(pins)[id] == if id in cpus then multiset(list)[id] else 0
  }

  /** Every container holds what its limit grants, and every CPU's count is the number of times it is held. */
  ghost predicate Settled(cpus: seq<int>, reqs: seq<Request>, usage: Usage, pinning: Pinning) {
    && usage.Keys == Elements(cpus)
    && (forall i :: 0 <= i < |reqs| ==> Granted(cpus, reqs[i].limit, PinOf(pinning, reqs[i].name)))
    && forall id :: id in usage ==> usage[id] == Load(reqs, pinning, id)
  }

  /** No CPU serves more than g containers beyond any other. */
  ghost predicate WithinGap(usage: Usage, g: int) {
    forall a, b :: a in usage && b in usage ==> usage[a] - usage[b] <= g
  }

  /** A container pinned to a list without repetitions holds exactly the usable CPUs of that list, once each. */
  lemma PinnedToUsable(cpus: seq<int>, list: seq<int>, pins: seq<int>)
    requires Granted(cpus, Pinned(list), pins) && Distinct(list)
    ensures Distinct(pins) && forall id :: id in pins <==> id in list && id in cpus
  {
    forall id
      ensures multiset(list)[id] <= 1
    {
      DistinctOnce(list, id);
    }
    forall i, j | 0 <= i < j < |pins|
      ensures pins[i] != pins[j]
    {
      TwiceCounted(pins, i, j);
      assert multiset(pins)[pins[j]] <= 1;
    }
    forall id
      ensures id in pins <==> id in list && id in cpus
    {
      assert id in pins <==> multiset(pins)[id] > 0;
      assert id in list <==> multiset(list)[id] > 0;
    }
  }

  lemma TwiceCounted(pins: seq<int>, i: nat, j: nat)
    requires i < j < |pins|
    ensures pins[i] == pins[j] ==> multiset(pins)[pins[j]] >= 2
  {
    assert pins == pins[..j] + [pins[j]] + pins[j + 1..];
    assert pins[..j][i] == pins[i];
    assert pins[i] in multiset(pins[..j]);
  }

  lemma {:induction false} DistinctOnce(list: seq<int>, id: int)
    requires Distinct(list)
    ensures multiset(list)[id] <= 1
  {
    if list != [] {
      var front, last := list[..|list| - 1], list[|list| - 1];
      DistinctOnce(front, id);
      assert list == front + [last];
      assert last !in front;
    }
  }

  /** Conservation: the CPUs' counts add up to the lengths of all pinnings. */
  lemma UsageIsConserved(cpus: seq<int>, reqs: seq<Request>, usage: Usage, pinning: Pinning, ids: seq<int>)
    requires Settled(cpus, reqs, usage, pinning)
    requires Distinct(ids) && Elements(ids) == Elements(cpus)
    ensures TotalUsage(ids, usage) == TotalPins(reqs, pinning)
  {
    assert forall id :: id in ids <==> id in Elements(ids);
    assert forall id :: id in cpus <==> id in Elements(cpus);
    forall i, id | 0 <= i < |reqs| && id in PinOf(pinning, reqs[i].name)
      ensures id in ids
    {
      assert Granted(cpus, reqs[i].limit, PinOf(pinning, reqs[i].name));
      assert multiset(PinOf(pinning, reqs[i].name))[id] > 0;
    }
    UsageIsLoad(ids, usage, reqs, pinning);
    CountBothWays(ids, reqs, pinning);
  }

  lemma {:induction false} SharesAreTotal(cpus: seq<int>, reqs: seq<Request>, pinning: Pinning)
    requires forall i :: 0 <= i < |reqs| ==> reqs[i].limit.Count?
    requires forall i :: 0 <= i < |reqs| ==> Granted(cpus, reqs[i].limit, PinOf(pinning, reqs[i].name))
    ensures TotalPins(reqs, pinning) == TotalShares(reqs, |Elements(cpus)|)
  {
    if reqs != [] {
      SharesAreTotal(cpus, reqs[..|reqs| - 1], pinning);
    }
  }

  lemma SplitProduct(k: nat, m: nat, c: int)
    ensures (k + 1 + m) * c == k * c + c + m * c
  {
  }

  lemma {:induction false} TotalBelow(ids: seq<int>, usage: Usage, c: int, k: nat)
    requires k < |ids| && forall i :: 0 <= i < |ids| ==> ids[i] in usage && usage[ids[i]] <= c
    requires usage[ids[k]] < c
    ensures TotalUsage(ids, usage) < |ids| * c
  {
    TotalAtMost(ids[..k], usage, c);
    TotalSplit(ids, usage, k + 1);
    TotalAtMost(ids[k + 1..], usage, c);
    assert ids[..k + 1][..k] == ids[..k];
    SplitProduct(k, |ids| - k - 1, c);
  }

  lemma {:induction false} TotalAtMost(ids: seq<int>, usage: Usage, c: int)
    requires forall i :: 0 <= i < |ids| ==> ids[i] in usage && usage[ids[i]] <= c
    ensures TotalUsage(ids, usage) <= |ids| * c
  {
    if ids != [] {
      TotalAtMost(ids[..|ids| - 1], usage, c);
      assert |ids| * c == (|ids| - 1) * c + c;
    }
  }

  lemma {:induction false} TotalAbove(ids: seq<int>, usage: Usage, c: int, k: nat)
    requires k < |ids| && forall i :: 0 <= i < |ids| ==> ids[i] in usage && usage[ids[i]] >= c
    requires usage[ids[k]] > c
    ensures TotalUsage(ids, usage) > |ids| * c
  {
    TotalAtLeast(ids[..k], usage, c);
    TotalSplit(ids, usage, k + 1);
    TotalAtLeast(ids[k + 1..], usage, c);
    assert ids[..k + 1][..k] == ids[..k];
    SplitProduct(k, |ids| - k - 1, c);
  }

  lemma {:induction false} TotalAtLeast(ids: seq<int>, usage: Usage, c: int)
    requires forall i :: 0 <= i < |ids| ==> ids[i] in usage && usage[ids[i]] >= c
    ensures TotalUsage(ids, usage) >= |ids| * c
  {
    if ids != [] {
      TotalAtLeast(ids[..|ids| - 1], usage, c);
      assert |ids| * c == (|ids| - 1) * c + c;
    }
  }

  lemma {:induction false} TotalSplit(ids: seq<int>, usage: Usage, k: nat)
    requires k <= |ids| && forall i :: 0 <= i < |ids| ==> ids[i] in usage
    ensures TotalUsage(ids, usage) == TotalUsage(ids[..k], usage) + TotalUsage(ids[k..], usage)
    decreases |ids|
  {
    if k == |ids| {
      assert ids[..k] == ids;
    } else {
      var front := ids[..|ids| - 1];
      TotalSplit(front, usage, k);
      assert front[..k] == ids[..k];
      assert ids[k..][..|ids| - k - 1] == front[k..];
    }
  }

  /** u is total / n rounded down or up. */
  predicate RoundedAverage(total: int, n: nat, u: int) {
    n > 0 && total >= 0 && total / n <= u <= (total + n - 1) / n
  }

  lemma UsageIsShares(cpus: seq<int>, reqs: seq<Request>, usage: Usage, pinning: Pinning, ids: seq<int>)
    requires Settled(cpus, reqs, usage, pinning)
    requires forall i :: 0 <= i < |reqs| ==> reqs[i].limit.Count?
    requires Distinct(ids) && Elements(ids) == Elements(cpus)
    ensures |ids| == |Elements(cpus)|
    ensures forall i :: 0 <= i < |ids| ==> ids[i] in usage
    ensures TotalUsage(ids, usage) == TotalShares(reqs, |Elements(cpus)|)
  {
    DistinctCardinality(ids);
    assert forall i :: 0 <= i < |ids| ==> ids[i] in Elements(ids);
    UsageIsConserved(cpus, reqs, usage, pinning, ids);
    SharesAreTotal(cpus, reqs, pinning);
  }

  /** With no pinned container, every CPU serves the average number of containers, rounded down or up. */
  lemma EvenSplit(cpus: seq<int>, reqs: seq<Request>, usage: Usage, pinning: Pinning, ids: seq<int>, id: int)
    requires Settled(cpus, reqs, usage, pinning) && WithinGap(usage, 1)
    requires forall i :: 0 <= i < |reqs| ==> reqs[i].limit.Count?
    requires Distinct(ids) && Elements(ids) == Elements(cpus) && id in usage
    ensures RoundedAverage(TotalShares(reqs, |Elements(cpus)|), |Elements(cpus)|, usage[id])
  {
    UsageIsShares(cpus, reqs, usage, pinning, ids);
    EvenAverage(ids, usage, id);
  }

  lemma EvenAverage(ids: seq<int>, usage: Usage, id: int)
    requires WithinGap(usage, 1) && usage.Keys == Elements(ids) && id in usage
    ensures forall i :: 0 <= i < |ids| ==> ids[i] in usage
    ensures TotalUsage(ids, usage) >= 0 ==> RoundedAverage(TotalUsage(ids, usage), |ids|, usage[id])
  {
    assert forall i :: 0 <= i < |ids| ==> ids[i] in Elements(ids);
    var k :| 0 <= k < |ids| && ids[k] == id;
    TotalNearAverage(ids, usage, k, usage[id]);
    if TotalUsage(ids, usage) >= 0 {
      DivideBounds(TotalUsage(ids, usage), |ids|, usage[id]);
    }
  }

  lemma GapBetween(usage: Usage, g: int, a: int, b: int)
    requires WithinGap(usage, g) && a in usage && b in usage
    ensures usage[a] - usage[b] <= g
  {
  }

  lemma TotalNearAverage(ids: seq<int>, usage: Usage, k: nat, u: int)
    requires k < |ids| && WithinGap(usage, 1) && forall i :: 0 <= i < |ids| ==> ids[i] in usage
    requires u == usage[ids[k]]
    ensures |ids| * (u - 1) < TotalUsage(ids, usage) < |ids| * (u + 1)
  {
    forall i | 0 <= i < |ids|
      ensures u - 1 <= usage[ids[i]] <= u + 1
    {
      GapBetween(usage, 1, ids[i], ids[k]);
      GapBetween(usage, 1, ids[k], ids[i]);
    }
    TotalBelow(ids, usage, u + 1, k);
    TotalAbove(ids, usage, u - 1, k);
  }

  lemma CancelLess(n: int, a: int, b: int)
    requires n > 0 && n * a < n * b
    ensures a < b
  {
  }

  lemma DivideBounds(total: nat, n: nat, u: int)
    requires n > 0 && n * (u - 1) < total < n * (u + 1)
    ensures total / n <= u <= (total + n - 1) / n
  {
    var down, up := total / n, (total + n - 1) / n;
    assert total == n * down + total % n;
    assert total + n - 1 == n * up + (total + n - 1) % n;
    CancelLess(n, down, u + 1);
    CancelLess(n, u - 1, up);
  }

  // ----- one balanced container ------------------------------------------------------------------------------------

  ghost predicate SortedByUsage(usage: Usage, sorted: seq<int>) {
    && Distinct(sorted)
    && Elements(sorted) == usage.Keys
    && forall i, j :: 0 <= i < j < |sorted| && sorted[i] in usage && sorted[j] in usage ==>
         usage[sorted[i]] <= usage[sorted[j]]
  }

  function Bump(usage: Usage, picked: seq<int>): Usage {
    map id | id in usage :: if id in picked then usage[id] + 1 else usage[id]
  }

  /** Serving a container from the least used CPUs never widens a gap of at least 1. */
  lemma BumpKeepsGap(usage: Usage, sorted: seq<int>, k: nat, g: int)
    requires SortedByUsage(usage, sorted) && k <= |sorted| && g >= 1 && WithinGap(usage, g)
    ensures WithinGap(Bump(usage, sorted[..k]), g)
  {
    var picked := sorted[..k];
    assert forall m :: 0 <= m < k ==> sorted[m] in picked;
    forall a, b | a in usage && b in usage
      ensures Bump(usage, picked)[a] - Bump(usage, picked)[b] <= g
    {
      if a in picked && b !in picked {
        assert b in Elements(sorted);
        var i :| 0 <= i < k && sorted[i] == a;
        var j :| 0 <= j < |sorted| && sorted[j] == b;
        assert j >= k;
      }
    }
  }

  /** Whatever gap of at least 1 there was between CPUs is not exceeded now. */
  ghost predicate KeepsGaps(before: Usage, after: Usage) {
    forall g :: g >= 1 && WithinGap(before, g) ==> WithinGap(after, g)
  }

  lemma BumpKeepsGaps(before: Usage, usage: Usage, sorted: seq<int>, k: nat)
    requires KeepsGaps(before, usage) && SortedByUsage(usage, sorted) && k <= |sorted|
    ensures KeepsGaps(before, Bump(usage, sorted[..k]))
  {
    forall g | g >= 1 && WithinGap(before, g)
      ensures WithinGap(Bump(usage, sorted[..k]), g)
    {
      BumpKeepsGap(usage, sorted, k, g);
    }
  }

  ghost predicate Ascending(usage: Usage, sorted: seq<int>) {
    && (forall i :: 0 <= i < |sorted| ==> sorted[i] in usage)
    && forall i, j :: 0 <= i < j < |sorted| ==> usage[sorted[i]] <= usage[sorted[j]]
  }

  lemma InsertKeepsAscending(usage: Usage, sorted: seq<int>, k: nat, x: int)
    requires Ascending(usage, sorted) && x in usage && k <= |sorted|
    requires forall i :: 0 <= i < k ==> usage[sorted[i]] <= usage[x]
    requires forall i :: k <= i < |sorted| ==> usage[x] <= usage[sorted[i]]
    ensures Ascending(usage, Insert(sorted, k, x))
  {
  }

  /** sort.Sort by count, in place on the slice of CPUs; nothing is promised about the order of equal counts. */
  method SortByUsage(usage: Usage, ids: seq<int>) returns (sorted: seq<int>)
    requires Distinct(ids) && Elements(ids) == usage.Keys
    ensures SortedByUsage(usage, sorted)
  {
    sorted := [];
    for i := 0 to |ids|
      invariant Distinct(sorted) && Elements(sorted) == Elements(ids[..i])
      invariant Ascending(usage, sorted)
    {
      assert ids[i] in Elements(ids);
      var k := |sorted|;
      while k > 0 && usage[ids[i]] < usage[sorted[k - 1]]
        invariant 0 <= k <= |sorted|
        invariant forall j :: k <= j < |sorted| ==> usage[ids[i]] <= usage[sorted[j]]
      {
        k := k - 1;
      }
      InsertNext(ids, i, sorted, k);
      InsertKeepsAscending(usage, sorted, k, ids[i]);
      sorted := Insert(sorted, k, ids[i]);
    }
    assert ids[..|ids|] == ids;
  }

  lemma InsertNext(ids: seq<int>, i: nat, sorted: seq<int>, k: nat)
    requires Distinct(ids) && i < |ids| && Distinct(sorted) && Elements(sorted) == Elements(ids[..i]) && k <= |sorted|
    ensures var t := Insert(sorted, k, ids[i]);
            Distinct(t) && Elements(t) == Elements(ids[..i + 1])
  {
    assert forall x :: x in sorted ==> x in Elements(sorted);
    assert ids[i] !in Elements(ids[..i]);
    InsertDistinct(sorted, k, ids[i]);
    assert ids[..i + 1] == ids[..i] + [ids[i]];
    assert Elements(ids[..i + 1]) == Elements(ids[..i]) + {ids[i]};
  }

  /** One more CPU for a container. */
  function AddPin(pinning: Pinning, ctn: string, id: int): Pinning {
    if ctn in pinning then pinning[ctn := pinning[ctn] + [id]] else pinning[ctn := [id]]
  }

  function AddPins(pinning: Pinning, ctn: string, pins: seq<int>): Pinning {
    if pins == [] then pinning else AddPin(AddPins(pinning, ctn, pins[..|pins| - 1]), ctn, pins[|pins| - 1])
  }

  function AddUse(usage: Usage, id: int): Usage {
    if id in usage then usage[id := usage[id] + 1] else usage
  }

  function AddUses(usage: Usage, ids: seq<int>): Usage {
    if ids == [] then usage else AddUse(AddUses(usage, ids[..|ids| - 1]), ids[|ids| - 1])
  }

  lemma {:induction false} AddPinsIs(pinning: Pinning, ctn: string, pins: seq<int>)
    ensures PinOf(AddPins(pinning, ctn, pins), ctn) == PinOf(pinning, ctn) + pins
    ensures forall x :: x != ctn ==> PinOf(AddPins(pinning, ctn, pins), x) == PinOf(pinning, x)
  {
    if pins != [] {
      var front, last := pins[..|pins| - 1], pins[|pins| - 1];
      AddPinsIs(pinning, ctn, front);
      assert PinOf(pinning, ctn) + front + [last] == PinOf(pinning, ctn) + pins;
    }
  }

  lemma {:induction false} AddUsesIs(usage: Usage, ids: seq<int>)
    requires Distinct(ids) && forall i :: 0 <= i < |ids| ==> ids[i] in usage
    ensures AddUses(usage, ids) == Bump(usage, ids)
  {
    if ids != [] {
      var front, last := ids[..|ids| - 1], ids[|ids| - 1];
      AddUsesIs(usage, front);
      assert ids == front + [last] && last !in front;
    }
  }

  /** The inner loop over the sorted CPUs: the first `limit` of them, or all when `limit` is negative. */
  method TakeLeastUsed(usage: Usage, pinning: Pinning, ctn: string, limit: int, sorted: seq<int>)
    returns (usage': Usage, pinning': Pinning)
    requires forall i :: 0 <= i < |sorted| ==> sorted[i] in usage
    ensures usage' == AddUses(usage, sorted[..Share(limit, |sorted|)])
    ensures pinning' == AddPins(pinning, ctn, sorted[..Share(limit, |sorted|)])
  {
    usage', pinning' := usage, pinning;
    var count := limit;
    var i := 0;
    while i < |sorted| && count != 0
      invariant 0 <= i <= |sorted| && count == limit - i
      invariant limit >= 0 ==> i <= limit
      invariant usage'.Keys == usage.Keys && usage' == AddUses(usage, sorted[..i])
      invariant pinning' == AddPins(pinning, ctn, sorted[..i])
    {
      count := count - 1;
      var id := sorted[i];
      assert sorted[..i + 1][..i] == sorted[..i];
      usage', pinning' := AddUse(usage', id), AddPin(pinning', ctn, id);
      i := i + 1;
    }
  }

  // ----- the whole rebalance ---------------------------------------------------------------------------------------

  /** The usable CPUs: the effective ones that are not isolated; none at all is an error. */
  function CpusFor(effective: string, isolated: seq<int>): Option<seq<int>> {
    match Cpuset.Parse(effective)
    case None => None
    case Some(ids) => if Usable(ids, isolated) == [] then None else Some(Usable(ids, isolated))
  }

  /** The running containers' limits, unless one of them does not parse. */
  function RequestsFor(running: seq<(string, string)>, effective: string): Option<seq<Request>> {
    if running == [] then Some([])
    else
      var front, last := running[..|running| - 1], running[|running| - 1];
      match RequestsFor(front, effective)
      case None => None
      case Some(reqs) =>
        match LimitOf(last.1, effective)
        case None => None
        case Some(limit) => Some(reqs + [Request(last.0, limit)])
  }

  /** Each container's request carries its name, and the limit its setting stands for. */
  lemma {:induction false} RequestsAre(running: seq<(string, string)>, effective: string)
    ensures RequestsFor(running, effective).Some? ==>
              var reqs := RequestsFor(running, effective).value;
              |reqs| == |running| && forall i :: 0 <= i < |running| ==>
                reqs[i].name == running[i].0 && LimitOf(running[i].1, effective) == Some(reqs[i].limit)
    ensures RequestsFor(running, effective).None? ==>
              exists i :: 0 <= i < |running| && LimitOf(running[i].1, effective).None?
  {
    if running != [] {
      RequestsAre(running[..|running| - 1], effective);
    }
  }

  lemma {:induction false} RequestsPrefix(running: seq<(string, string)>, k: nat, effective: string)
    requires k <= |running| && RequestsFor(running[..k], effective).None?
    ensures RequestsFor(running, effective).None?
  {
    if k < |running| {
      var front := running[..|running| - 1];
      assert front[..k] == running[..k];
      RequestsPrefix(front, k, effective);
    } else {
      assert running[..k] == running;
    }
  }

  // the containers waiting for each CPU, in the order they asked
  type Fixed = map<int, seq<string>>

  function FixedAt(fixed: Fixed, nr: int): seq<string> {
    if nr in fixed then fixed[nr] else []
  }

  function Wanted(limit: Limit, cpus: seq<int>, nr: int): nat {
    if limit.Pinned? && nr in cpus then multiset(limit.cpus)[nr] else 0
  }

  /** How often container `name` asks for CPU `nr`. */
  function WantedBy(reqs: seq<Request>, cpus: seq<int>, name: string, nr: int): nat {
    if reqs == [] then 0
    else
      var last := reqs[|reqs| - 1];
      WantedBy(reqs[..|reqs| - 1], cpus, name, nr) + if last.name == name then Wanted(last.limit, cpus, nr) else 0
  }

  ghost predicate FixedMatches(fixed: Fixed, cpus: seq<int>, reqs: seq<Request>) {
    && (forall nr :: nr in fixed ==> nr in cpus)
    && forall nr, name :: multiset(FixedAt(fixed, nr))[name] == WantedBy(reqs, cpus, name, nr)
  }

  lemma {:induction false} WantedByIs(reqs: seq<Request>, cpus: seq<int>, i: nat, nr: int)
    requires DistinctNames(reqs) && i < |reqs|
    ensures WantedBy(reqs, cpus, reqs[i].name, nr) == Wanted(reqs[i].limit, cpus, nr)
  {
    var front := reqs[..|reqs| - 1];
    if i == |reqs| - 1 {
      WantedByNone(front, cpus, reqs[i].name, nr);
    } else {
      assert front[i] == reqs[i];
      WantedByIs(front, cpus, i, nr);
    }
  }

  lemma {:induction false} WantedByNone(reqs: seq<Request>, cpus: seq<int>, name: string, nr: int)
    requires forall i :: 0 <= i < |reqs| ==> reqs[i].name != name
    ensures WantedBy(reqs, cpus, name, nr) == 0
  {
    if reqs != [] {
      WantedByNone(reqs[..|reqs| - 1], cpus, name, nr);
    }
  }

  lemma {:induction false} WantedByNamed(reqs: seq<Request>, cpus: seq<int>, name: string, nr: int)
    requires WantedBy(reqs, cpus, name, nr) > 0
    ensures exists i :: 0 <= i < |reqs| && reqs[i].name == name
  {
    if reqs[|reqs| - 1].name != name {
      WantedByNamed(reqs[..|reqs| - 1], cpus, name, nr);
      var i :| 0 <= i < |reqs| - 1 && reqs[..|reqs| - 1][i].name == name;
      assert reqs[i].name == name;
    }
  }

  /** The loop over one pinned container's CPU list. */
  method QueuePinned(fixed: Fixed, cpus: seq<int>, ghost reqs: seq<Request>, name: string, list: seq<int>)
    returns (fixed': Fixed)
    requires FixedMatches(fixed, cpus, reqs)
    ensures FixedMatches(fixed', cpus, reqs + [Request(name, Pinned(list))])
  {
    fixed' := fixed;
    QueueNone(fixed, cpus, reqs, name);
    assert list[..0] == [];
    for j := 0 to |list|
      invariant FixedMatches(fixed', cpus, reqs + [Request(name, Pinned(list[..j]))])
    {
      QueueNext(fixed', cpus, reqs, name, list, j);
      var nr := list[j];
      if nr in cpus {
        if nr in fixed' {
          fixed' := fixed'[nr := fixed'[nr] + [name]];
        } else {
          fixed' := fixed'[nr := [name]];
        }
      }
    }
    assert list[..|list|] == list;
  }

  lemma QueueCount(fixed: Fixed, nr: int, name: string, n: int, x: string)
    ensures multiset(FixedAt(fixed[nr := FixedAt(fixed, nr) + [name]], n))[x] ==
            multiset(FixedAt(fixed, n))[x] + if n == nr && x == name then 1 else 0
  {
  }

  lemma WantedNext(cpus: seq<int>, reqs: seq<Request>, name: string, list: seq<int>, j: nat, n: int, x: string)
    requires j < |list|
    ensures WantedBy(reqs + [Request(name, Pinned(list[..j + 1]))], cpus, x, n) ==
            WantedBy(reqs + [Request(name, Pinned(list[..j]))], cpus, x, n) +
            if n == list[j] && x == name && n in cpus then 1 else 0
  {
    var before, after := reqs + [Request(name, Pinned(list[..j]))], reqs + [Request(name, Pinned(list[..j + 1]))];
    assert list[..j + 1] == list[..j] + [list[j]];
    assert before[..|before| - 1] == reqs && after[..|after| - 1] == reqs;
  }

  lemma QueueNext(fixed: Fixed, cpus: seq<int>, reqs: seq<Request>, name: string, list: seq<int>, j: nat)
    requires j < |list| && FixedMatches(fixed, cpus, reqs + [Request(name, Pinned(list[..j]))])
    ensures var fixed' := if list[j] in cpus then fixed[list[j] := FixedAt(fixed, list[j]) + [name]] else fixed;
            FixedMatches(fixed', cpus, reqs + [Request(name, Pinned(list[..j + 1]))])
    ensures list[j] !in fixed ==> FixedAt(fixed, list[j]) + [name] == [name]
  {
    var nr := list[j];
    var fixed' := if nr in cpus then fixed[nr := FixedAt(fixed, nr) + [name]] else fixed;
    forall n, x
      ensures multiset(FixedAt(fixed', n))[x] == WantedBy(reqs + [Request(name, Pinned(list[..j + 1]))], cpus, x, n)
    {
      WantedNext(cpus, reqs, name, list, j, n, x);
      QueueCount(fixed, nr, name, n, x);
    }
  }

  ghost predicate BalancedMatches(balanced: map<string, int>, cpus: seq<int>, reqs: seq<Request>) {
    && (forall i :: 0 <= i < |reqs| && reqs[i].limit.Count? ==>
          reqs[i].name in balanced && balanced[reqs[i].name] == Clamp(reqs[i].limit.n, |cpus|))
    && forall name :: name in balanced ==> exists i :: 0 <= i < |reqs| && reqs[i].name == name && reqs[i].limit.Count?
  }

  function Clamp(n: int, cpus: nat): int {
    if n < cpus then n else cpus
  }

  lemma ClassifyCount(fixed: Fixed, balanced: map<string, int>, cpus: seq<int>, reqs: seq<Request>, name: string, n: int)
    requires FixedMatches(fixed, cpus, reqs) && BalancedMatches(balanced, cpus, reqs)
    requires forall i :: 0 <= i < |reqs| ==> reqs[i].name != name
    ensures FixedMatches(fixed, cpus, reqs + [Request(name, Count(n))])
    ensures BalancedMatches(balanced[name := Clamp(n, |cpus|)], cpus, reqs + [Request(name, Count(n))])
  {
    var after := reqs + [Request(name, Count(n))];
    assert after[..|after| - 1] == reqs;
    forall nr, x
      ensures WantedBy(after, cpus, x, nr) == WantedBy(reqs, cpus, x, nr)
    {
    }
    var balanced' := balanced[name := Clamp(n, |cpus|)];
    forall x | x in balanced'
      ensures exists i :: 0 <= i < |after| && after[i].name == x && after[i].limit.Count?
    {
      if x == name {
        assert after[|reqs|].name == x;
      } else {
        var i :| 0 <= i < |reqs| && reqs[i].name == x && reqs[i].limit.Count?;
        assert after[i] == reqs[i];
      }
    }
  }

  lemma ClassifyPinned(balanced: map<string, int>, cpus: seq<int>, reqs: seq<Request>, name: string, list: seq<int>)
    requires BalancedMatches(balanced, cpus, reqs)
    ensures BalancedMatches(balanced, cpus, reqs + [Request(name, Pinned(list))])
  {
    var after := reqs + [Request(name, Pinned(list))];
    forall x | x in balanced
      ensures exists i :: 0 <= i < |after| && after[i].name == x && after[i].limit.Count?
    {
      var i :| 0 <= i < |reqs| && reqs[i].name == x && reqs[i].limit.Count?;
      assert after[i] == reqs[i];
    }
  }

  /** A container without pinned entries so far has nothing queued for it. */
  lemma QueueNone(fixed: Fixed, cpus: seq<int>, reqs: seq<Request>, name: string)
    requires FixedMatches(fixed, cpus, reqs)
    ensures FixedMatches(fixed, cpus, reqs + [Request(name, Pinned([]))])
  {
    var after := reqs + [Request(name, Pinned([]))];
    assert after[..|after| - 1] == reqs;
    forall nr, x
      ensures WantedBy(after, cpus, x, nr) == WantedBy(reqs, cpus, x, nr)
    {
    }
  }

  /** One more container's limit. */
  lemma RequestsStep(front: seq<(string, string)>, last: (string, string), effective: string, before: seq<Request>)
    requires RequestsFor(front, effective) == Some(before)
    ensures RequestsFor(front + [last], effective)
         == match LimitOf(last.1, effective)
            case None => None
            case Some(limit) => Some(before + [Request(last.0, limit)])
  {
    assert (front + [last])[..|front|] == front;
  }

  lemma NewName(running: seq<(string, string)>, i: nat, effective: string, before: seq<Request>)
    requires i < |running| && RequestsFor(running[..i], effective) == Some(before)
    requires forall j, k :: 0 <= j < k < |running| ==> running[j].0 != running[k].0
    ensures forall k :: 0 <= k < |before| ==> before[k].name != running[i].0
  {
    RequestsAre(running[..i], effective);
    forall k | 0 <= k < |before|
      ensures before[k].name != running[i].0
    {
      assert before[k].name == running[..i][k].0 == running[k].0;
    }
  }

  lemma NextRequest(running: seq<(string, string)>, i: nat, effective: string, before: seq<Request>)
    requires i < |running| && RequestsFor(running[..i], effective) == Some(before)
    requires forall j, k :: 0 <= j < k < |running| ==> running[j].0 != running[k].0
    ensures forall k :: 0 <= k < |before| ==> before[k].name != running[i].0
    ensures match LimitOf(running[i].1, effective)
            case None => RequestsFor(running, effective).None?
            case Some(limit) => RequestsFor(running[..i + 1], effective) == Some(before + [Request(running[i].0, limit)])
  {
    NewName(running, i, effective, before);
    RequestsStep(running[..i], running[i], effective, before);
    assert running[..i + 1] == running[..i] + [running[i]];
    if LimitOf(running[i].1, effective).None? {
      RequestsPrefix(running, i + 1, effective);
    }
  }

  lemma NoRequests(running: seq<(string, string)>, effective: string)
    ensures RequestsFor(running[..0], effective) == Some([])
    ensures running[..|running|] == running
  {
  }

  /** The loop over the containers: numbers are put aside for balancing, lists are queued CPU by CPU. */
  method Classify(cpus: seq<int>, effective: string, running: seq<(string, string)>)
    returns (r: Option<(Fixed, map<string, int>)>)
    requires forall i, j :: 0 <= i < j < |running| ==> running[i].0 != running[j].0
    ensures r.None? <==> RequestsFor(running, effective).None?
    ensures r.Some? ==>
              var reqs := RequestsFor(running, effective).value;
              && FixedMatches(r.value.0, cpus, reqs)
              && BalancedMatches(r.value.1, cpus, reqs)
  {
    var fixed: Fixed := map[];
    var balanced: map<string, int> := map[];
    ghost var reqs: seq<Request> := [];
    NoRequests(running, effective);
    for i := 0 to |running|
      invariant RequestsFor(running[..i], effective) == Some(reqs)
      invariant FixedMatches(fixed, cpus, reqs) && BalancedMatches(balanced, cpus, reqs)
    {
      NextRequest(running, i, effective, reqs);
      var (name, cpulimit) := running[i];
      if cpulimit == "" {
        cpulimit := effective;
      }
      var count := Atoi(cpulimit);
      if count.Some? {
        ClassifyCount(fixed, balanced, cpus, reqs, name, count.value);
        balanced := balanced[name := Clamp(count.value, |cpus|)];
        reqs := reqs + [Request(name, Count(count.value))];
      } else {
        var containerCpus := Cpuset.ParseCpuset(cpulimit);
        if containerCpus.None? {
          return None;
        }
        ClassifyPinned(balanced, cpus, reqs, name, containerCpus.value);
        fixed := QueuePinned(fixed, cpus, reqs, name, containerCpus.value);
        reqs := reqs + [Request(name, Pinned(containerCpus.value))];
      }
    }
    return Some((fixed, balanced));
  }

  ghost predicate Named(reqs: seq<Request>, name: string) {
    exists i :: 0 <= i < |reqs| && reqs[i].name == name
  }

  /** Each CPU's count is the number of times it is held. */
  ghost predicate Counted(reqs: seq<Request>, usage: Usage, pinning: Pinning) {
    forall id :: id in usage ==> usage[id] == Load(reqs, pinning, id)
  }

  /** Each container holds, of the CPUs in `done`, what was queued there, and of `cpu` the first k entries. */
  ghost predicate PlacedUpTo(fixed: Fixed, pinning: Pinning, done: set<int>, cpu: int, k: nat)
    requires k <= |FixedAt(fixed, cpu)| && cpu !in done
  {
    forall name, id ::
      multiset(PinOf(pinning, name))[id] ==
      if id in done then multiset(FixedAt(fixed, id))[name]
      else if id == cpu then multiset(FixedAt(fixed, cpu)[..k])[name]
      else 0
  }

  lemma PlaceOne(reqs: seq<Request>, usage: Usage, pinning: Pinning, ctn: string, id: int)
    requires DistinctNames(reqs) && Named(reqs, ctn) && Counted(reqs, usage, pinning) && id in usage
    ensures Counted(reqs, AddUse(usage, id), AddPin(pinning, ctn, id))
  {
    var pins := PinOf(pinning, ctn) + [id];
    assert ctn !in pinning ==> pins == [id];
    forall x | x in usage
      ensures AddUse(usage, id)[x] == Load(reqs, AddPin(pinning, ctn, id), x)
    {
      LoadAfter(reqs, pinning, ctn, pins, x);
    }
  }

  lemma PlacedNext(fixed: Fixed, pinning: Pinning, done: set<int>, cpu: int, k: nat)
    requires cpu !in done && k < |FixedAt(fixed, cpu)| && PlacedUpTo(fixed, pinning, done, cpu, k)
    ensures var ctn := FixedAt(fixed, cpu)[k];
            PlacedUpTo(fixed, AddPin(pinning, ctn, cpu), done, cpu, k + 1)
  {
    var ctn := FixedAt(fixed, cpu)[k];
    assert FixedAt(fixed, cpu)[..k + 1] == FixedAt(fixed, cpu)[..k] + [ctn];
  }

  /** The loop over the containers queued for one CPU. */
  method PlaceQueue(cpus: seq<int>, ghost reqs: seq<Request>, fixed: Fixed, usage0: Usage, pinning0: Pinning,
                    ghost done: set<int>, cpu: int)
    returns (usage: Usage, pinning: Pinning)
    requires DistinctNames(reqs) && FixedMatches(fixed, cpus, reqs) && cpu in fixed && cpu in usage0 && cpu !in done
    requires Counted(reqs, usage0, pinning0) && PlacedUpTo(fixed, pinning0, done, cpu, 0)
    ensures usage.Keys == usage0.Keys && Counted(reqs, usage, pinning)
    ensures PlacedUpTo(fixed, pinning, done, cpu, |FixedAt(fixed, cpu)|)
  {
    usage, pinning := usage0, pinning0;
    var ctns := fixed[cpu];
    for k := 0 to |ctns|
      invariant usage.Keys == usage0.Keys && Counted(reqs, usage, pinning)
      invariant PlacedUpTo(fixed, pinning, done, cpu, k)
    {
      var ctn := ctns[k];
      QueuedIsNamed(fixed, cpus, reqs, cpu, k);
      PlaceOne(reqs, usage, pinning, ctn, cpu);
      PlacedNext(fixed, pinning, done, cpu, k);
      usage, pinning := AddUse(usage, cpu), AddPin(pinning, ctn, cpu);
    }
  }

  /** The loop over the CPUs that pinned containers asked for, in any order. */
  method PlacePinned(cpus: seq<int>, ghost reqs: seq<Request>, fixed: Fixed) returns (usage: Usage, pinning: Pinning)
    requires DistinctNames(reqs) && FixedMatches(fixed, cpus, reqs)
    ensures usage.Keys == Elements(cpus) && Counted(reqs, usage, pinning)
    ensures forall name, id :: multiset(PinOf(pinning, name))[id] == WantedBy(reqs, cpus, name, id)
  {
    pinning := map[];
    usage := map id | id in cpus :: 0;
    forall id | id in usage
      ensures Load(reqs, pinning, id) == 0
    {
      LoadOfNothing(reqs, id);
    }
    var todo := fixed.Keys;
    while todo != {}
      invariant todo <= fixed.Keys
      invariant usage.Keys == Elements(cpus) && Counted(reqs, usage, pinning)
      invariant forall name, id ::
          multiset(PinOf(pinning, name))[id] == if id in fixed.Keys - todo then multiset(FixedAt(fixed, id))[name] else 0
    {
      ghost var some := SomeElement(todo);
      var cpu :| cpu in todo;
      ghost var done := fixed.Keys - todo;
      if cpu !in usage {
        assert false;
      }
      assert FixedAt(fixed, cpu)[..0] == [];
      usage, pinning := PlaceQueue(cpus, reqs, fixed, usage, pinning, done, cpu);
      assert FixedAt(fixed, cpu)[..|FixedAt(fixed, cpu)|] == FixedAt(fixed, cpu);
      todo := todo - {cpu};
      assert fixed.Keys - todo == done + {cpu};
    }
    assert fixed.Keys - todo == fixed.Keys;
  }

  lemma {:induction false} LoadOfNothing(reqs: seq<Request>, id: int)
    ensures Load(reqs, map[], id) == 0
  {
    if reqs != [] {
      LoadOfNothing(reqs[..|reqs| - 1], id);
    }
  }

  lemma QueuedIsNamed(fixed: Fixed, cpus: seq<int>, reqs: seq<Request>, cpu: int, k: nat)
    requires FixedMatches(fixed, cpus, reqs) && k < |FixedAt(fixed, cpu)|
    ensures Named(reqs, FixedAt(fixed, cpu)[k])
  {
    var ctn := FixedAt(fixed, cpu)[k];
    assert multiset(FixedAt(fixed, cpu))[ctn] > 0;
    WantedByNamed(reqs, cpus, ctn, cpu);
  }

  /** Served: pinned containers, and the balanced ones no longer waiting, hold what they are granted. */
  ghost predicate ServedExcept(cpus: seq<int>, reqs: seq<Request>, pinning: Pinning, waiting: set<string>) {
    forall i :: 0 <= i < |reqs| ==>
      if reqs[i].limit.Count? && reqs[i].name in waiting then PinOf(pinning, reqs[i].name) == []
      else Granted(cpus, reqs[i].limit, PinOf(pinning, reqs[i].name))
  }

  lemma {:induction false} ServeOneCounted(reqs: seq<Request>, usage: Usage, pinning: Pinning, ctn: string, picked: seq<int>)
    requires DistinctNames(reqs) && Named(reqs, ctn) && Counted(reqs, usage, pinning)
    requires forall i :: 0 <= i < |picked| ==> picked[i] in usage
    ensures AddUses(usage, picked).Keys == usage.Keys
    ensures Counted(reqs, AddUses(usage, picked), AddPins(pinning, ctn, picked))
  {
    if picked != [] {
      var front, last := picked[..|picked| - 1], picked[|picked| - 1];
      ServeOneCounted(reqs, usage, pinning, ctn, front);
      PlaceOne(reqs, AddUses(usage, front), AddPins(pinning, ctn, front), ctn, last);
    }
  }

  lemma OnlyOneNamed(reqs: seq<Request>, i: nat, j: nat)
    requires DistinctNames(reqs) && i < |reqs| && j < |reqs| && i != j
    ensures reqs[i].name != reqs[j].name
  {
  }

  lemma ServeOneGranted(cpus: seq<int>, reqs: seq<Request>, pinning: Pinning, waiting: set<string>, i: nat,
                        picked: seq<int>)
    requires DistinctNames(reqs) && i < |reqs| && reqs[i].limit.Count? && reqs[i].name in waiting
    requires ServedExcept(cpus, reqs, pinning, waiting) && Granted(cpus, reqs[i].limit, picked)
    ensures ServedExcept(cpus, reqs, AddPins(pinning, reqs[i].name, picked), waiting - {reqs[i].name})
  {
    var ctn := reqs[i].name;
    AddPinsIs(pinning, ctn, picked);
    assert PinOf(pinning, ctn) == [];
    assert [] + picked == picked;
    forall j | 0 <= j < |reqs| && j != i
      ensures reqs[j].name != ctn
    {
      OnlyOneNamed(reqs, i, j);
    }
  }

  lemma SortedInUsage(usage: Usage, sorted: seq<int>)
    requires SortedByUsage(usage, sorted)
    ensures forall i :: 0 <= i < |sorted| ==> sorted[i] in usage
  {
    assert forall i :: 0 <= i < |sorted| ==> sorted[i] in Elements(sorted);
  }

  lemma LeastUsedIsGranted(cpus: seq<int>, usage: Usage, sorted: seq<int>, n: int)
    requires usage.Keys == Elements(cpus) && SortedByUsage(usage, sorted)
    ensures Granted(cpus, Count(n), sorted[..Share(n, |sorted|)])
  {
    DistinctCardinality(sorted);
    assert forall x :: x in sorted <==> x in Elements(sorted);
  }

  lemma ServeOne(cpus: seq<int>, reqs: seq<Request>, usage: Usage, pinning: Pinning, waiting: set<string>,
                 ctn: string, sorted: seq<int>, n: int)
    requires DistinctNames(reqs) && usage.Keys == Elements(cpus) && Counted(reqs, usage, pinning)
    requires ServedExcept(cpus, reqs, pinning, waiting) && ctn in waiting && SortedByUsage(usage, sorted)
    requires exists i :: 0 <= i < |reqs| && reqs[i].name == ctn && reqs[i].limit == Count(n)
    ensures var picked := sorted[..Share(n, |sorted|)];
            && Counted(reqs, AddUses(usage, picked), AddPins(pinning, ctn, picked))
            && AddUses(usage, picked) == Bump(usage, picked)
            && ServedExcept(cpus, reqs, AddPins(pinning, ctn, picked), waiting - {ctn})
  {
    SortedInUsage(usage, sorted);
    AddUsesIs(usage, sorted[..Share(n, |sorted|)]);
    var i :| 0 <= i < |reqs| && reqs[i].name == ctn && reqs[i].limit == Count(n);
    LeastUsedIsGranted(cpus, usage, sorted, n);
    ServeOneGranted(cpus, reqs, pinning, waiting, i, sorted[..Share(n, |sorted|)]);
    ServeOneCounted(reqs, usage, pinning, ctn, sorted[..Share(n, |sorted|)]);
  }

  /** The CPUs of the usage map as a list, in any order. */
  method CpuList(usage: Usage) returns (sortedUsage: seq<int>)
    ensures Distinct(sortedUsage) && Elements(sortedUsage) == usage.Keys
  {
    sortedUsage := [];
    var ids := usage.Keys;
    while ids != {}
      invariant ids <= usage.Keys && Distinct(sortedUsage) && Elements(sortedUsage) == usage.Keys - ids
    {
      ghost var some := SomeElement(ids);
      var id :| id in ids;
      assert id !in Elements(sortedUsage);
      assert forall x :: x in sortedUsage ==> x in Elements(sortedUsage);
      InsertDistinct(sortedUsage, |sortedUsage|, id);
      assert Insert(sortedUsage, |sortedUsage|, id) == sortedUsage + [id];
      sortedUsage := sortedUsage + [id];
      ids := ids - {id};
    }
  }

  /** The loop over the balanced containers, in any order. */
  method BalanceCounts(cpus: seq<int>, ghost reqs: seq<Request>, usage0: Usage, pinning0: Pinning,
                       balanced: map<string, int>)
    returns (usage: Usage, pinning: Pinning)
    requires DistinctNames(reqs) && usage0.Keys == Elements(cpus) && Counted(reqs, usage0, pinning0)
    requires BalancedMatches(balanced, cpus, reqs) && ServedExcept(cpus, reqs, pinning0, balanced.Keys)
    ensures Settled(cpus, reqs, usage, pinning)
    ensures KeepsGaps(usage0, usage)
  {
    usage, pinning := usage0, pinning0;
    var sortedUsage := CpuList(usage);
    var waiting := balanced.Keys;
    while waiting != {}
      invariant waiting <= balanced.Keys
      invariant Distinct(sortedUsage) && Elements(sortedUsage) == usage.Keys
      invariant InBalance(cpus, reqs, usage0, usage, pinning, waiting)
    {
      ghost var some := SomeElement(waiting);
      var ctn :| ctn in waiting;
      sortedUsage := SortByUsage(usage, sortedUsage);
      BalanceOne(cpus, reqs, usage0, usage, pinning, balanced, waiting, ctn, sortedUsage);
      usage, pinning := TakeLeastUsed(usage, pinning, ctn, balanced[ctn], sortedUsage);
      waiting := waiting - {ctn};
    }
  }

  /** Counts and holdings agree, all but the waiting containers are served, and no gap has widened. */
  ghost predicate InBalance(cpus: seq<int>, reqs: seq<Request>, usage0: Usage, usage: Usage, pinning: Pinning,
                            waiting: set<string>)
  {
    && usage.Keys == Elements(cpus) && Counted(reqs, usage, pinning)
    && ServedExcept(cpus, reqs, pinning, waiting)
    && KeepsGaps(usage0, usage)
  }

  lemma BalanceOne(cpus: seq<int>, reqs: seq<Request>, usage0: Usage, usage: Usage, pinning: Pinning,
                   balanced: map<string, int>, waiting: set<string>, ctn: string, sorted: seq<int>)
    requires DistinctNames(reqs) && BalancedMatches(balanced, cpus, reqs) && ctn in waiting && waiting <= balanced.Keys
    requires InBalance(cpus, reqs, usage0, usage, pinning, waiting) && SortedByUsage(usage, sorted)
    ensures forall i :: 0 <= i < |sorted| ==> sorted[i] in usage
    ensures var picked := sorted[..Share(balanced[ctn], |sorted|)];
            && InBalance(cpus, reqs, usage0, AddUses(usage, picked), AddPins(pinning, ctn, picked), waiting - {ctn})
            && AddUses(usage, picked).Keys == usage.Keys
  {
    SortedInUsage(usage, sorted);
    var n := ClampIsShare(cpus, reqs, balanced, ctn, usage, sorted);
    ServeOne(cpus, reqs, usage, pinning, waiting, ctn, sorted, n);
    BumpKeepsGaps(usage0, usage, sorted, Share(n, |sorted|));
  }

  lemma ClampIsShare(cpus: seq<int>, reqs: seq<Request>, balanced: map<string, int>, ctn: string, usage: Usage,
                     sorted: seq<int>) returns (n: int)
    requires BalancedMatches(balanced, cpus, reqs) && ctn in balanced
    requires usage.Keys == Elements(cpus) && SortedByUsage(usage, sorted)
    ensures exists i :: 0 <= i < |reqs| && reqs[i].name == ctn && reqs[i].limit == Count(n)
    ensures Share(balanced[ctn], |sorted|) == Share(n, |sorted|)
  {
    var i :| 0 <= i < |reqs| && reqs[i].name == ctn && reqs[i].limit.Count?;
    n := reqs[i].limit.n;
    DistinctFits(sorted, Elements(cpus));
    ElementsAtMost(cpus);
  }

  lemma {:induction false} ElementsAtMost(s: seq<int>)
    ensures |Elements(s)| <= |s|
  {
    if s != [] {
      ElementsAtMost(s[..|s| - 1]);
      assert Elements(s) == Elements(s[..|s| - 1]) + {s[|s| - 1]};
    }
  }

  /** The gap between CPUs that the pinned containers alone would leave. */
  ghost predicate PinnedGap(cpus: seq<int>, reqs: seq<Request>, g: int) {
    forall a, b :: a in cpus && b in cpus ==> PinnedLoad(reqs, a) - PinnedLoad(reqs, b) <= g
  }

  lemma {:induction false} LoadIsPinnedLoad(cpus: seq<int>, reqs: seq<Request>, pinning: Pinning, id: int)
    requires id in cpus
    requires forall i :: 0 <= i < |reqs| ==> multiset(PinOf(pinning, reqs[i].name))[id] == Wanted(reqs[i].limit, cpus, id)
    ensures Load(reqs, pinning, id) == PinnedLoad(reqs, id)
  {
    if reqs != [] {
      LoadIsPinnedLoad(cpus, reqs[..|reqs| - 1], pinning, id);
    }
  }

  lemma HeldSome(pins: seq<int>)
    requires pins != []
    ensures multiset(pins)[pins[0]] > 0
  {
    assert pins[0] in multiset(pins);
  }

  lemma NoneHeld(pins: seq<int>)
    requires forall id :: multiset(pins)[id] == 0
    ensures pins == []
  {
    if pins != [] {
      var first := pins[0];
      assert multiset(pins)[first] == 0;
      HeldSome(pins);
    }
  }

  lemma PinnedAreServed(cpus: seq<int>, reqs: seq<Request>, usage: Usage, pinning: Pinning, balanced: map<string, int>)
    requires DistinctNames(reqs) && BalancedMatches(balanced, cpus, reqs)
    requires usage.Keys == Elements(cpus) && Counted(reqs, usage, pinning)
    requires forall name, id :: multiset(PinOf(pinning, name))[id] == WantedBy(reqs, cpus, name, id)
    ensures ServedExcept(cpus, reqs, pinning, balanced.Keys)
    ensures forall g :: PinnedGap(cpus, reqs, g) ==> WithinGap(usage, g)
  {
    forall i, id | 0 <= i < |reqs|
      ensures multiset(PinOf(pinning, reqs[i].name))[id] == Wanted(reqs[i].limit, cpus, id)
    {
      WantedByIs(reqs, cpus, i, id);
    }
    forall i | 0 <= i < |reqs| && reqs[i].limit.Count?
      ensures PinOf(pinning, reqs[i].name) == []
    {
      forall id
        ensures multiset(PinOf(pinning, reqs[i].name))[id] == 0
      {
        WantedByIs(reqs, cpus, i, id);
      }
      NoneHeld(PinOf(pinning, reqs[i].name));
    }
    forall id | id in usage
      ensures usage[id] == PinnedLoad(reqs, id)
    {
      assert id in Elements(cpus);
      LoadIsPinnedLoad(cpus, reqs, pinning, id);
    }
    forall g | PinnedGap(cpus, reqs, g)
      ensures WithinGap(usage, g)
    {
      assert forall id :: id in usage ==> id in Elements(cpus);
    }
  }

  lemma UsableReparsed(effective: string, isolated: seq<int>)
    requires Cpuset.Parse(effective).Some?
    ensures Cpuset.Parse(Cpuset.JoinIds(Usable(Cpuset.Parse(effective).value, isolated))) == CpusFor(effective, isolated)
  {
    UsableInRange(effective, isolated);
    Cpuset.JoinThenParse(Usable(Cpuset.Parse(effective).value, isolated));
  }

  /** The usable CPUs, by way of printing the list that is left and parsing it again. */
  method UsableCpus(effective: string, isolated: seq<int>) returns (cpus: Option<seq<int>>, printed: string)
    ensures cpus == CpusFor(effective, isolated)
    ensures cpus.Some? ==> printed == Cpuset.JoinIds(cpus.value)
  {
    printed := "";
    var effectiveCpusInt := Cpuset.ParseCpuset(effective);
    if effectiveCpusInt.None? {
      return None, printed;
    }
    var effectiveCpusSlice := Usable(effectiveCpusInt.value, isolated);
    UsableReparsed(effective, isolated);
    printed := Cpuset.JoinIds(effectiveCpusSlice);
    cpus := Cpuset.ParseCpuset(printed);
  }

  lemma UsableInRange(effective: string, isolated: seq<int>)
    requires Cpuset.Parse(effective).Some?
    ensures var ids := Usable(Cpuset.Parse(effective).value, isolated);
            forall i :: 0 <= i < |ids| ==> 0 <= ids[i] <= MAX_INT
  {
    Cpuset.ParsedInRange(Split(effective, ','));
    var ids := Usable(Cpuset.Parse(effective).value, isolated);
    forall i | 0 <= i < |ids|
      ensures 0 <= ids[i] <= MAX_INT
    {
      assert ids[i] in ids;
    }
  }

  predicate NonePinned(reqs: seq<Request>) {
    forall i :: 0 <= i < |reqs| ==> reqs[i].limit.Count?
  }

  /** Every CPU serves the average number of containers, rounded down or up. */
  predicate EvenlySpread(cpus: seq<int>, reqs: seq<Request>, usage: Usage) {
    cpus != [] && forall id :: id in usage ==>
      |Elements(cpus)| > 0 && RoundedAverage(TotalShares(reqs, |Elements(cpus)|), |Elements(cpus)|, usage[id])
  }

  lemma {:induction false} NoPinnedLoad(reqs: seq<Request>, id: int)
    requires NonePinned(reqs)
    ensures PinnedLoad(reqs, id) == 0
  {
    if reqs != [] {
      NoPinnedLoad(reqs[..|reqs| - 1], id);
    }
  }

  /** Without pinned containers the pinned loads leave no gap, and the containers are spread evenly. */
  lemma EvenRebalance(cpus: seq<int>, reqs: seq<Request>, usage: Usage, pinning: Pinning)
    requires Settled(cpus, reqs, usage, pinning) && cpus != []
    requires forall g :: g >= 1 && PinnedGap(cpus, reqs, g) ==> WithinGap(usage, g)
    ensures NonePinned(reqs) ==> EvenlySpread(cpus, reqs, usage)
  {
    if NonePinned(reqs) {
      forall id
        ensures PinnedLoad(reqs, id) == 0
      {
        NoPinnedLoad(reqs, id);
      }
      assert PinnedGap(cpus, reqs, 1);
      var ids := ListOf(Elements(cpus));
      assert cpus[0] in Elements(cpus);
      forall id | id in usage
        ensures RoundedAverage(TotalShares(reqs, |Elements(cpus)|), |Elements(cpus)|, usage[id])
      {
        EvenSplit(cpus, reqs, usage, pinning, ids, id);
      }
    }
  }

  lemma ListOf(some: set<int>) returns (ids: seq<int>)
    ensures Distinct(ids) && Elements(ids) == some
  {
    ids := [];
    var rest := some;
    while rest != {}
      invariant rest <= some && Distinct(ids) && Elements(ids) == some - rest
    {
      var id := SomeElement(rest);
      assert forall x :: x in ids ==> x in Elements(ids);
      assert Elements(ids + [id]) == Elements(ids) + {id};
      ids, rest := ids + [id], rest - {id};
    }
  }

  // ----- the outcome in terms of the settings ----------------------------------------------------------------------

  /** The effective CPUs are a list, not all of them isolated, and each setting is empty, a number or a list. */
  predicate Readable(effective: string, isolated: seq<int>, running: seq<(string, string)>) {
    && Cpuset.Parse(effective).Some?
    && (exists id :: id in Cpuset.Parse(effective).value && id !in isolated)
    && forall i :: 0 <= i < |running| ==>
         running[i].1 == "" || Atoi(running[i].1).Some? || Cpuset.Parse(running[i].1).Some?
  }

  lemma ReadableIff(effective: string, isolated: seq<int>, running: seq<(string, string)>)
    ensures Readable(effective, isolated, running) <==>
            && CpusFor(effective, isolated).Some?
            && RequestsFor(running, Cpuset.JoinIds(CpusFor(effective, isolated).value)).Some?
    ensures CpusFor(effective, isolated).Some? ==>
              forall id :: id in CpusFor(effective, isolated).value <==> id in Cpuset.Parse(effective).value && id !in isolated
  {
    if CpusFor(effective, isolated).Some? {
      var cpus := CpusFor(effective, isolated).value;
      var printed := Cpuset.JoinIds(cpus);
      assert cpus == Usable(Cpuset.Parse(effective).value, isolated);
      assert cpus[0] in cpus;
      UsableInRange(effective, isolated);
      Cpuset.JoinThenParse(cpus);
      RequestsAre(running, printed);
    } else if Cpuset.Parse(effective).Some? {
      assert Usable(Cpuset.Parse(effective).value, isolated) == [];
      assert forall id :: id !in Usable(Cpuset.Parse(effective).value, isolated);
    }
  }

  /** A container whose setting is a number n gets n distinct CPUs, and all when there are fewer or n is negative. */
  ghost predicate NumbersServed(running: seq<(string, string)>, usage: Usage, pinning: Pinning) {
    forall i, n :: 0 <= i < |running| && running[i].1 == Itoa(n) && MIN_INT <= n <= MAX_INT ==>
      HasNumber(usage, n, PinOf(pinning, running[i].0))
  }

  ghost predicate HasNumber(usage: Usage, n: int, pins: seq<int>) {
    && Distinct(pins)
    && (forall id :: id in pins ==> id in usage)
    && |pins| == if 0 <= n <= |usage| then n else |usage|
  }

  lemma GrantedNumber(cpus: seq<int>, usage: Usage, n: int, pins: seq<int>)
    requires Granted(cpus, Count(n), pins) && usage.Keys == Elements(cpus)
    ensures HasNumber(usage, n, pins)
  {
    assert |usage.Keys| == |usage|;
    assert forall id :: id in cpus ==> id in Elements(cpus);
  }

  /** A printed list that is no number. */
  predicate IsList(es: seq<Cpuset.Entry>) {
    es != [] && (|es| >= 2 || es[0].Run?) && forall i :: 0 <= i < |es| ==> es[i].InRange()
  }

  /** A container whose setting is a list gets the usable CPUs of that list, each as often as listed. */
  ghost predicate ListsServed(running: seq<(string, string)>, usage: Usage, pinning: Pinning) {
    forall i, es :: 0 <= i < |running| && IsList(es) && running[i].1 == Printed(es) ==>
      HasList(usage, Cpuset.Expand(es), PinOf(pinning, running[i].0))
  }

  function Printed(es: seq<Cpuset.Entry>): string {
    Join(Cpuset.PrintAll(es), ',')
  }

  ghost predicate HasList(usage: Usage, list: seq<int>, pins: seq<int>) {
    forall id :: multiset(pins)[id] == if id in usage then multiset(list)[id] else 0
  }

  /** What so many limits come to on so many CPUs. */
  function TotalLimits(limits: seq<int>, cpus: nat): nat {
    if limits == [] then 0
    else
      var n := limits[|limits| - 1];
      TotalLimits(limits[..|limits| - 1], cpus) + if 0 <= n <= cpus then n else cpus
  }

  /** When all settings are numbers, every CPU serves the average number of containers, rounded down or up. */
  ghost predicate NumbersSpread(running: seq<(string, string)>, usage: Usage) {
    forall limits :: AreLimits(running, limits) && |usage| > 0 ==> IsSpread(TotalLimits(limits, |usage|), usage)
  }

  predicate IsSpread(total: int, usage: Usage)
    requires |usage| > 0
  {
    forall id :: id in usage ==> total / |usage| <= usage[id] <= (total + |usage| - 1) / |usage|
  }

  ghost predicate AreLimits(running: seq<(string, string)>, limits: seq<int>) {
    |limits| == |running| &&
    forall i :: 0 <= i < |running| ==> running[i].1 == Itoa(limits[i]) && MIN_INT <= limits[i] <= MAX_INT
  }

  lemma NumberIsCount(n: int, effective: string)
    requires MIN_INT <= n <= MAX_INT
    ensures LimitOf(Itoa(n), effective) == Some(Count(n))
  {
    AtoiItoa(n);
  }

  lemma ListIsPinned(es: seq<Cpuset.Entry>, effective: string)
    requires IsList(es)
    ensures LimitOf(Printed(es), effective) == Some(Pinned(Cpuset.Expand(es)))
  {
    var parts := Cpuset.PrintAll(es);
    var s := Join(parts, ',');
    Cpuset.ParsePrinted(es);
    assert parts[0] != [];
    if |es| >= 2 {
      assert s == parts[0] + [','] + Join(parts[1..], ',');
      NotANumber(s, |parts[0]|);
    } else {
      assert s == parts[0] == Itoa(es[0].low) + ['-'] + Itoa(es[0].high);
      NotANumber(s, |Itoa(es[0].low)|);
    }
  }

  lemma NumbersAreServed(cpus: seq<int>, running: seq<(string, string)>, effective: string, usage: Usage, pinning: Pinning)
    requires RequestsFor(running, effective).Some? && Settled(cpus, RequestsFor(running, effective).value, usage, pinning)
    ensures NumbersServed(running, usage, pinning)
  {
    forall i, n | 0 <= i < |running| && running[i].1 == Itoa(n) && MIN_INT <= n <= MAX_INT
      ensures HasNumber(usage, n, PinOf(pinning, running[i].0))
    {
      NumberIsCount(n, effective);
      PinsGranted(cpus, running, effective, usage, pinning, i, Count(n));
      GrantedNumber(cpus, usage, n, PinOf(pinning, running[i].0));
    }
  }

  lemma ListsAreServed(cpus: seq<int>, running: seq<(string, string)>, effective: string, usage: Usage, pinning: Pinning)
    requires RequestsFor(running, effective).Some? && Settled(cpus, RequestsFor(running, effective).value, usage, pinning)
    ensures ListsServed(running, usage, pinning)
  {
    forall i, es | 0 <= i < |running| && IsList(es) && running[i].1 == Printed(es)
      ensures HasList(usage, Cpuset.Expand(es), PinOf(pinning, running[i].0))
    {
      ListIsPinned(es, effective);
      PinsGranted(cpus, running, effective, usage, pinning, i, Pinned(Cpuset.Expand(es)));
      GrantedList(cpus, usage, Cpuset.Expand(es), PinOf(pinning, running[i].0));
    }
  }

  lemma GrantedList(cpus: seq<int>, usage: Usage, list: seq<int>, pins: seq<int>)
    requires Granted(cpus, Pinned(list), pins) && usage.Keys == Elements(cpus)
    ensures HasList(usage, list, pins)
  {
    assert forall id :: id in cpus <==> id in usage.Keys;
  }

  lemma PinsGranted(cpus: seq<int>, running: seq<(string, string)>, effective: string, usage: Usage, pinning: Pinning,
                    i: nat, limit: Limit)
    requires RequestsFor(running, effective).Some? && Settled(cpus, RequestsFor(running, effective).value, usage, pinning)
    requires i < |running| && LimitOf(running[i].1, effective) == Some(limit)
    ensures Granted(cpus, limit, PinOf(pinning, running[i].0))
  {
    RequestsAre(running, effective);
  }

  lemma {:induction false} LimitsAreShares(running: seq<(string, string)>, effective: string, limits: seq<int>, cpus: nat)
    requires AreLimits(running, limits)
    ensures RequestsFor(running, effective).Some? && NonePinned(RequestsFor(running, effective).value)
    ensures TotalShares(RequestsFor(running, effective).value, cpus) == TotalLimits(limits, cpus)
  {
    if running != [] {
      var k := |running| - 1;
      LimitsAreShares(running[..k], effective, limits[..k], cpus);
      NumberIsCount(limits[k], effective);
    }
  }

  lemma SpreadIs(cpus: seq<int>, reqs: seq<Request>, usage: Usage, total: int)
    requires EvenlySpread(cpus, reqs, usage) && usage.Keys == Elements(cpus) && |usage| > 0
    requires total == TotalShares(reqs, |usage|)
    ensures IsSpread(total, usage)
  {
    assert |usage.Keys| == |usage|;
  }

  lemma NumbersAreSpread(cpus: seq<int>, running: seq<(string, string)>, effective: string, usage: Usage)
    requires RequestsFor(running, effective).Some? && usage.Keys == Elements(cpus)
    requires NonePinned(RequestsFor(running, effective).value) ==>
               EvenlySpread(cpus, RequestsFor(running, effective).value, usage)
    ensures NumbersSpread(running, usage)
  {
    assert |usage.Keys| == |usage|;
    forall limits | AreLimits(running, limits) && |usage| > 0
      ensures IsSpread(TotalLimits(limits, |usage|), usage)
    {
      LimitsAreShares(running, effective, limits, |usage|);
      SpreadIs(cpus, RequestsFor(running, effective).value, usage, TotalLimits(limits, |usage|));
    }
  }

  /**
   deviceTaskBalance, from the host's effective and isolated CPUs and the limits.cpu of the running containers.
   Whatever order maps and sorting happen to take, every container ends up with what its limit grants, the counts
   are conserved, and the gap between CPUs is at most that of the pinned containers alone, or 1.
   */
  method Rebalance(effective: string, isolated: seq<int>, running: seq<(string, string)>)
    returns (r: Option<(Usage, Pinning)>)
    requires forall i, j :: 0 <= i < j < |running| ==> running[i].0 != running[j].0
    ensures r.None? <==> CpusFor(effective, isolated).None? ||
                         RequestsFor(running, Cpuset.JoinIds(CpusFor(effective, isolated).value)).None?
    ensures r.Some? ==>
              var cpus := CpusFor(effective, isolated).value;
              var reqs := RequestsFor(running, Cpuset.JoinIds(cpus)).value;
              && Settled(cpus, reqs, r.value.0, r.value.1)
              && (forall g :: g >= 1 && PinnedGap(cpus, reqs, g) ==> WithinGap(r.value.0, g))
              && (NonePinned(reqs) ==> EvenlySpread(cpus, reqs, r.value.0))
    ensures r.None? <==> !Readable(effective, isolated, running)
    ensures r.Some? ==>
              && (forall id :: id in r.value.0 <==> id in Cpuset.Parse(effective).value && id !in isolated)
              && NumbersServed(running, r.value.0, r.value.1)
              && ListsServed(running, r.value.0, r.value.1)
              && NumbersSpread(running, r.value.0)
  {
    var cpus, effectiveCpus := UsableCpus(effective, isolated);
    ReadableIff(effective, isolated, running);
    if cpus.None? {
      return None;
    }
    assert forall id :: id in cpus.value <==> id in Elements(cpus.value);
    var classes := Classify(cpus.value, effectiveCpus, running);
    if classes.None? {
      return None;
    }
    ghost var reqs := RequestsFor(running, effectiveCpus).value;
    RequestsAre(running, effectiveCpus);
    var usage, pinning := BalanceThings(cpus.value, reqs, classes.value.0, classes.value.1);
    EvenRebalance(cpus.value, reqs, usage, pinning);
    NumbersAreServed(cpus.value, running, effectiveCpus, usage, pinning);
    ListsAreServed(cpus.value, running, effectiveCpus, usage, pinning);
    NumbersAreSpread(cpus.value, running, effectiveCpus, usage);
    return Some((usage, pinning));
  }

  /** "Balance things": pinned containers first, then the counted ones. */
  method BalanceThings(cpus: seq<int>, ghost reqs: seq<Request>, fixed: Fixed, balanced: map<string, int>)
    returns (usage: Usage, pinning: Pinning)
    requires DistinctNames(reqs) && FixedMatches(fixed, cpus, reqs) && BalancedMatches(balanced, cpus, reqs)
    ensures Settled(cpus, reqs, usage, pinning)
    ensures forall g :: g >= 1 && PinnedGap(cpus, reqs, g) ==> WithinGap(usage, g)
  {
    usage, pinning := PlacePinned(cpus, reqs, fixed);
    PinnedAreServed(cpus, reqs, usage, pinning, balanced);
    usage, pinning := BalanceCounts(cpus, reqs, usage, pinning, balanced);
  }

  /** Without a limit a container gets all usable CPUs, unless the host's only usable CPU is CPU 0: "0" is a count. */
  lemma DefaultLimit(cpus: seq<int>)
    requires cpus != [] && Distinct(cpus) && forall i :: 0 <= i < |cpus| ==> 0 <= cpus[i] <= MAX_INT
    ensures var limit := LimitOf("", Cpuset.JoinIds(cpus));
            && limit.Some?
            && limit.value == (if |cpus| == 1 then Count(cpus[0]) else Pinned(cpus))
            && (Granted(cpus, limit.value, cpus) <==> cpus != [0])
  {
    Cpuset.JoinThenParse(cpus);
    DistinctCardinality(cpus);
    var printed := seq(|cpus|, i requires 0 <= i < |cpus| => Itoa(cpus[i]));
    if |cpus| == 1 {
      AtoiItoa(cpus[0]);
      assert Cpuset.JoinIds(cpus) == Itoa(cpus[0]);
    } else {
      var s := Cpuset.JoinIds(cpus);
      assert s == printed[0] + [','] + Join(printed[1..], ',');
      assert s[|printed[0]|] == ',';
      Cpuset.PlainDigits(cpus[0], '-');
      NotANumber(s, |printed[0]|);
      forall id
        ensures multiset(cpus)[id] == if id in cpus then multiset(cpus)[id] else 0
      {
        assert id in cpus <==> multiset(cpus)[id] > 0;
      }
    }
  }

  lemma NotANumber(s: string, k: nat)
    requires 0 < k < |s| && !IsDigit(s[k])
    ensures Atoi(s).None?
  {
    assert s[1..][k - 1] == s[k];
  }
}
