/**
 The end of a rebalance: each container's CPUs are sorted as strings, joined and written to its cpuset. What the
 kernel then reads is what the container was granted.
 */
module CpuPinning {
  import opened Prelude
  import opened Text
  import opened CpuBalancer
  import Cpuset

  // the cpuset.cpus of each container
  type Cpusets = map<string, string>

  // ----- sorting as strings ----------------------------------------------------------------------------------------

  /** The order of strings, character by character. */
  predicate Before(a: string, b: string) {
    b != [] && (a == [] || a[0] < b[0] || (a[0] == b[0] && Before(a[1..], b[1..])))
  }

  lemma {:induction false} BeforeIsOneWay(a: string, b: string)
    ensures Before(a, b) ==> !Before(b, a)
  {
    if a != [] && b != [] && a[0] == b[0] {
      BeforeIsOneWay(a[1..], b[1..]);
    }
  }

  predicate PrintsBefore(a: int, b: int) {
    Before(Itoa(a), Itoa(b))
  }

  ghost predicate OneWay(less: (int, int) -> bool) {
    forall a, b :: less(a, b) ==> !less(b, a)
  }

  lemma NeverBothWays(less: (int, int) -> bool, a: int, b: int)
    requires OneWay(less)
    ensures less(a, b) ==> !less(b, a)
  {
  }

  predicate SortedBy(less: (int, int) -> bool, ids: seq<int>) {
    forall i :: 0 < i < |ids| ==> !less(ids[i], ids[i - 1])
  }

  lemma InsertKeepsSorted(less: (int, int) -> bool, sorted: seq<int>, k: nat, id: int)
    requires SortedBy(less, sorted) && k <= |sorted|
    requires k > 0 ==> !less(id, sorted[k - 1])
    requires k < |sorted| ==> !less(sorted[k], id)
    ensures SortedBy(less, Insert(sorted, k, id))
  {
  }

  lemma InsertAdds(s: seq<int>, k: nat, id: int)
    requires k <= |s|
    ensures multiset(Insert(s, k, id)) == multiset(s) + multiset{id}
  {
    assert s == s[..k] + s[k..];
  }

  lemma NextAdds(ids: seq<int>, i: nat)
    requires i < |ids|
    ensures multiset(ids[..i + 1]) == multiset(ids[..i]) + multiset{ids[i]}
  {
    assert ids[..i + 1] == ids[..i] + [ids[i]];
  }

  /** sort.Sort with a comparison that never holds both ways. */
  method Sort(less: (int, int) -> bool, ids: seq<int>) returns (sorted: seq<int>)
    requires OneWay(less)
    ensures SortedBy(less, sorted) && multiset(sorted) == multiset(ids)
  {
    sorted := [];
    for i := 0 to |ids|
      invariant SortedBy(less, sorted) && multiset(sorted) == multiset(ids[..i])
    {
      var k := |sorted|;
      while k > 0 && less(ids[i], sorted[k - 1])
        invariant 0 <= k <= |sorted| && (k < |sorted| ==> !less(sorted[k], ids[i]))
      {
        NeverBothWays(less, ids[i], sorted[k - 1]);
        k := k - 1;
      }
      InsertKeepsSorted(less, sorted, k, ids[i]);
      InsertAdds(sorted, k, ids[i]);
      NextAdds(ids, i);
      sorted := Insert(sorted, k, ids[i]);
    }
    assert ids[..|ids|] == ids;
  }

  /** sort.Strings on the printed ids. */
  method SortStrings(ids: seq<int>) returns (sorted: seq<int>)
    ensures SortedBy(PrintsBefore, sorted) && multiset(sorted) == multiset(ids)
  {
    forall a, b
      ensures PrintsBefore(a, b) ==> !PrintsBefore(b, a)
    {
      BeforeIsOneWay(Itoa(a), Itoa(b));
    }
    sorted := Sort(PrintsBefore, ids);
  }

  // ----- writing the cpusets ---------------------------------------------------------------------------------------

  /** The text lists these CPUs, each as often as given, in some order. */
  ghost predicate Lists(text: string, ids: seq<int>) {
    exists order :: multiset(order) == multiset(ids) && text == Cpuset.JoinIds(order)
  }

  /** A container that stopped meanwhile is passed over, and writing can fail. */
  predicate IsWritten(pinning: Pinning, stopped: set<string>, failing: set<string>, name: string) {
    name in pinning && name !in stopped && name !in failing
  }

  /** "Set the new pinning", in any order of containers. */
  method SetPinning(pinning: Pinning, stopped: set<string>, failing: set<string>, before: Cpusets)
    returns (cpusets: Cpusets)
    ensures forall name :: IsWritten(pinning, stopped, failing, name) ==>
                             name in cpusets && Lists(cpusets[name], pinning[name])
    ensures forall name :: !IsWritten(pinning, stopped, failing, name) ==>
                             (name in cpusets <==> name in before) && (name in before ==> cpusets[name] == before[name])
  {
    cpusets := before;
    var todo := pinning.Keys;
    while todo != {}
      invariant todo <= pinning.Keys
      invariant forall name :: IsWritten(pinning, stopped, failing, name) && name !in todo ==>
                                 name in cpusets && Lists(cpusets[name], pinning[name])
      invariant forall name :: !IsWritten(pinning, stopped, failing, name) ==>
                                 (name in cpusets <==> name in before) && (name in before ==> cpusets[name] == before[name])
    {
      ghost var some := SomeElement(todo);
      var ctn :| ctn in todo;
      todo := todo - {ctn};
      if ctn in stopped {
        continue;
      }
      var order := SortStrings(pinning[ctn]);
      var text := Cpuset.JoinIds(order);
      assert Lists(text, pinning[ctn]);
      if ctn !in failing {
        cpusets := cpusets[ctn := text];
      }
    }
  }

  // ----- from the limits to the cpusets ----------------------------------------------------------------------------

  /** The limit is good for at least one usable CPU. */
  predicate GrantsSome(cpus: seq<int>, limit: Limit) {
    match limit
    case Count(n) => n != 0
    case Pinned(list) => exists id :: id in list && id in cpus
  }

  /** A container gets a CPU exactly when its limit is good for one. */
  lemma GrantedSomeIff(cpus: seq<int>, limit: Limit, pins: seq<int>)
    requires cpus != [] && Granted(cpus, limit, pins)
    ensures pins != [] <==> GrantsSome(cpus, limit)
  {
    assert cpus[0] in Elements(cpus);
    match limit
    case Count(n) =>
    case Pinned(list) =>
      assert forall id :: multiset(pins)[id] == if id in cpus then multiset(list)[id] else 0;
      if pins != [] {
        var id := pins[0];
        HeldSome(pins);
        assert multiset(list)[id] > 0 && id in multiset(list);
      }
      forall id | id in list && id in cpus
        ensures id in pins
      {
        assert multiset(list)[id] > 0;
        assert multiset(pins)[id] > 0;
      }
  }

  /** What a limit grants does not depend on the order of the CPUs. */
  lemma GrantedInAnyOrder(cpus: seq<int>, limit: Limit, pins: seq<int>, order: seq<int>)
    requires Granted(cpus, limit, pins) && multiset(order) == multiset(pins)
    ensures Granted(cpus, limit, order)
  {
    match limit
    case Pinned(_) =>
    case Count(n) =>
      assert |order| == |multiset(order)| == |multiset(pins)| == |pins|;
      forall id | id in order
        ensures id in cpus
      {
        assert id in multiset(pins);
      }
      forall id
        ensures multiset(order)[id] <= 1
      {
        DistinctOnce(pins, id);
      }
      forall i, j | 0 <= i < j < |order|
        ensures order[i] != order[j]
      {
        TwiceCounted(order, i, j);
        assert multiset(order)[order[j]] <= 1;
      }
  }

  lemma GrantedAreUsable(cpus: seq<int>, limit: Limit, pins: seq<int>, id: int)
    requires Granted(cpus, limit, pins) && id in pins
    ensures id in cpus
  {
    assert multiset(pins)[id] > 0;
  }

  /** The kernel reads back what was granted. */
  ghost predicate ReadsAsGranted(cpus: seq<int>, limit: Limit, text: string) {
    Cpuset.Parse(text).Some? && Granted(cpus, limit, Cpuset.Parse(text).value)
  }

  lemma ListedIsGranted(cpus: seq<int>, limit: Limit, pins: seq<int>, text: string)
    requires Granted(cpus, limit, pins) && pins != [] && Lists(text, pins)
    requires forall i :: 0 <= i < |cpus| ==> 0 <= cpus[i] <= MAX_INT
    ensures ReadsAsGranted(cpus, limit, text)
  {
    var order :| multiset(order) == multiset(pins) && text == Cpuset.JoinIds(order);
    GrantedInAnyOrder(cpus, limit, pins, order);
    assert |multiset(order)| == |multiset(pins)|;
    forall i | 0 <= i < |order|
      ensures 0 <= order[i] <= MAX_INT
    {
      GrantedAreUsable(cpus, limit, order, order[i]);
    }
    Cpuset.JoinThenParse(order);
  }

  lemma UsableInRange(effective: string, isolated: seq<int>)
    requires CpusFor(effective, isolated).Some?
    ensures var cpus := CpusFor(effective, isolated).value;
            cpus != [] && forall i :: 0 <= i < |cpus| ==> 0 <= cpus[i] <= MAX_INT
  {
    CpuBalancer.UsableInRange(effective, isolated);
    assert CpusFor(effective, isolated).value == Usable(Cpuset.Parse(effective).value, isolated);
  }

  /** Whether the container's cpuset is written: it still runs, writing succeeds, and it was granted a CPU. */
  predicate Affected(cpus: seq<int>, request: Request, stopped: set<string>, failing: set<string>) {
    request.name !in stopped && request.name !in failing && GrantsSome(cpus, request.limit)
  }

  ghost predicate Outcome(cpus: seq<int>, request: Request, stopped: set<string>, failing: set<string>, before: Cpusets,
                          after: Cpusets) {
    if Affected(cpus, request, stopped, failing) then
      request.name in after && ReadsAsGranted(cpus, request.limit, after[request.name])
    else
      && (request.name in after <==> request.name in before)
      && (request.name in before ==> after[request.name] == before[request.name])
  }

  lemma OutcomeFollows(cpus: seq<int>, request: Request, pinning: Pinning, stopped: set<string>, failing: set<string>,
                       before: Cpusets, after: Cpusets)
    requires cpus != [] && forall i :: 0 <= i < |cpus| ==> 0 <= cpus[i] <= MAX_INT
    requires Granted(cpus, request.limit, PinOf(pinning, request.name))
    requires IsWritten(pinning, stopped, failing, request.name) ==>
               request.name in after && Lists(after[request.name], pinning[request.name])
    requires !IsWritten(pinning, stopped, failing, request.name) ==>
               && (request.name in after <==> request.name in before)
               && (request.name in before ==> after[request.name] == before[request.name])
    ensures Outcome(cpus, request, stopped, failing, before, after)
  {
    var pins := PinOf(pinning, request.name);
    GrantedSomeIff(cpus, request.limit, pins);
    if IsWritten(pinning, stopped, failing, request.name) {
      ListedIsGranted(cpus, request.limit, pins, after[request.name]);
    }
  }

  // ----- the outcome in terms of the settings ----------------------------------------------------------------------

  /** The CPUs of the host that are not isolated. */
  function UsableSet(effective: string, isolated: seq<int>): set<int> {
    match Cpuset.Parse(effective)
    case None => {}
    case Some(ids) => set id | id in ids && id !in isolated
  }

  predicate Unchanged(name: string, before: Cpusets, after: Cpusets) {
    (name in after <==> name in before) && (name in before ==> after[name] == before[name])
  }

  /** The text reads as n distinct usable CPUs, all when there are fewer or n is negative. */
  predicate ReadsAsNumber(text: string, n: int, usable: set<int>) {
    Cpuset.Parse(text).Some? && AreNumber(Cpuset.Parse(text).value, n, usable)
  }

  predicate AreNumber(ids: seq<int>, n: int, usable: set<int>) {
    && Distinct(ids) && (forall i :: 0 <= i < |ids| ==> ids[i] in usable)
    && |ids| == if 0 <= n <= |usable| then n else |usable|
  }

  /** The text reads as the usable CPUs of the list, each as often as listed. */
  ghost predicate ReadsAsList(text: string, list: seq<int>, usable: set<int>) {
    Cpuset.Parse(text).Some? && AreListed(Cpuset.Parse(text).value, list, usable)
  }

  ghost predicate AreListed(ids: seq<int>, list: seq<int>, usable: set<int>) {
    forall id :: multiset(ids)[id] == if id in usable then multiset(list)[id] else 0
  }

  lemma GrantedAre(cpus: seq<int>, usable: set<int>, limit: Limit, ids: seq<int>)
    requires Granted(cpus, limit, ids) && Elements(cpus) == usable
    ensures limit.Count? ==> AreNumber(ids, limit.n, usable)
    ensures limit.Pinned? ==> AreListed(ids, limit.cpus, usable)
  {
    assert forall id :: id in cpus <==> id in usable;
    if limit.Count? {
      forall i | 0 <= i < |ids|
        ensures ids[i] in usable
      {
        assert ids[i] in ids;
        GrantedAreUsable(cpus, limit, ids, ids[i]);
      }
    }
  }

  /** What becomes of a container's cpuset, with the usable CPUs as a set. */
  ghost predicate OutcomeOf(usable: set<int>, name: string, limit: Limit, stopped: set<string>, failing: set<string>,
                            before: Cpusets, after: Cpusets)
  {
    var some := if limit.Count? then limit.n != 0 else exists id :: id in limit.cpus && id in usable;
    if name in stopped || name in failing || !some then Unchanged(name, before, after)
    else
      && name in after
      && (limit.Count? ==> ReadsAsNumber(after[name], limit.n, usable))
      && (limit.Pinned? ==> ReadsAsList(after[name], limit.cpus, usable))
  }

  /** A running container with a number as its setting gets a cpuset of so many CPUs; with 0 it keeps the one it had. */
  ghost predicate NumbersWritten(usable: set<int>, running: seq<(string, string)>, stopped: set<string>,
                                 failing: set<string>, before: Cpusets, after: Cpusets)
  {
    forall i, n :: 0 <= i < |running| && running[i].1 == Itoa(n) && MIN_INT <= n <= MAX_INT ==>
      OutcomeOf(usable, running[i].0, Count(n), stopped, failing, before, after)
  }

  /** One with a list gets the usable CPUs of the list, and keeps the cpuset it had when there are none. */
  ghost predicate ListsWritten(usable: set<int>, running: seq<(string, string)>, stopped: set<string>,
                               failing: set<string>, before: Cpusets, after: Cpusets)
  {
    forall i, es :: 0 <= i < |running| && IsList(es) && running[i].1 == Printed(es) ==>
      OutcomeOf(usable, running[i].0, Pinned(Cpuset.Expand(es)), stopped, failing, before, after)
  }

  lemma UsableAre(effective: string, isolated: seq<int>)
    requires CpusFor(effective, isolated).Some?
    ensures Elements(CpusFor(effective, isolated).value) == UsableSet(effective, isolated)
  {
    assert CpusFor(effective, isolated).value == Usable(Cpuset.Parse(effective).value, isolated);
  }

  lemma OutcomeInSet(cpus: seq<int>, usable: set<int>, name: string, limit: Limit, stopped: set<string>,
                     failing: set<string>, before: Cpusets, after: Cpusets)
    requires Outcome(cpus, Request(name, limit), stopped, failing, before, after) && Elements(cpus) == usable
    ensures OutcomeOf(usable, name, limit, stopped, failing, before, after)
  {
    assert forall id :: id in cpus <==> id in usable;
    if Affected(cpus, Request(name, limit), stopped, failing) {
      GrantedAre(cpus, usable, limit, Cpuset.Parse(after[name]).value);
    }
  }

  /** Every request has its outcome. */
  ghost predicate AllSettled(cpus: seq<int>, reqs: seq<Request>, stopped: set<string>, failing: set<string>,
                             before: Cpusets, after: Cpusets)
  {
    forall k :: 0 <= k < |reqs| ==> Outcome(cpus, reqs[k], stopped, failing, before, after)
  }

  lemma OutcomeAt(cpus: seq<int>, usable: set<int>, printed: string, running: seq<(string, string)>, stopped: set<string>,
                  failing: set<string>, before: Cpusets, after: Cpusets, i: nat, limit: Limit)
    requires RequestsFor(running, printed).Some? && Elements(cpus) == usable
    requires AllSettled(cpus, RequestsFor(running, printed).value, stopped, failing, before, after)
    requires i < |running| && LimitOf(running[i].1, printed) == Some(limit)
    ensures OutcomeOf(usable, running[i].0, limit, stopped, failing, before, after)
  {
    RequestsAre(running, printed);
    assert RequestsFor(running, printed).value[i] == Request(running[i].0, limit);
    OutcomeInSet(cpus, usable, running[i].0, limit, stopped, failing, before, after);
  }

  lemma SettingsAreWritten(cpus: seq<int>, usable: set<int>, printed: string, running: seq<(string, string)>,
                           stopped: set<string>, failing: set<string>, before: Cpusets, after: Cpusets)
    requires RequestsFor(running, printed).Some? && Elements(cpus) == usable
    requires AllSettled(cpus, RequestsFor(running, printed).value, stopped, failing, before, after)
    ensures NumbersWritten(usable, running, stopped, failing, before, after)
    ensures ListsWritten(usable, running, stopped, failing, before, after)
  {
    forall i, n | 0 <= i < |running| && running[i].1 == Itoa(n) && MIN_INT <= n <= MAX_INT
      ensures OutcomeOf(usable, running[i].0, Count(n), stopped, failing, before, after)
    {
      NumberIsCount(n, printed);
      OutcomeAt(cpus, usable, printed, running, stopped, failing, before, after, i, Count(n));
    }
    forall i, es | 0 <= i < |running| && IsList(es) && running[i].1 == Printed(es)
      ensures OutcomeOf(usable, running[i].0, Pinned(Cpuset.Expand(es)), stopped, failing, before, after)
    {
      ListIsPinned(es, printed);
      OutcomeAt(cpus, usable, printed, running, stopped, failing, before, after, i, Pinned(Cpuset.Expand(es)));
    }
  }

  /**
   deviceTaskBalance to its end. Every container that still runs and whose limit is good for a CPU ends with a cpuset
   that reads as just what its limit grants; a container without any, such as one limited to 0 CPUs, keeps the cpuset
   it had, and so does everybody when the CPUs or a limit cannot be read.
   */
  method Balance(effective: string, isolated: seq<int>, running: seq<(string, string)>, stopped: set<string>,
                 failing: set<string>, before: Cpusets) returns (after: Cpusets)
    requires forall i, j :: 0 <= i < j < |running| ==> running[i].0 != running[j].0
    ensures match CpusFor(effective, isolated)
            case None => after == before
            case Some(cpus) =>
              match RequestsFor(running, Cpuset.JoinIds(cpus))
              case None => after == before
              case Some(reqs) =>
                AllSettled(cpus, reqs, stopped, failing, before, after)
    ensures if Readable(effective, isolated, running) then
              && NumbersWritten(UsableSet(effective, isolated), running, stopped, failing, before, after)
              && ListsWritten(UsableSet(effective, isolated), running, stopped, failing, before, after)
            else after == before
  {
    var r := Rebalance(effective, isolated, running);
    if r.None? {
      return before;
    }
    var (usage, pinning) := r.value;
    after := SetPinning(pinning, stopped, failing, before);
    ghost var cpus := CpusFor(effective, isolated).value;
    ghost var reqs := RequestsFor(running, Cpuset.JoinIds(cpus)).value;
    UsableInRange(effective, isolated);
    forall i | 0 <= i < |reqs|
      ensures Outcome(cpus, reqs[i], stopped, failing, before, after)
    {
      OutcomeFollows(cpus, reqs[i], pinning, stopped, failing, before, after);
    }
    UsableAre(effective, isolated);
    SettingsAreWritten(cpus, UsableSet(effective, isolated), Cpuset.JoinIds(cpus), running, stopped, failing, before, after);
  }
}
