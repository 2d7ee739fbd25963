/**
 Allocations in their steps. The row of a new container is written first, without a base; then the allocator searches,
 under its lock; the base is written after the lock is released. A search reads an unset base as 0, and so it sweeps
 the containers that wait for their base as ranges at the bottom of all ids.
 */
module IdmapRaces {
  import opened Prelude
  import opened IdmapAllocator

  // ----- the sweep over containers without a base ------------------------------------------------------------------

  /** The first k ranges, at least one, have no base; the others are in the pool, sorted and apart. */
  ghost predicate Mixed(pool: Pool, es: seq<Range>, k: nat) {
    && 1 <= k <= |es|
    && (forall i :: 0 <= i < k ==> es[i].base == 0 && es[i].size >= 0)
    && Sorted(es[k..]) && TameList(pool, es[k..])
  }

  /** The sweep steps over the ranges without a base and then stands at the end of the last one. */
  lemma {:induction false} SweepStepsOver(pool: Pool, es: seq<Range>, k: nat, i: nat, size: int)
    requires Mixed(pool, es, k) && 1 <= i <= k && size >= 1
    ensures SweepFrom(pool, es, i, es[i - 1].size, size) == SweepFrom(pool, es, k, es[k - 1].size, size)
    decreases k - i
  {
    if i < k {
      SweepStepsOver(pool, es, k, i + 1, size);
    }
  }

  /** The sweep looks no further back than the range before. */
  lemma {:induction false} SweepOfTail(pool: Pool, es: seq<Range>, k: nat, i: nat, offset: int, size: int)
    requires 1 <= i && k + i <= |es|
    ensures SweepFrom(pool, es, k + i, offset, size) == SweepFrom(pool, es[k..], i, offset, size)
    decreases |es| - i
  {
    var tail := es[k..];
    if k + i < |es| {
      assert tail[i] == es[k + i] && tail[i - 1] == es[k + i - 1];
      SweepOfTail(pool, es, k, i + 1, es[k + i - 1].End(), size);
      SweepOfTail(pool, es, k, i + 1, es[k + i].End(), size);
    }
  }

  /** There is room for `size` ids between the end of the last range without a base and what follows. */
  predicate RoomBelow(pool: Pool, es: seq<Range>, k: nat, size: int)
    requires 1 <= k <= |es|
  {
    var z := es[k - 1].size;
    z < pool.Floor() && if k == |es| then z + size < pool.Top() else z + size < es[k].base
  }

  /**
   With a range without a base among those swept, the sweep leaves the pool exactly when there is room below: it then
   returns that range's size. Whatever it returns shares no id with the ranges that have a base.
   */
  lemma SweepBelowFloorIff(pool: Pool, es: seq<Range>, k: nat, size: int)
    requires Mixed(pool, es, k) && size >= 1 && pool.Floor() > 0
    ensures var q := Sweep(pool, es, size);
            && (q.Some? && q.value < pool.Floor() <==> RoomBelow(pool, es, k, size))
            && (RoomBelow(pool, es, k, size) ==> q == Some(es[k - 1].size))
            && (q.Some? ==> q.value + size <= pool.Top() &&
                            forall i :: k <= i < |es| ==> !es[i].Shares(Range(q.value, size)))
  {
    var z, tail := es[k - 1].size, es[k..];
    SweepStepsOver(pool, es, k, 1, size);
    assert Sweep(pool, es, size) == SweepFrom(pool, es, k, z, size);
    if k < |es| {
      assert tail[0] == es[k];
      assert forall i :: k <= i < |es| ==> es[i] == tail[i - k];
      assert forall i :: 0 <= i < |tail| ==> tail[0].base <= tail[i].base;
      SweepOfTail(pool, es, k, 1, es[k].End(), size);
      SweepFromIsClear(pool, tail, 1, size);
    }
  }

  /** The second of two creations, with the first one's row already there and its base not yet recorded. */
  lemma SecondSearchBelowFloorIff(pool: Pool, s: Records, b: Event, first: int)
    requires Packed(pool, s) && b.Assign? && Enabled(s, b) && b.size >= 1 && first >= 1 && pool.Floor() > 0
    ensures var q := Sweep(pool, [Range(0, first)] + RangesOf(s, b.order), b.size);
            q.Some? && q.value < pool.Floor()
            <==> first < pool.Floor() &&
                 if b.order == [] then first + b.size < pool.Top() else first + b.size < s[b.order[0]].base
  {
    var fs := RangesOf(s, b.order);
    var es := [Range(0, first)] + fs;
    assert es[1..] == fs;
    OrderedIsTame(pool, s, b.name, b.order);
    SweepBelowFloorIff(pool, es, 1, b.size);
  }

  // ----- allocations as steps --------------------------------------------------------------------------------------

  /** The rows of containers listed as isolated, and what searches have found that is not yet recorded. */
  datatype Daemon = Daemon(rows: Records, found: Records)

  datatype Step =
    | Insert(name: string, size: int)                        // a new row, or isolation turned on by a profile
    | Search(name: string, size: int, order: seq<string>)    // under the lock
    | Record(name: string)
    | Remove(name: string)

  predicate HasBase(r: Range) {
    r.base != 0
  }

  /** The rows that have a base. */
  function Placed(rows: Records): (r: Records)
    ensures forall n :: n in r <==> n in rows && HasBase(rows[n])
    ensures forall n :: n in r ==> r[n] == rows[n]
  {
    map n | n in rows && HasBase(rows[n]) :: rows[n]
  }

  ghost predicate CanStep(d: Daemon, step: Step) {
    match step
    case Insert(name, size) => name !in d.rows && size >= 1
    case Search(name, size, order) =>
      && size >= 1 && name !in d.found && Ordered(d.rows, name, order)
      && (name in d.rows && !HasBase(d.rows[name]) ==> d.rows[name].size == size)
    case Record(name) => name in d.found
    case Remove(name) => true
  }

  /** A creation whose search fails is undone; an update whose search fails changes nothing. */
  ghost function AfterStep(pool: Pool, d: Daemon, step: Step): Daemon
    requires CanStep(d, step)
  {
    match step
    case Insert(name, size) => d.(rows := d.rows[name := Range(0, size)])
    case Search(name, size, order) =>
      (match Sweep(pool, RangesOf(d.rows, order), size)
       case Some(offset) => d.(found := d.found[name := Range(offset, size)])
       case None => if name in d.rows && !HasBase(d.rows[name]) then d.(rows := d.rows - {name}) else d)
    case Record(name) => Daemon(d.rows[name := d.found[name]], d.found - {name})
    case Remove(name) => Daemon(d.rows - {name}, d.found - {name})
  }

  /** A new row has no base; what a search finds is recorded as it is; a creation that finds nothing leaves no row. */
  lemma StepsAre(pool: Pool, d: Daemon, name: string, size: int, order: seq<string>)
    ensures CanStep(d, Insert(name, size)) ==>
              AfterStep(pool, d, Insert(name, size)) == Daemon(d.rows[name := Range(0, size)], d.found)
    ensures CanStep(d, Record(name)) ==> AfterStep(pool, d, Record(name)).rows == d.rows[name := d.found[name]]
    ensures CanStep(d, Search(name, size, order)) && Sweep(pool, RangesOf(d.rows, order), size).Some? ==>
              var e := AfterStep(pool, d, Search(name, size, order));
              && e.rows == d.rows && name in e.found
              && e.found[name] == Range(Sweep(pool, RangesOf(d.rows, order), size).value, size)
    ensures CanStep(d, Search(name, size, order)) && Sweep(pool, RangesOf(d.rows, order), size).None? ==>
              var e := AfterStep(pool, d, Search(name, size, order));
              && e.found == d.found && (name in d.rows && d.rows[name].base == 0 ==> name !in e.rows)
              && forall n :: n in d.rows && n != name ==> n in e.rows && e.rows[n] == d.rows[n]
    ensures name !in AfterStep(pool, d, Remove(name)).rows && name !in AfterStep(pool, d, Remove(name)).found
  {
  }

  ghost predicate CanRun(pool: Pool, d: Daemon, steps: seq<Step>)
    decreases |steps|
  {
    steps == [] || (CanStep(d, steps[0]) && CanRun(pool, AfterStep(pool, d, steps[0]), steps[1..]))
  }

  ghost function AfterRun(pool: Pool, d: Daemon, steps: seq<Step>): Daemon
    requires CanRun(pool, d, steps)
    decreases |steps|
  {
    if steps == [] then d else AfterRun(pool, AfterStep(pool, d, steps[0]), steps[1..])
  }

  /** No search begins while another container waits for its base. */
  ghost predicate Orderly(d: Daemon, step: Step) {
    step.Search? ==> d.found == map[] && forall n :: n in d.rows && n != step.name ==> HasBase(d.rows[n])
  }

  ghost predicate OrderlyRun(pool: Pool, d: Daemon, steps: seq<Step>)
    requires CanRun(pool, d, steps)
    decreases |steps|
  {
    steps == [] || (Orderly(d, steps[0]) && OrderlyRun(pool, AfterStep(pool, d, steps[0]), steps[1..]))
  }

  predicate InPool(pool: Pool, r: Range) {
    r.size >= 1 && pool.Floor() <= r.base && r.End() <= pool.Top()
  }

  /** Recorded ranges are packed, and what was found is in the pool and apart from them and from each other. */
  ghost predicate Sane(pool: Pool, d: Daemon) {
    && Packed(pool, Placed(d.rows))
    && (forall n :: n in d.rows ==> d.rows[n].size >= 1)
    && (forall n :: n in d.found ==> InPool(pool, d.found[n]))
    && (forall n, m :: n in d.found && m in Placed(d.rows) && m != n ==> !d.rows[m].Shares(d.found[n]))
    && NoOverlap(d.found)
  }

  lemma FewerArePacked(pool: Pool, rows: Records, fewer: Records)
    requires Packed(pool, rows) && forall n :: n in fewer ==> n in rows && fewer[n] == rows[n]
    ensures Packed(pool, fewer)
  {
    forall a, b | a in fewer && b in fewer && a != b
      ensures !fewer[a].Shares(fewer[b])
    {
      assert !rows[a].Shares(rows[b]);
    }
  }

  /** Rows without a base, and ranges that go, do no harm. */
  lemma FewerAreSane(pool: Pool, d: Daemon, e: Daemon)
    requires Sane(pool, d)
    requires forall n :: n in Placed(e.rows) ==> n in Placed(d.rows) && e.rows[n] == d.rows[n]
    requires forall n :: n in e.rows ==> e.rows[n].size >= 1
    requires forall n :: n in e.found ==> n in d.found && e.found[n] == d.found[n]
    ensures Sane(pool, e)
  {
    FewerArePacked(pool, Placed(d.rows), Placed(e.rows));
    forall n, m | n in e.found && m in Placed(e.rows) && m != n
      ensures !e.rows[m].Shares(e.found[n])
    {
      assert !d.rows[m].Shares(d.found[n]);
    }
    forall m, n | m in e.found && n in e.found && m != n
      ensures !e.found[m].Shares(e.found[n])
    {
      assert !d.found[m].Shares(d.found[n]);
    }
  }

  lemma SearchIsFirstFit(pool: Pool, d: Daemon, step: Step)
    requires Sane(pool, d) && step.Search? && CanStep(d, step) && Orderly(d, step)
    ensures FirstFit(pool, Placed(d.rows), step.name, step.size, Sweep(pool, RangesOf(d.rows, step.order), step.size))
  {
    assert Ordered(Placed(d.rows), step.name, step.order);
    assert RangesOf(d.rows, step.order) == RangesOf(Placed(d.rows), step.order);
    SweepOfRecords(pool, Placed(d.rows), step.name, step.order, step.size);
  }

  lemma SearchKeepsSane(pool: Pool, d: Daemon, step: Step)
    requires Sane(pool, d) && step.Search? && CanStep(d, step) && Orderly(d, step)
    ensures Sane(pool, AfterStep(pool, d, step))
  {
    SearchIsFirstFit(pool, d, step);
    var q := Sweep(pool, RangesOf(d.rows, step.order), step.size);
    if q.Some? {
      assert AfterStep(pool, d, step) == Daemon(d.rows, map[step.name := Range(q.value, step.size)]);
    } else {
      FewerAreSane(pool, d, d.(rows := d.rows - {step.name}));
    }
  }

  lemma RecordedIsPacked(pool: Pool, rows: Records, name: string, r: Range)
    requires Packed(pool, rows) && InPool(pool, r) && Unused(rows, name, r.base, r.size)
    ensures Packed(pool, rows[name := r])
  {
    var t := rows[name := r];
    assert r == Range(r.base, r.size);
    forall a, b | a in t && b in t && a != b
      ensures !t[a].Shares(t[b])
    {
      if a != name && b != name {
        assert !rows[a].Shares(rows[b]);
      } else if a == name {
        assert !rows[b].Shares(r);
      } else {
        assert !rows[a].Shares(r);
      }
    }
  }

  lemma RecordKeepsSane(pool: Pool, d: Daemon, name: string)
    requires Sane(pool, d) && name in d.found && pool.Floor() > 0
    ensures Sane(pool, AfterStep(pool, d, Record(name)))
  {
    var t := AfterStep(pool, d, Record(name));
    var r := d.found[name];
    assert Placed(t.rows) == Placed(d.rows)[name := r];
    assert r == Range(r.base, r.size);
    RecordedIsPacked(pool, Placed(d.rows), name, r);
    forall n, m | n in t.found && m in Placed(t.rows) && m != n
      ensures !t.rows[m].Shares(t.found[n])
    {
      if m == name {
        assert !d.found[name].Shares(d.found[n]);
      } else {
        assert !d.rows[m].Shares(d.found[n]);
      }
    }
    forall m, n | m in t.found && n in t.found && m != n
      ensures !t.found[m].Shares(t.found[n])
    {
      assert !d.found[m].Shares(d.found[n]);
    }
  }

  lemma StepKeepsSane(pool: Pool, d: Daemon, step: Step)
    requires Sane(pool, d) && CanStep(d, step) && Orderly(d, step) && pool.Floor() > 0
    ensures Sane(pool, AfterStep(pool, d, step))
  {
    match step
    case Search(_, _, _) => SearchKeepsSane(pool, d, step);
    case Record(name) => RecordKeepsSane(pool, d, name);
    case Insert(_, _) => FewerAreSane(pool, d, AfterStep(pool, d, step));
    case Remove(_) => FewerAreSane(pool, d, AfterStep(pool, d, step));
  }

  /**
   Over every history in which no search begins while another container waits for its base, the recorded ranges stay
   pairwise disjoint and inside the pool, whatever else happens between a row, its search and its base.
   */
  lemma {:induction false} OrderlyRunKeepsPacked(pool: Pool, d: Daemon, steps: seq<Step>)
    requires Sane(pool, d) && CanRun(pool, d, steps) && OrderlyRun(pool, d, steps) && pool.Floor() > 0
    ensures Sane(pool, AfterRun(pool, d, steps)) && Packed(pool, Placed(AfterRun(pool, d, steps).rows))
    ensures var rows := AfterRun(pool, d, steps).rows;
            forall n :: n in rows && rows[n].base != 0 ==>
              pool.base + 65536 <= rows[n].base && rows[n].base + rows[n].size <= pool.base + pool.range
    decreases |steps|
  {
    if steps != [] {
      StepKeepsSane(pool, d, steps[0]);
      OrderlyRunKeepsPacked(pool, AfterStep(pool, d, steps[0]), steps[1..]);
    } else {
      assert forall n :: n in d.rows && d.rows[n].base != 0 ==> n in Placed(d.rows);
    }
  }

  // ----- searches that are not orderly -----------------------------------------------------------------------------

  /** Sorted, the rows without a base come first. */
  lemma UnplacedFirst(pool: Pool, d: Daemon, name: string, order: seq<string>) returns (k: nat)
    requires Sane(pool, d) && Ordered(d.rows, name, order) && pool.Floor() > 0
    ensures k <= |order|
    ensures forall i :: 0 <= i < k ==> !HasBase(d.rows[order[i]])
    ensures forall i :: k <= i < |order| ==> HasBase(d.rows[order[i]])
  {
    k := 0;
    while k < |order| && !HasBase(d.rows[order[k]])
      invariant k <= |order|
      invariant forall i :: 0 <= i < k ==> !HasBase(d.rows[order[i]])
    {
      k := k + 1;
    }
    forall i | k <= i < |order|
      ensures HasBase(d.rows[order[i]])
    {
      assert order[k] in Placed(d.rows) && Placed(d.rows)[order[k]].base >= pool.Floor();
    }
  }

  lemma RowsAreMixed(pool: Pool, d: Daemon, name: string, order: seq<string>, k: nat)
    requires Sane(pool, d) && Ordered(d.rows, name, order) && 1 <= k <= |order|
    requires forall i :: 0 <= i < k ==> !HasBase(d.rows[order[i]])
    requires forall i :: k <= i < |order| ==> HasBase(d.rows[order[i]])
    ensures Mixed(pool, RangesOf(d.rows, order), k)
  {
    var es := RangesOf(d.rows, order);
    var tail := es[k..];
    forall i | 0 <= i < |tail|
      ensures TameRange(pool, tail[i])
    {
      assert order[k + i] in Placed(d.rows);
    }
    forall i, j | 0 <= i < j < |tail|
      ensures !tail[i].Shares(tail[j])
    {
      assert order[k + i] in Placed(d.rows) && order[k + j] in Placed(d.rows) && order[k + i] != order[k + j];
      assert !Placed(d.rows)[order[k + i]].Shares(Placed(d.rows)[order[k + j]]);
    }
  }

  /**
   A search while k other containers wait for their base leaves the pool exactly when there is room below for it. So do
   the searches for containers that a profile isolates together. It never takes an id of a recorded range.
   */
  lemma SearchLeavesPoolIff(pool: Pool, d: Daemon, step: Step, k: nat)
    requires Sane(pool, d) && step.Search? && CanStep(d, step) && pool.Floor() > 0 && 1 <= k <= |step.order|
    requires forall i :: 0 <= i < k ==> !HasBase(d.rows[step.order[i]])
    requires forall i :: k <= i < |step.order| ==> HasBase(d.rows[step.order[i]])
    ensures var q := Sweep(pool, RangesOf(d.rows, step.order), step.size);
            && (q.Some? && q.value < pool.Floor() <==> RoomBelow(pool, RangesOf(d.rows, step.order), k, step.size))
            && (q.Some? && q.value < pool.Floor() ==> q.value == d.rows[step.order[k - 1]].size)
            && (q.Some? ==> Unused(Placed(d.rows), step.name, q.value, step.size))
  {
    var es := RangesOf(d.rows, step.order);
    RowsAreMixed(pool, d, step.name, step.order, k);
    SweepBelowFloorIff(pool, es, k, step.size);
    var q := Sweep(pool, es, step.size);
    if q.Some? {
      forall n | n in Placed(d.rows) && n != step.name
        ensures !d.rows[n].Shares(Range(q.value, step.size))
      {
        assert n in step.order;
        var i :| 0 <= i < |step.order| && step.order[i] == n;
        assert es[i] == d.rows[n];
      }
    }
  }

  /** Two creations that both wait for their base and both leave the pool are given common ids. */
  lemma CreationsCollide(pool: Pool, d: Daemon, a: Step, b: Step)
    requires Sane(pool, d) && a.Search? && b.Search? && CanStep(d, a) && CanStep(d, b) && pool.Floor() > 0
    requires a.name != b.name && a.name in d.rows && b.name in d.rows
    requires forall n :: n in d.rows && !HasBase(d.rows[n]) <==> n == a.name || n == b.name
    ensures var q, r := Sweep(pool, RangesOf(d.rows, a.order), a.size), Sweep(pool, RangesOf(d.rows, b.order), b.size);
            q.Some? && q.value < pool.Floor() && r.Some? && r.value < pool.Floor() ==>
              Range(q.value, a.size).Shares(Range(r.value, b.size))
  {
    OnlyOneUnplaced(pool, d, a, b.name);
    OnlyOneUnplaced(pool, d, b, a.name);
    SearchLeavesPoolIff(pool, d, a, 1);
    SearchLeavesPoolIff(pool, d, b, 1);
  }

  lemma OnlyOneUnplaced(pool: Pool, d: Daemon, a: Step, other: string)
    requires Sane(pool, d) && a.Search? && CanStep(d, a) && pool.Floor() > 0 && other in d.rows && other != a.name
    requires forall n :: n in d.rows && !HasBase(d.rows[n]) ==> n == a.name || n == other
    requires !HasBase(d.rows[other])
    ensures |a.order| >= 1 && a.order[0] == other
    ensures forall i :: 1 <= i < |a.order| ==> HasBase(d.rows[a.order[i]])
  {
    var k := UnplacedFirst(pool, d, a.name, a.order);
    assert other in a.order;
    var i :| 0 <= i < |a.order| && a.order[i] == other;
    assert i < k;
    assert a.order[0] in d.rows && a.order[0] != a.name;
    assert a.order[0] == other;
    forall j | 1 <= j < |a.order|
      ensures HasBase(d.rows[a.order[j]])
    {
      assert a.order[j] != a.order[0] && a.order[j] in d.rows && a.order[j] != a.name;
    }
  }

  // ----- two updates -----------------------------------------------------------------------------------------------

  /**
   An update that isolates an existing container searches before its row says so, and writes the base at its end. Two
   such updates that both search first do not see each other: they are given common ids exactly when the larger request
   also fits somewhere on what the smaller one got.
   */
  lemma UpdatesCollideIff(pool: Pool, s: Records, a: Event, b: Event)
    requires Packed(pool, s) && a.Assign? && b.Assign? && Enabled(s, a) && Enabled(s, b)
    requires a.name !in s && b.name !in s && a.name != b.name && 1 <= a.size <= b.size
    ensures var r, q := Sweep(pool, RangesOf(s, a.order), a.size), Sweep(pool, RangesOf(s, b.order), b.size);
            r.Some? && q.Some? ==>
              (NoOverlap(s[a.name := Range(r.value, a.size)][b.name := Range(q.value, b.size)])
               <==> !exists o :: r.value <= o < r.value + a.size && Fits(pool, RangesOf(s, a.order), o, b.size))
  {
    var es, fs := RangesOf(s, a.order), RangesOf(s, b.order);
    var r, q := Sweep(pool, es, a.size), Sweep(pool, fs, b.size);
    SweepOfEvent(pool, s, a);
    SweepOfEvent(pool, s, b);
    SameFits(pool, s, a, b, b.size);
    if r.Some? && q.Some? {
      FitsSmaller(pool, es, q.value, a.size, b.size);
      assert q.value >= r.value;
      NewRangesShareIff(pool, s, a, b);
    }
  }

  /** The same for two requests of one size: they are given the same ids. */
  lemma EqualUpdatesCollide(pool: Pool, s: Records, a: Event, b: Event)
    requires Packed(pool, s) && a.Assign? && b.Assign? && Enabled(s, a) && Enabled(s, b)
    requires a.name !in s && b.name !in s && a.size == b.size && a.size >= 1
    ensures Sweep(pool, RangesOf(s, a.order), a.size) == Sweep(pool, RangesOf(s, b.order), b.size)
  {
    var es, fs := RangesOf(s, a.order), RangesOf(s, b.order);
    SweepOfEvent(pool, s, a);
    SweepOfEvent(pool, s, b);
    SameFits(pool, s, a, b, a.size);
  }

  /** Both updates see the same ranges, in whatever order, and so the same places. */
  lemma SameFits(pool: Pool, s: Records, a: Event, b: Event, n: int)
    requires a.Assign? && b.Assign? && Enabled(s, a) && Enabled(s, b) && a.name !in s && b.name !in s
    ensures forall o :: Fits(pool, RangesOf(s, a.order), o, n) <==> Fits(pool, RangesOf(s, b.order), o, n)
  {
    forall o
      ensures Fits(pool, RangesOf(s, a.order), o, n) <==> Fits(pool, RangesOf(s, b.order), o, n)
    {
      SameRangesFit(pool, s, a.order, b.order, o, n);
      SameRangesFit(pool, s, b.order, a.order, o, n);
    }
  }

  /** First fit, for one update. */
  lemma SweepOfEvent(pool: Pool, s: Records, a: Event)
    requires Packed(pool, s) && a.Assign? && Enabled(s, a)
    ensures var es := RangesOf(s, a.order);
            var r := Sweep(pool, es, a.size);
            && (r.Some? ==> Fits(pool, es, r.value, a.size) && r.value >= pool.Floor())
            && forall o :: o >= pool.Floor() && (r.Some? ==> o < r.value) ==> !Fits(pool, es, o, a.size)
  {
    OrderedIsTame(pool, s, a.name, a.order);
    SweepIsFirstFit(pool, RangesOf(s, a.order), a.size);
  }

  lemma FitsSmaller(pool: Pool, es: seq<Range>, o: int, small: int, large: int)
    requires 1 <= small <= large && Fits(pool, es, o, large)
    ensures Fits(pool, es, o, small)
  {
    assert ClearOf(es, o, large) ==> ClearOf(es, o, small);
    assert ClearOf(es, o, large + 1) ==> ClearOf(es, o, small + 1);
  }

  /** Neither new range shares an id with the records, so that only the two can share. */
  lemma NewRangesShareIff(pool: Pool, s: Records, a: Event, b: Event)
    requires Packed(pool, s) && a.Assign? && b.Assign? && Enabled(s, a) && Enabled(s, b)
    requires a.name !in s && b.name !in s && a.name != b.name && a.size >= 1 && b.size >= 1
    requires Sweep(pool, RangesOf(s, a.order), a.size).Some? && Sweep(pool, RangesOf(s, b.order), b.size).Some?
    ensures var x := Range(Sweep(pool, RangesOf(s, a.order), a.size).value, a.size);
            var y := Range(Sweep(pool, RangesOf(s, b.order), b.size).value, b.size);
            NoOverlap(s[a.name := x][b.name := y]) <==> !x.Shares(y)
  {
    var x := Range(Sweep(pool, RangesOf(s, a.order), a.size).value, a.size);
    var y := Range(Sweep(pool, RangesOf(s, b.order), b.size).value, b.size);
    StepKeepsTame(pool, s, a);
    StepKeepsTame(pool, s, b);
    var t, u := s[a.name := x], s[b.name := y];
    assert t == Apply(pool, s, a) && u == Apply(pool, s, b);
    var both := t[b.name := y];
    assert both[a.name] == x && both[b.name] == y;
    if !x.Shares(y) {
      forall m, n | m in both && n in both && m != n
        ensures !both[m].Shares(both[n])
      {
        if m != b.name && n != b.name {
          assert !t[m].Shares(t[n]);
        } else if m != a.name && n != a.name {
          assert !u[m].Shares(u[n]);
        }
      }
    }
  }

  lemma SameRangesFit(pool: Pool, s: Records, from: seq<string>, to: seq<string>, o: int, n: int)
    requires (forall x :: x in from ==> x in s) && forall x :: x in to <==> x in from
    ensures Fits(pool, RangesOf(s, from), o, n) ==> Fits(pool, RangesOf(s, to), o, n)
  {
    if RangesOf(s, from) != [] {
      assert from[0] in to;
    }
    forall i | 0 <= i < |to|
      ensures exists k :: 0 <= k < |from| && RangesOf(s, from)[k] == RangesOf(s, to)[i]
    {
      assert to[i] in from;
      var k :| 0 <= k < |from| && from[k] == to[i];
      assert RangesOf(s, from)[k] == RangesOf(s, to)[i];
    }
  }
}
