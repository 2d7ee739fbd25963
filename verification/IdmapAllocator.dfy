/**
 The allocator of isolated uid/gid ranges: findIdmap's automatic branch together with the recording of the base it
 chose. Ranges are kept per container; an allocation ignores the container's own range, sorts the others by their
 first host id and sweeps them for a gap.
 */
module IdmapAllocator {
  import opened Prelude

  /** Ids the daemon keeps for its default map at the bottom of its allocation. */
  const RESERVED := 65536

  /** Host ids base .. base + size - 1: the Hostid and Maprange of an idmap entry. */
  datatype Range = Range(base: int, size: int) {
    function End(): int { base + size }

    predicate Has(id: int) { base <= id < End() }

    predicate Shares(other: Range) {
      size > 0 && other.size > 0 && base < other.End() && other.base < End()
    }
  }

  /** Two ranges share when, and only when, some id lies in both. */
  lemma SharesIsCommonId(a: Range, b: Range)
    ensures a.Shares(b) <==> exists id :: a.Has(id) && b.Has(id)
  {
    if a.Shares(b) {
      var id := if a.base < b.base then b.base else a.base;
      assert a.Has(id) && b.Has(id);
    }
  }

  /** The daemon's own allocation; isolated containers live in Floor .. Top - 1. */
  datatype Pool = Pool(base: int, range: int) {
    function Floor(): int { base + RESERVED }

    function Top(): int { base + range }
  }

  // ----- the sweep ------------------------------------------------------------------------------------------------

  /** The offset found for `size` ids among `es`, the other ranges in sorted order. */
  function Sweep(pool: Pool, es: seq<Range>, size: int): Option<int> {
    if es == [] then
      if pool.Floor() + size < pool.Top() then Some(pool.Floor()) else None
    else if es[0].base < pool.Floor() + size then
      SweepFrom(pool, es, 1, es[0].End(), size)
    else
      Some(pool.Floor())
  }

  function SweepFrom(pool: Pool, es: seq<Range>, i: nat, offset: int, size: int): Option<int>
    requires 1 <= i <= |es|
    decreases |es| - i
  {
    if i == |es| then
      if offset + size < pool.Top() then Some(offset) else None
    else if es[i - 1].End() > offset then
      SweepFrom(pool, es, i + 1, es[i - 1].End(), size)
    else if es[i - 1].End() + size < es[i].base then
      Some(es[i - 1].End())
    else
      SweepFrom(pool, es, i + 1, es[i].End(), size)
  }

  predicate Sorted(es: seq<Range>) {
    forall i, j :: 0 <= i < j < |es| ==> es[i].base <= es[j].base
  }

  /**
   Ranges the sweep can rely on: inside Floor .. Top, none sharing an id, and an empty one only where no later
   request could be placed on it.
   */
  ghost predicate TameRange(pool: Pool, r: Range) {
    && r.size >= 0
    && pool.Floor() <= r.base
    && r.End() <= pool.Top()
    && (r.size == 0 ==> r.base + 1 >= pool.Top())
  }

  ghost predicate TameList(pool: Pool, es: seq<Range>) {
    && (forall i :: 0 <= i < |es| ==> TameRange(pool, es[i]))
    && forall i, j :: 0 <= i < j < |es| ==> !es[i].Shares(es[j])
  }

  /** What the sweep returns for a positive size is inside the pool and shares no id with the ranges swept. */
  lemma SweepIsClear(pool: Pool, es: seq<Range>, size: int)
    requires Sorted(es) && TameList(pool, es) && size >= 1
    ensures var r := Sweep(pool, es, size);
            r.Some? ==>
              && TameRange(pool, Range(r.value, size))
              && forall i :: 0 <= i < |es| ==> !es[i].Shares(Range(r.value, size))
  {
    if es != [] && es[0].base < pool.Floor() + size {
      SweepFromIsClear(pool, es, 1, size);
    }
  }

  lemma {:induction false} SweepFromIsClear(pool: Pool, es: seq<Range>, i: nat, size: int)
    requires Sorted(es) && TameList(pool, es) && size >= 1
    requires 1 <= i <= |es|
    ensures var r := SweepFrom(pool, es, i, es[i - 1].End(), size);
            r.Some? ==>
              && TameRange(pool, Range(r.value, size))
              && forall k :: 0 <= k < |es| ==> !es[k].Shares(Range(r.value, size))
    decreases |es| - i
  {
    if i < |es| && es[i - 1].End() + size >= es[i].base {
      SweepFromIsClear(pool, es, i + 1, size);
    }
  }

  /** No id of first .. first + size - 1 lies in a range of `es`. */
  predicate ClearOf(es: seq<Range>, first: int, size: int) {
    forall i :: 0 <= i < |es| ==> !es[i].Shares(Range(first, size))
  }

  /** No id of first .. first + size lies in a range of `es`: room for `size` ids and one to spare. */
  predicate Spare(es: seq<Range>, first: int, size: int) {
    ClearOf(es, first, size + 1)
  }

  /**
   Where the sweep may place `size` ids: with one id to spare before whatever follows, or exactly in front of the
   first range when the sweep starts.
   */
  predicate Fits(pool: Pool, es: seq<Range>, o: int, size: int) {
    || (Spare(es, o, size) && o + size < pool.Top())
    || (o == pool.Floor() && es != [] && ClearOf(es, o, size))
  }

  /** The sweep is an exact first fit: it returns the least place that fits, and fails only when there is none. */
  lemma SweepIsFirstFit(pool: Pool, es: seq<Range>, size: int)
    requires Sorted(es) && TameList(pool, es) && size >= 0
    requires forall i :: 0 <= i < |es| ==> es[i].size >= 1
    ensures var r := Sweep(pool, es, size);
            && (r.Some? ==> Fits(pool, es, r.value, size) && r.value >= pool.Floor())
            && forall o :: o >= pool.Floor() && (r.Some? ==> o < r.value) ==> !Fits(pool, es, o, size)
  {
    if es != [] && es[0].base < pool.Floor() + size {
      forall o | pool.Floor() <= o < es[0].End()
        ensures !Spare(es, o, size)
      {
        assert es[0].Shares(Range(o, size + 1));
      }
      assert es[0].Shares(Range(pool.Floor(), size));
      SweepFromIsFirstFit(pool, es, 1, size);
    }
  }

  lemma {:induction false} SweepFromIsFirstFit(pool: Pool, es: seq<Range>, i: nat, size: int)
    requires Sorted(es) && TameList(pool, es) && size >= 0
    requires forall k :: 0 <= k < |es| ==> es[k].size >= 1
    requires 1 <= i <= |es|
    requires !ClearOf(es, pool.Floor(), size)
    requires forall o :: pool.Floor() <= o < es[i - 1].End() ==> !Spare(es, o, size)
    ensures var r := SweepFrom(pool, es, i, es[i - 1].End(), size);
            && (r.Some? ==> Fits(pool, es, r.value, size) && r.value >= pool.Floor())
            && forall o :: o >= pool.Floor() && (r.Some? ==> o < r.value) ==> !Fits(pool, es, o, size)
    decreases |es| - i
  {
    if i < |es| {
      assert !es[i - 1].Shares(es[i]);
      if es[i - 1].End() + size >= es[i].base {
        forall o | es[i - 1].End() <= o < es[i].End()
          ensures !Spare(es, o, size)
        {
          assert es[i].Shares(Range(o, size + 1));
        }
        SweepFromIsFirstFit(pool, es, i + 1, size);
      }
    }
  }

  // ----- recorded ranges and histories -----------------------------------------------------------------------------

  type Records = map<string, Range>

  /** `order` lists every recorded container but `except`, once each, by ascending first id: any outcome of the sort. */
  ghost predicate Ordered(s: Records, except: string, order: seq<string>) {
    && Distinct(order)
    && (forall n :: n in order ==> n in s && n != except)
    && (forall n :: n in s && n != except ==> n in order)
    && forall i, j :: 0 <= i < j < |order| ==> s[order[i]].base <= s[order[j]].base
  }

  function RangesOf(s: Records, order: seq<string>): (es: seq<Range>)
    requires forall n :: n in order ==> n in s
    ensures |es| == |order| && forall i :: 0 <= i < |es| ==> es[i] == s[order[i]]
  {
    seq(|order|, i requires 0 <= i < |order| => s[order[i]])
  }

  /**
   What happens to the records: a container is given a range (as one step with recording it), or is deleted, or a
   profile that sets its size is changed, which changes the size in place.
   */
  datatype Event =
    | Assign(name: string, size: int, order: seq<string>)
    | Release(name: string)
    | Resize(name: string, size: int)

  ghost predicate Enabled(s: Records, e: Event) {
    match e
    case Assign(name, size, order) => size >= 0 && Ordered(s, name, order)
    case Release(name) => name in s
    case Resize(name, size) => name in s
  }

  ghost function Apply(pool: Pool, s: Records, e: Event): Records
    requires Enabled(s, e)
  {
    match e
    case Assign(name, size, order) =>
      (match Sweep(pool, RangesOf(s, order), size)
       case Some(offset) => s[name := Range(offset, size)]
       case None => s)
    case Release(name) => s - {name}
    case Resize(name, size) => s[name := Range(s[name].base, size)]
  }

  ghost predicate Runs(pool: Pool, s: Records, es: seq<Event>)
    decreases |es|
  {
    es == [] || (Enabled(s, es[0]) && Runs(pool, Apply(pool, s, es[0]), es[1..]))
  }

  ghost function Final(pool: Pool, s: Records, es: seq<Event>): Records
    requires Runs(pool, s, es)
    decreases |es|
  {
    if es == [] then s else Final(pool, Apply(pool, s, es[0]), es[1..])
  }

  /** Requests for at least one id, and deletions. */
  predicate PositiveSizes(es: seq<Event>) {
    forall i :: 0 <= i < |es| ==> !es[i].Resize? && (es[i].Assign? ==> es[i].size >= 1)
  }

  /** A request for at least one id, a deletion, or a new size that runs into nothing. */
  predicate Sound(pool: Pool, s: Records, e: Event)
    requires e.Resize? ==> e.name in s
  {
    match e
    case Assign(name, size, order) => size >= 1
    case Release(name) => true
    case Resize(name, size) =>
      size >= 1 && s[name].base + size <= pool.Top() && Unused(s, name, s[name].base, size)
  }

  ghost predicate SoundRun(pool: Pool, s: Records, es: seq<Event>)
    requires Runs(pool, s, es)
    decreases |es|
  {
    es == [] || (Sound(pool, s, es[0]) && SoundRun(pool, Apply(pool, s, es[0]), es[1..]))
  }

  lemma {:induction false} PositiveIsSound(pool: Pool, s: Records, es: seq<Event>)
    requires Runs(pool, s, es) && PositiveSizes(es)
    ensures SoundRun(pool, s, es)
    decreases |es|
  {
    if es != [] {
      forall i | 0 <= i < |es[1..]|
        ensures !es[1..][i].Resize? && (es[1..][i].Assign? ==> es[1..][i].size >= 1)
      {
        assert es[1..][i] == es[i + 1];
      }
      PositiveIsSound(pool, Apply(pool, s, es[0]), es[1..]);
    }
  }

  ghost predicate NoOverlap(s: Records) {
    forall a, b :: a in s && b in s && a != b ==> !s[a].Shares(s[b])
  }

  /** Sizes at least 0, inside the pool, and no id recorded twice. */
  ghost predicate Laid(pool: Pool, s: Records) {
    && (forall a :: a in s ==> s[a].size >= 0 && pool.Floor() <= s[a].base && s[a].End() <= pool.Top())
    && NoOverlap(s)
  }

  /** Laid, with no empty range. */
  ghost predicate Packed(pool: Pool, s: Records) {
    Laid(pool, s) && forall a :: a in s ==> s[a].size >= 1
  }

  ghost predicate Tame(pool: Pool, s: Records) {
    (forall a :: a in s ==> TameRange(pool, s[a])) && NoOverlap(s)
  }

  lemma OrderedIsTame(pool: Pool, s: Records, except: string, order: seq<string>)
    requires Tame(pool, s) && Ordered(s, except, order)
    ensures Sorted(RangesOf(s, order)) && TameList(pool, RangesOf(s, order))
  {
    var es := RangesOf(s, order);
    forall i, j | 0 <= i < j < |es|
      ensures !es[i].Shares(es[j])
    {
      assert order[i] != order[j];
    }
  }

  lemma StepKeepsTame(pool: Pool, s: Records, e: Event)
    requires Tame(pool, s) && Enabled(s, e) && Sound(pool, s, e)
    ensures Tame(pool, Apply(pool, s, e))
    ensures (forall a :: a in s ==> s[a].size >= 1) ==>
              forall a :: a in Apply(pool, s, e) ==> Apply(pool, s, e)[a].size >= 1
  {
    if e.Assign? {
      var es := RangesOf(s, e.order);
      OrderedIsTame(pool, s, e.name, e.order);
      SweepIsClear(pool, es, e.size);
      var r := Sweep(pool, es, e.size);
      if r.Some? {
        forall a | a in s && a != e.name
          ensures !s[a].Shares(Range(r.value, e.size))
        {
          var i :| 0 <= i < |e.order| && e.order[i] == a;
          assert es[i] == s[a];
        }
      }
    }
  }

  lemma {:induction false} RunKeepsTame(pool: Pool, s: Records, es: seq<Event>)
    requires Tame(pool, s) && Runs(pool, s, es) && SoundRun(pool, s, es)
    ensures Tame(pool, Final(pool, s, es))
    ensures (forall a :: a in s ==> s[a].size >= 1) ==>
              forall a :: a in Final(pool, s, es) ==> Final(pool, s, es)[a].size >= 1
    decreases |es|
  {
    if es != [] {
      StepKeepsTame(pool, s, es[0]);
      RunKeepsTame(pool, Apply(pool, s, es[0]), es[1..]);
    }
  }

  /**
   Over every history of automatic allocations of at least one id, deletions and changes of size that run into nothing,
   whatever the order of equal bases, the recorded ranges stay pairwise disjoint and inside the pool.
   */
  lemma RunKeepsPacked(pool: Pool, s: Records, es: seq<Event>)
    requires Packed(pool, s) && Runs(pool, s, es) && SoundRun(pool, s, es)
    ensures Packed(pool, Final(pool, s, es))
  {
    RunKeepsTame(pool, s, es);
  }

  /**
   The same in plain numbers: no recorded range holds one of the daemon's first 65536 ids, or reaches outside its ids,
   and no two have an id in common.
   */
  lemma RecordedIdsStayApart(pool: Pool, s: Records, es: seq<Event>)
    requires Packed(pool, s) && Runs(pool, s, es) && SoundRun(pool, s, es)
    ensures var t := Final(pool, s, es);
            && (forall n :: n in t ==>
                  pool.base + 65536 <= t[n].base && t[n].base + t[n].size <= pool.base + pool.range)
            && (forall m, n :: m in t && n in t && m != n ==>
                  t[m].base + t[m].size <= t[n].base || t[n].base + t[n].size <= t[m].base)
  {
    RunKeepsPacked(pool, s, es);
    var t := Final(pool, s, es);
    forall m, n | m in t && n in t && m != n
      ensures t[m].base + t[m].size <= t[n].base || t[n].base + t[n].size <= t[m].base
    {
      assert !t[m].Shares(t[n]);
    }
  }

  /** No search guards a change of size: it keeps the ranges packed exactly when the new range runs into nothing. */
  lemma ResizeKeepsPackedIff(pool: Pool, s: Records, e: Event)
    requires Packed(pool, s) && e.Resize? && Enabled(s, e)
    ensures Packed(pool, Apply(pool, s, e)) <==> Sound(pool, s, e)
  {
    var t := Apply(pool, s, e);
    if Sound(pool, s, e) {
      StepKeepsTame(pool, s, e);
    } else if e.size >= 1 && s[e.name].base + e.size <= pool.Top() {
      var n :| n in s && n != e.name && s[n].Shares(Range(s[e.name].base, e.size));
      assert t[n].Shares(t[e.name]);
    } else {
      assert t[e.name] == Range(s[e.name].base, e.size);
    }
  }

  // ----- requests of no ids ----------------------------------------------------------------------------------------

  /** No history of requests for at least one id, and deletions, ever records an id twice. */
  ghost predicate Safe(pool: Pool, s: Records) {
    forall es :: Runs(pool, s, es) && PositiveSizes(es) ==> NoOverlap(Final(pool, s, es))
  }

  /** An empty range is harmless exactly when it sits on the pool's last id or at its end. */
  lemma SafeIff(pool: Pool, s: Records)
    requires Laid(pool, s)
    ensures Safe(pool, s) <==> forall a :: a in s && s[a].size == 0 ==> s[a].base + 1 >= pool.Top()
  {
    if forall a :: a in s && s[a].size == 0 ==> s[a].base + 1 >= pool.Top() {
      forall es | Runs(pool, s, es) && PositiveSizes(es)
        ensures NoOverlap(Final(pool, s, es))
      {
        PositiveIsSound(pool, s, es);
        RunKeepsTame(pool, s, es);
      }
    } else {
      var a :| a in s && s[a].size == 0 && s[a].base + 1 < pool.Top();
      var es := EmptyRangeBreaks(pool, s, a);
      assert !NoOverlap(Final(pool, s, es));
    }
  }

  lemma {:induction false} RunsConcat(pool: Pool, s: Records, es: seq<Event>, fs: seq<Event>)
    requires Runs(pool, s, es) && Runs(pool, Final(pool, s, es), fs)
    ensures Runs(pool, s, es + fs) && Final(pool, s, es + fs) == Final(pool, Final(pool, s, es), fs)
    decreases |es|
  {
    if es == [] {
      assert es + fs == fs;
    } else {
      assert (es + fs)[0] == es[0] && (es + fs)[1..] == es[1..] + fs;
      RunsConcat(pool, Apply(pool, s, es[0]), es[1..], fs);
    }
  }

  lemma {:induction false} ReleaseAllBut(pool: Pool, s: Records, name: string) returns (es: seq<Event>)
    requires name in s
    ensures Runs(pool, s, es) && PositiveSizes(es) && Final(pool, s, es) == map[name := s[name]]
    decreases |s|
  {
    if forall n :: n in s ==> n == name {
      es := [];
      assert s == map[name := s[name]];
    } else {
      var n :| n in s && n != name;
      assert s.Keys == (s - {n}).Keys + {n};
      var rest := ReleaseAllBut(pool, s - {n}, name);
      es := [Release(n)] + rest;
      assert es[1..] == rest;
      assert Apply(pool, s, es[0]) == s - {n};
    }
  }

  /** From an empty range below the last id, deletions and two or three further requests record an id twice. */
  lemma EmptyRangeBreaks(pool: Pool, s: Records, name: string) returns (es: seq<Event>)
    requires name in s && s[name].size == 0
    requires pool.Floor() <= s[name].base && s[name].base + 1 < pool.Top()
    ensures Runs(pool, s, es) && PositiveSizes(es) && !NoOverlap(Final(pool, s, es))
  {
    var first := ReleaseAllBut(pool, s, name);
    var more := LoneEmptyRangeBreaks(pool, name, s[name].base);
    RunsConcat(pool, s, first, more);
    es := first + more;
  }

  lemma LoneEmptyRangeBreaks(pool: Pool, name: string, p: int) returns (es: seq<Event>)
    requires pool.Floor() <= p && p + 1 < pool.Top()
    ensures var s := map[name := Range(p, 0)];
            Runs(pool, s, es) && PositiveSizes(es) && !NoOverlap(Final(pool, s, es))
  {
    var a, b, c := name + "a", name + "bb", name + "ccc";
    assert |a| == |name| + 1 && |b| == |name| + 2 && |c| == |name| + 3;
    if p == pool.Floor() {
      es := EmptyAtFloorBreaks(pool, name, a, b);
    } else {
      es := EmptyAboveFloorBreaks(pool, p, name, a, b, c);
    }
  }

  lemma EmptyAtFloorBreaks(pool: Pool, name: string, a: string, b: string) returns (es: seq<Event>)
    requires pool.Floor() + 1 < pool.Top() && name != a && name != b && a != b
    ensures var s := map[name := Range(pool.Floor(), 0)];
            Runs(pool, s, es) && PositiveSizes(es) && !NoOverlap(Final(pool, s, es))
  {
    var p := pool.Floor();
    var s: Records := map[name := Range(p, 0)];
    var s1, s2 := s[a := Range(p, 1)], s[a := Range(p, 1)][b := Range(p, 1)];
    var e1, e2 := Assign(a, 1, [name]), Assign(b, 1, [a, name]);
    assert Apply(pool, s, e1) == s1 by {
      assert RangesOf(s, [name]) == [Range(p, 0)];
    }
    assert Apply(pool, s1, e2) == s2 by {
      var es1 := RangesOf(s1, [a, name]);
      assert es1 == [Range(p, 1), Range(p, 0)];
      assert SweepFrom(pool, es1, 1, p + 1, 1) == SweepFrom(pool, es1, 2, p, 1);
    }
    TwoSteps(pool, s, e1, e2);
    es := [e1, e2];
    assert s2[a].Shares(s2[b]);
  }

  lemma SweepLandsOnEmpty(pool: Pool, p: int)
    requires pool.Floor() < p && p + 1 < pool.Top()
    ensures Sweep(pool, [Range(pool.Floor(), p - pool.Floor()), Range(p, 1), Range(p, 0)], 1) == Some(p)
  {
    var es := [Range(pool.Floor(), p - pool.Floor()), Range(p, 1), Range(p, 0)];
    assert SweepFrom(pool, es, 1, p, 1) == SweepFrom(pool, es, 2, p + 1, 1) == SweepFrom(pool, es, 3, p, 1);
  }

  /** A request fills the room below the empty range, the next is placed on its first id. */
  lemma FillBelowEmpty(pool: Pool, p: int, name: string, a: string, c: string)
    requires pool.Floor() < p && p + 1 < pool.Top() && name != a && name != c && a != c
    ensures var s: Records := map[name := Range(p, 0)];
            var front := Range(pool.Floor(), p - pool.Floor());
            && Enabled(s, Assign(c, front.size, [name]))
            && Apply(pool, s, Assign(c, front.size, [name])) == s[c := front]
            && Enabled(s[c := front], Assign(a, 1, [c, name]))
            && Apply(pool, s[c := front], Assign(a, 1, [c, name])) == s[c := front][a := Range(p, 1)]
  {
    var s: Records := map[name := Range(p, 0)];
    var front := Range(pool.Floor(), p - pool.Floor());
    assert RangesOf(s, [name]) == [Range(p, 0)];
    assert RangesOf(s[c := front], [c, name]) == [front, Range(p, 0)];
    assert SweepFrom(pool, [front, Range(p, 0)], 1, p, 1) == SweepFrom(pool, [front, Range(p, 0)], 2, p, 1);
  }

  /** The empty range, sorted behind the one now there, then leads the sweep back to that id. */
  lemma PlaceOnceMore(pool: Pool, s: Records, p: int, name: string, a: string, b: string, c: string)
    requires pool.Floor() < p && p + 1 < pool.Top() && name != a && name != c && a != c
    requires b != name && b != a && b != c
    requires s == map[name := Range(p, 0), c := Range(pool.Floor(), p - pool.Floor()), a := Range(p, 1)]
    ensures Enabled(s, Assign(b, 1, [c, a, name]))
    ensures Apply(pool, s, Assign(b, 1, [c, a, name])) == s[b := Range(p, 1)]
    ensures !NoOverlap(s[b := Range(p, 1)])
  {
    assert RangesOf(s, [c, a, name]) == [Range(pool.Floor(), p - pool.Floor()), Range(p, 1), Range(p, 0)];
    SweepLandsOnEmpty(pool, p);
    assert s[b := Range(p, 1)][a].Shares(s[b := Range(p, 1)][b]);
  }

  lemma EmptyAboveFloorBreaks(pool: Pool, p: int, name: string, a: string, b: string, c: string)
    returns (es: seq<Event>)
    requires pool.Floor() < p && p + 1 < pool.Top() && name != a && name != b && name != c && a != b && a != c && b != c
    ensures var s := map[name := Range(p, 0)];
            Runs(pool, s, es) && PositiveSizes(es) && !NoOverlap(Final(pool, s, es))
  {
    var front := Range(pool.Floor(), p - pool.Floor());
    var s: Records := map[name := Range(p, 0)];
    var s2 := s[c := front][a := Range(p, 1)];
    var e0, e1, e2 := Assign(c, front.size, [name]), Assign(a, 1, [c, name]), Assign(b, 1, [c, a, name]);
    FillBelowEmpty(pool, p, name, a, c);
    PlaceOnceMore(pool, s2, p, name, a, b, c);
    TwoSteps(pool, s[c := front], e1, e2);
    es := [e0] + [e1, e2];
    assert es[1..] == [e1, e2];
  }

  lemma TwoSteps(pool: Pool, s: Records, e: Event, f: Event)
    requires Enabled(s, e) && Enabled(Apply(pool, s, e), f)
    ensures Runs(pool, s, [e, f]) && Final(pool, s, [e, f]) == Apply(pool, Apply(pool, s, e), f)
  {
    assert [e, f][1..] == [f] && [f][1..] == [];
    assert Runs(pool, Apply(pool, s, e), [f]);
    assert Final(pool, Apply(pool, s, e), [f]) == Apply(pool, Apply(pool, s, e), f);
  }

  /**
   The configuration check accepts a size of 0. A request leaves the records unsafe exactly when it is such a one and
   a place for no ids is left below the pool's last id.
   */
  lemma RequestIsSafeIff(pool: Pool, s: Records, e: Event)
    requires Packed(pool, s) && e.Assign? && Enabled(s, e)
    ensures Safe(pool, Apply(pool, s, e)) <==>
            e.size >= 1 || forall o :: pool.Floor() <= o < pool.Top() - 1 ==> !Fits(pool, RangesOf(s, e.order), o, 0)
  {
    var es := RangesOf(s, e.order);
    OrderedIsTame(pool, s, e.name, e.order);
    var t := Apply(pool, s, e);
    if e.size >= 1 {
      StepKeepsTame(pool, s, e);
      assert forall a :: a in t ==> t[a].size >= 1;
    } else {
      SweepIsFirstFit(pool, es, e.size);
      var r := Sweep(pool, es, e.size);
      if r.Some? {
        assert t[e.name] == Range(r.value, 0);
        assert forall a :: a in t && t[a].size == 0 ==> a == e.name;
      }
      assert Laid(pool, t);
    }
    SafeIff(pool, t);
  }

  /** No id of first .. first + size - 1 is recorded for a container other than cName. */
  predicate Unused(s: Records, cName: string, first: int, size: int) {
    forall n :: n in s && n != cName ==> !s[n].Shares(Range(first, size))
  }

  predicate OneToSpare(s: Records, cName: string, first: int, size: int) {
    Unused(s, cName, first, size + 1)
  }

  lemma ClearIsUnused(s: Records, cName: string, order: seq<string>, first: int, size: int)
    requires Ordered(s, cName, order)
    ensures ClearOf(RangesOf(s, order), first, size) <==> Unused(s, cName, first, size)
  {
    var es := RangesOf(s, order);
    if ClearOf(es, first, size) {
      forall n | n in s && n != cName
        ensures !s[n].Shares(Range(first, size))
      {
        assert n in order;
        var i :| 0 <= i < |order| && order[i] == n;
        assert es[i] == s[n];
      }
    }
    if Unused(s, cName, first, size) {
      forall i | 0 <= i < |es|
        ensures !es[i].Shares(Range(first, size))
      {
        assert order[i] in order;
      }
    }
  }

  /** First fit in terms of the records: clear of them, in the pool, and at or below any place with an id to spare. */
  ghost predicate FirstFit(pool: Pool, s: Records, cName: string, size: int, r: Option<int>) {
    && (r.Some? ==> pool.Floor() <= r.value && r.value + size <= pool.Top() && Unused(s, cName, r.value, size))
    && forall o :: pool.Floor() <= o && o + size < pool.Top() && OneToSpare(s, cName, o, size) ==> r.Some? && r.value <= o
  }

  /**
   First fit in plain numbers: above the first 65536 ids of the daemon, inside its ids, and apart from every other
   container's; and found at or below any place where the ids and one more are free.
   */
  predicate InDaemonsOwnIds(pool: Pool, s: Records, cName: string, size: int, r: Option<int>) {
    && (r.Some? ==>
          && pool.base + 65536 <= r.value && r.value + size <= pool.base + pool.range
          && forall n :: n in s && n != cName ==> r.value + size <= s[n].base || s[n].base + s[n].size <= r.value)
    && (r.Some? ==> forall o: int :: pool.base + 65536 <= o < r.value ==> !Free(pool, s, cName, o, size))
    && (r.None? ==> forall o: int :: pool.base + 65536 <= o <= pool.base + pool.range ==> !Free(pool, s, cName, o, size))
  }

  predicate Free(pool: Pool, s: Records, cName: string, o: int, size: int) {
    && o + size < pool.base + pool.range
    && forall n :: n in s && n != cName ==> o + size < s[n].base || s[n].base + s[n].size <= o
  }

  lemma FirstFitInIds(pool: Pool, s: Records, cName: string, size: int, r: Option<int>)
    requires Packed(pool, s) && size >= 1 && FirstFit(pool, s, cName, size, r)
    ensures InDaemonsOwnIds(pool, s, cName, size, r)
  {
    forall o: int | pool.base + 65536 <= o && Free(pool, s, cName, o, size)
      ensures r.Some? && r.value <= o
    {
      assert OneToSpare(s, cName, o, size);
    }
  }

  /** Whatever the sort makes of the order, the sweep is a first fit on packed records. */
  lemma SweepOfRecords(pool: Pool, s: Records, cName: string, order: seq<string>, size: int)
    requires Packed(pool, s) && Ordered(s, cName, order) && size >= 1
    ensures FirstFit(pool, s, cName, size, Sweep(pool, RangesOf(s, order), size))
  {
    var es := RangesOf(s, order);
    OrderedIsTame(pool, s, cName, order);
    SweepIsClear(pool, es, size);
    SweepIsFirstFit(pool, es, size);
    var r := Sweep(pool, es, size);
    if r.Some? {
      ClearIsUnused(s, cName, order, r.value, size);
    }
    forall o | pool.Floor() <= o && o + size < pool.Top() && OneToSpare(s, cName, o, size)
      ensures r.Some? && r.value <= o
    {
      ClearIsUnused(s, cName, order, o, size + 1);
      assert Fits(pool, es, o, size);
    }
  }

  // ----- the allocator ---------------------------------------------------------------------------------------------

  /** `sorted` are the ranges recorded for `order`, and `order` lists the same containers as `owners`. */
  ghost predicate SortOf(s: Records, owners: seq<string>, order: seq<string>, sorted: seq<Range>) {
    && (forall n :: n in owners ==> n in s)
    && Distinct(order)
    && (forall n :: n in order <==> n in owners)
    && sorted == RangesOf(s, order)
    && Sorted(sorted)
  }

  lemma InsertKeepsSort(s: Records, owners: seq<string>, order: seq<string>, sorted: seq<Range>, k: nat, n: string)
    requires SortOf(s, owners, order, sorted) && k <= |order| && n in s && n !in owners
    requires forall i :: 0 <= i < k ==> sorted[i].base <= s[n].base
    requires forall i :: k <= i < |sorted| ==> s[n].base <= sorted[i].base
    ensures SortOf(s, owners + [n], Insert(order, k, n), Insert(sorted, k, s[n]))
  {
    InsertDistinct(order, k, n);
    InsertKeepsSorted(sorted, k, s[n]);
    assert Insert(sorted, k, s[n]) == RangesOf(s, Insert(order, k, n));
  }

  lemma InsertKeepsSorted(sorted: seq<Range>, k: nat, r: Range)
    requires Sorted(sorted) && k <= |sorted|
    requires forall i :: 0 <= i < k ==> sorted[i].base <= r.base
    requires forall i :: k <= i < |sorted| ==> r.base <= sorted[i].base
    ensures Sorted(Insert(sorted, k, r))
  {
  }

  /** Some other container cannot be read. */
  predicate Blocked(list: seq<string>, cName: string, unreadable: set<string>) {
    exists i :: 0 <= i < |list| && list[i] != cName && list[i] in unreadable
  }

  class Idmaps {
    const pool: Pool
    // containers listed as isolated, with their volatile.idmap.base, an unset one read as 0, and their size
    var recorded: Records

    constructor (pool: Pool)
      ensures this.pool == pool && recorded == map[]
    {
      this.pool := pool;
      recorded := map[];
    }

    /** Sorting by first host id; nothing is promised about the order of equal bases. */
    static method SortByHostid(entries: seq<Range>, ghost s: Records, ghost owners: seq<string>)
      returns (sorted: seq<Range>, ghost order: seq<string>)
      requires Distinct(owners) && (forall n :: n in owners ==> n in s) && entries == RangesOf(s, owners)
      ensures SortOf(s, owners, order, sorted)
    {
      sorted, order := [], [];
      for i := 0 to |entries|
        invariant SortOf(s, owners[..i], order, sorted)
      {
        var k := |sorted|;
        while k > 0 && entries[i].base < sorted[k - 1].base
          invariant 0 <= k <= |sorted|
          invariant forall j :: k <= j < |sorted| ==> entries[i].base <= sorted[j].base
        {
          k := k - 1;
        }
        InsertKeepsSort(s, owners[..i], order, sorted, k, owners[i]);
        sorted, order := Insert(sorted, k, entries[i]), Insert(order, k, owners[i]);
        assert owners[..i + 1] == owners[..i] + [owners[i]];
      }
      assert owners[..|entries|] == owners;
    }

    /** The sweep of findIdmap over the sorted ranges of the other containers. */
    static method SweepGaps(pool: Pool, mapentries: seq<Range>, size: int) returns (r: Option<int>)
      ensures r == Sweep(pool, mapentries, size)
    {
      var offset := pool.Floor();
      for i := 0 to |mapentries|
        invariant i == 0 ==> offset == pool.Floor()
        invariant i > 0 ==> Sweep(pool, mapentries, size) == SweepFrom(pool, mapentries, i, offset, size)
      {
        if i == 0 {
          if mapentries[0].base < offset + size {
            offset := mapentries[0].End();
            continue;
          }
          return Some(offset);
        }
        if mapentries[i - 1].End() > offset {
          offset := mapentries[i - 1].End();
          continue;
        }
        offset := mapentries[i - 1].End();
        if offset + size < mapentries[i].base {
          return Some(offset);
        }
        offset := mapentries[i].End();
      }

      if offset + size < pool.Top() {
        return Some(offset);
      }
      r := None;
    }

    /**
     The ranges of the isolated containers in `list` other than cName; a container that cannot be loaded, or whose base
     or size does not parse, is an error.
     */
    method OtherRanges(list: seq<string>, cName: string, unreadable: set<string>)
      returns (mapentries: Option<seq<Range>>, ghost owners: seq<string>)
      requires Distinct(list)
      ensures mapentries.None? <==> Blocked(list, cName, unreadable)
      ensures Distinct(owners) && forall n :: n in owners ==> n in list && n in recorded && n != cName
      ensures mapentries.Some? ==>
                && mapentries.value == RangesOf(recorded, owners)
                && forall n :: n in list && n in recorded && n != cName ==> n in owners
    {
      var entries: seq<Range> := [];
      owners := [];
      for i := 0 to |list|
        invariant !Blocked(list[..i], cName, unreadable)
        invariant Distinct(owners) && forall n :: n in owners <==> n in list[..i] && n in recorded && n != cName
        invariant entries == RangesOf(recorded, owners)
      {
        if list[i] != cName {
          if list[i] in unreadable {
            return None, owners;
          }
          if list[i] in recorded {
            entries := entries + [recorded[list[i]]];
            owners := owners + [list[i]];
          }
        }
      }
      assert list[..|list|] == list;
      mapentries := Some(entries);
    }

    /** The automatic branch of findIdmap; `list` names all containers, isolated or not. */
    method Find(list: seq<string>, cName: string, unreadable: set<string>, size: int)
      returns (r: Option<int>, ghost order: seq<string>)
      requires Distinct(list) && forall n :: n in recorded ==> n in list
      ensures Blocked(list, cName, unreadable) ==> r.None?
      ensures !Blocked(list, cName, unreadable) ==>
                Ordered(recorded, cName, order) && r == Sweep(pool, RangesOf(recorded, order), size)
      ensures !Blocked(list, cName, unreadable) && Packed(pool, recorded) && size >= 1 ==>
                FirstFit(pool, recorded, cName, size, r)
      ensures (exists n :: n in list && n != cName && n in unreadable) ==> r.None?
      ensures (forall n :: n in list && n != cName ==> n !in unreadable) && Packed(pool, recorded) && size >= 1 ==>
                InDaemonsOwnIds(pool, recorded, cName, size, r)
    {
      var others, owners := OtherRanges(list, cName, unreadable);
      if others.None? {
        return None, [];
      }
      var mapentries;
      mapentries, order := SortByHostid(others.value, recorded, owners);
      if Packed(pool, recorded) && size >= 1 {
        SweepOfRecords(pool, recorded, cName, order, size);
      }
      r := SweepGaps(pool, mapentries, size);
      if Packed(pool, recorded) && size >= 1 {
        FirstFitInIds(pool, recorded, cName, size, r);
      }
    }

    /** Find and record in one step. A failure leaves the records alone. */
    method Assign(list: seq<string>, cName: string, unreadable: set<string>, size: nat)
      returns (r: Option<int>, ghost order: seq<string>)
      requires Distinct(list) && forall n :: n in recorded ==> n in list
      modifies this
      ensures Blocked(list, cName, unreadable) ==> r.None?
      ensures !Blocked(list, cName, unreadable) ==>
                && Enabled(old(recorded), Event.Assign(cName, size, order))
                && recorded == Apply(pool, old(recorded), Event.Assign(cName, size, order))
      ensures r.Some? ==> recorded == old(recorded)[cName := Range(r.value, size)]
      ensures r.None? ==> recorded == old(recorded)
    {
      r, order := Find(list, cName, unreadable, size);
      if r.Some? {
        recorded := recorded[cName := Range(r.value, size)];
      }
    }

    /** The size is read from the configuration at each search. */
    method Resize(cName: string, size: int)
      requires cName in recorded
      modifies this
      ensures recorded == Apply(pool, old(recorded), Event.Resize(cName, size))
    {
      recorded := recorded[cName := Range(recorded[cName].base, size)];
    }

    method Release(cName: string)
      modifies this
      ensures recorded == old(recorded) - {cName}
    {
      recorded := recorded - {cName};
    }
  }
}
