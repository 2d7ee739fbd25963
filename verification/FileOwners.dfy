/**
 Ownership of files on disk: trees of files as the container sees them and as they stand on disk, the walk that
 converts them, and a change of map, which may break off on the way.
 */
module FileOwners {
  import opened Prelude
  import opened IdMaps

  // ----- files and their owners ------------------------------------------------------------------------------------

  datatype Owner = Owner(uid: int, gid: int)

  type Disk = map<string, Owner>

  predicate ValidDisk(d: Disk) {
    forall p :: p in d ==> d[p].uid >= 0 && d[p].gid >= 0
  }

  function NewOwner(m: Idmap, how: Direction, o: Owner): Owner {
    Owner(NewId(m, Uid, how, o.uid), NewId(m, Gid, how, o.gid))
  }

  /** The files of `some` moved, the others as they are. */
  function Moved(d: Disk, some: set<string>, m: Idmap, how: Direction): (r: Disk)
    ensures r.Keys == d.Keys
    ensures forall p :: p in d ==> r[p] == if p in some then NewOwner(m, how, d[p]) else d[p]
  {
    map p | p in d :: if p in some then NewOwner(m, how, d[p]) else d[p]
  }

  function Shifted(d: Disk, m: Idmap, how: Direction): Disk {
    Moved(d, d.Keys, m, how)
  }

  predicate TracedOwner(m: Idmap, o: Owner) {
    Traced(m, Uid, o.uid) && Traced(m, Gid, o.gid)
  }

  predicate TracedDisk(m: Idmap, d: Disk) {
    forall p :: p in d ==> TracedOwner(m, d[p])
  }

  lemma OwnerGives(m: Idmap, x: Owner, y: Owner)
    requires WellFormed(m) && x.uid >= 0 && x.gid >= 0 && y.uid >= 0 && y.gid >= 0
    ensures NewOwner(m, Out, y) == x <==> Returns(m, x, y)
  {
    OutGives(m, Uid, x.uid, y.uid);
    OutGives(m, Gid, x.gid, y.gid);
  }

  /** Each id of `y` is where the map puts that of `x`, or the same number and outside the map's host ranges. */
  predicate Returns(m: Idmap, x: Owner, y: Owner) {
    && (Convert(m, Uid, In, x.uid) == y.uid || (x.uid == y.uid && Convert(m, Uid, Out, x.uid) == -1))
    && (Convert(m, Gid, In, x.gid) == y.gid || (x.gid == y.gid && Convert(m, Gid, Out, x.gid) == -1))
  }

  /** In plain numbers: the uid goes by a uid entry that holds it, the gid by a gid entry. */
  lemma OwnerMoves(m: Idmap, e: Entry, f: Entry, o: Owner)
    requires WellFormed(m) && e in m && e.isuid && f in m && f.isgid
    ensures e.nsid <= o.uid < e.nsid + e.maprange && f.nsid <= o.gid < f.nsid + f.maprange ==>
              NewOwner(m, In, o) == Owner(e.hostid + (o.uid - e.nsid), f.hostid + (o.gid - f.nsid))
    ensures e.hostid <= o.uid < e.hostid + e.maprange && f.hostid <= o.gid < f.hostid + f.maprange ==>
              NewOwner(m, Out, o) == Owner(e.nsid + (o.uid - e.hostid), f.nsid + (o.gid - f.hostid))
  {
    UidEntryMoves(m, e, o.uid);
    GidEntryMoves(m, f, o.gid);
    if e.nsid <= o.uid < e.nsid + e.maprange {
      var k :| 0 <= k < |m| && m[k] == e;
      OnlyMatch(m, Uid, In, o.uid, k);
    }
    if f.nsid <= o.gid < f.nsid + f.maprange {
      var k :| 0 <= k < |m| && m[k] == f;
      OnlyMatch(m, Gid, In, o.gid, k);
    }
    if e.hostid <= o.uid < e.hostid + e.maprange {
      var k :| 0 <= k < |m| && m[k] == e;
      OnlyMatch(m, Uid, Out, o.uid, k);
    }
    if f.hostid <= o.gid < f.hostid + f.maprange {
      var k :| 0 <= k < |m| && m[k] == f;
      OnlyMatch(m, Gid, Out, o.gid, k);
    }
  }

  /** Unshifting a whole tree undoes shifting it exactly when every owner in it is traced. */
  lemma UnshiftUndoesShiftIff(m: Idmap, d: Disk)
    requires WellFormed(m) && ValidDisk(d)
    ensures Shifted(Shifted(d, m, In), m, Out) == d <==> TracedDisk(m, d)
  {
    var back := Shifted(Shifted(d, m, In), m, Out);
    forall p | p in d
      ensures back[p] == d[p] <==> TracedOwner(m, d[p])
    {
      OutUndoesInIff(m, Uid, d[p].uid);
      OutUndoesInIff(m, Gid, d[p].gid);
    }
  }

  // ----- one change of map -----------------------------------------------------------------------------------------

  /** Where a start or an attach breaks off; walks report how many files they had converted. */
  datatype Fault = Nothing | Mount | Unshift(at: nat) | Shift(at: nat) | Finish | Record

  /** The files of `order` converted one after the other; a file with several links is listed once for each. */
  function Visited(d: Disk, order: seq<string>, m: Idmap, how: Direction): (r: Disk)
    ensures r.Keys == d.Keys
  {
    if order == [] then d
    else
      var before, last := Visited(d, order[..|order| - 1], m, how), order[|order| - 1];
      if last in before then before[last := NewOwner(m, how, before[last])] else before
  }

  /** The owner after n conversions. */
  function Again(m: Idmap, how: Direction, o: Owner, n: nat): Owner {
    if n == 0 then o else NewOwner(m, how, Again(m, how, o, n - 1))
  }

  /** Each file is converted as often as it has links. */
  lemma {:induction false} VisitedAsListed(d: Disk, order: seq<string>, m: Idmap, how: Direction, p: string)
    requires p in d
    ensures Visited(d, order, m, how)[p] == Again(m, how, d[p], multiset(order)[p])
  {
    if order != [] {
      assert order == order[..|order| - 1] + [order[|order| - 1]];
      VisitedAsListed(d, order[..|order| - 1], m, how, p);
    }
  }

  lemma {:induction false} AgainAtRest(m: Idmap, how: Direction, o: Owner, n: nat)
    requires n >= 1 && NewOwner(m, how, NewOwner(m, how, o)) == NewOwner(m, how, o)
    ensures Again(m, how, o, n) == NewOwner(m, how, o)
  {
    if n > 1 {
      AgainAtRest(m, how, o, n - 1);
    }
  }

  /** A file with two links is converted properly exactly when converting it a second time changes nothing. */
  lemma LinkedFileIff(d: Disk, order: seq<string>, m: Idmap, how: Direction, p: string)
    requires p in d && multiset(order)[p] == 2
    ensures Visited(d, order, m, how)[p] == NewOwner(m, how, d[p])
            <==> NewOwner(m, how, NewOwner(m, how, d[p])) == NewOwner(m, how, d[p])
  {
    VisitedAsListed(d, order, m, how, p);
    assert Again(m, how, d[p], 1) == NewOwner(m, how, Again(m, how, d[p], 0));
    assert Again(m, how, d[p], 2) == NewOwner(m, how, Again(m, how, d[p], 1));
  }

  /** Nothing listed is changed by a second conversion, or nothing is listed twice. */
  predicate MovesOnce(d: Disk, order: seq<string>, m: Idmap, how: Direction) {
    Distinct(order) || forall p :: p in d ==> NewOwner(m, how, NewOwner(m, how, d[p])) == NewOwner(m, how, d[p])
  }

  /** Links then make no difference: each listed file is moved once. */
  lemma LinksMakeNoDifference(d: Disk, order: seq<string>, m: Idmap, how: Direction)
    requires MovesOnce(d, order, m, how)
    ensures Visited(d, order, m, how) == Moved(d, Elements(order), m, how)
  {
    forall p | p in d
      ensures Visited(d, order, m, how)[p] == Moved(d, Elements(order), m, how)[p]
    {
      VisitedAsListed(d, order, m, how, p);
      if p !in order {
        assert multiset(order)[p] == 0;
      } else if Distinct(order) {
        CountInDistinct(order, p);
        assert Again(m, how, d[p], 1) == NewOwner(m, how, Again(m, how, d[p], 0));
      } else {
        assert p in multiset(order);
        AgainAtRest(m, how, d[p], multiset(order)[p]);
      }
    }
  }

  lemma {:induction false} CountInDistinct(order: seq<string>, p: string)
    requires Distinct(order) && p in order
    ensures multiset(order)[p] == 1
  {
    var front, last := order[..|order| - 1], order[|order| - 1];
    assert order == front + [last];
    if p == last {
      assert p !in front;
      assert multiset(front)[p] == 0;
    } else {
      CountInDistinct(front, p);
    }
  }

  function Done(order: seq<string>, error: Option<nat>): seq<string> {
    if error.Some? && error.value < |order| then order[..error.value] else order
  }

  datatype Outcome = Outcome(disk: Disk, ok: bool)

  /** Unshift by the last map unless it is empty, then shift by the next one unless that is empty. */
  function Remap(d: Disk, last: Idmap, next: Idmap, order: seq<string>, fault: Fault): Outcome {
    if last != [] && fault.Unshift? then Outcome(Visited(d, Done(order, Some(fault.at)), last, Out), false)
    else
      var plain := if last != [] then Visited(d, order, last, Out) else d;
      if next != [] && fault.Shift? then Outcome(Visited(plain, Done(order, Some(fault.at)), next, In), false)
      else Outcome(if next != [] then Visited(plain, order, next, In) else plain, true)
  }

  /** The walks come to every file, and links make no difference to either of them. */
  predicate Walkable(d: Disk, last: Idmap, next: Idmap, order: seq<string>) {
    && Elements(order) == d.Keys
    && MovesOnce(d, order, last, Out)
    && MovesOnce(Shifted(d, last, Out), order, next, In)
  }

  function Reached(order: seq<string>, at: nat): set<string> {
    Elements(Done(order, Some(at)))
  }

  /** The change when each file is moved once. */
  function RemapOnce(d: Disk, last: Idmap, next: Idmap, order: seq<string>, fault: Fault): Outcome {
    if last != [] && fault.Unshift? then Outcome(Moved(d, Reached(order, fault.at), last, Out), false)
    else
      var plain := if last != [] then Shifted(d, last, Out) else d;
      if next != [] && fault.Shift? then Outcome(Moved(plain, Reached(order, fault.at), next, In), false)
      else Outcome(if next != [] then Shifted(plain, next, In) else plain, true)
  }

  lemma PartMovesOnce(d: Disk, order: seq<string>, m: Idmap, how: Direction, error: Option<nat>)
    requires MovesOnce(d, order, m, how)
    ensures Visited(d, Done(order, error), m, how) == Moved(d, Elements(Done(order, error)), m, how)
    ensures error.None? && Elements(order) == d.Keys ==> Visited(d, order, m, how) == Shifted(d, m, how)
  {
    assert MovesOnce(d, Done(order, error), m, how);
    LinksMakeNoDifference(d, Done(order, error), m, how);
  }

  lemma RemapMovesOnce(d: Disk, last: Idmap, next: Idmap, order: seq<string>, fault: Fault)
    requires Walkable(d, last, next, order)
    ensures Remap(d, last, next, order, fault) == RemapOnce(d, last, next, order, fault)
  {
    var plain := Shifted(d, last, Out);
    EmptyMapMovesNothing(d, Out);
    PartMovesOnce(d, order, last, Out, None);
    PartMovesOnce(plain, order, next, In, None);
    if fault.Unshift? {
      PartMovesOnce(d, order, last, Out, Some(fault.at));
    }
    if fault.Shift? {
      PartMovesOnce(plain, order, next, In, Some(fault.at));
    }
  }

  lemma EmptyMapMovesNothing(d: Disk, how: Direction)
    ensures Shifted(d, [], how) == d
  {
    assert forall p :: p in d ==> NewOwner([], how, d[p]) == d[p];
  }

  /** Skipping the empty maps makes no difference. */
  lemma RemapInFull(d: Disk, last: Idmap, next: Idmap, order: seq<string>, fault: Fault)
    requires Walkable(d, last, next, order) && Remap(d, last, next, order, fault).ok
    ensures Remap(d, last, next, order, fault) == Outcome(Shifted(Shifted(d, last, Out), next, In), true)
  {
    RemapMovesOnce(d, last, next, order, fault);
    EmptyMapMovesNothing(d, Out);
    EmptyMapMovesNothing(Shifted(d, last, Out), In);
  }

  lemma {:induction false} EmptyMapVisitsNothing(o: Owner, how: Direction, n: nat)
    ensures Again([], how, o, n) == o
  {
    if n > 0 {
      EmptyMapVisitsNothing(o, how, n - 1);
    }
  }

  /** In general each file is moved as often as it has links, out and then in. */
  lemma RemapAsListed(d: Disk, last: Idmap, next: Idmap, order: seq<string>, fault: Fault, p: string)
    requires p in d && Remap(d, last, next, order, fault).ok
    ensures Remap(d, last, next, order, fault).disk.Keys == d.Keys
    ensures var n := multiset(order)[p];
            Remap(d, last, next, order, fault).disk[p] == Again(next, In, Again(last, Out, d[p], n), n)
  {
    var n := multiset(order)[p];
    var plain := if last != [] then Visited(d, order, last, Out) else d;
    VisitedAsListed(d, order, last, Out, p);
    VisitedAsListed(plain, order, next, In, p);
    EmptyMapVisitsNothing(d[p], Out, n);
    EmptyMapVisitsNothing(plain[p], In, n);
  }

  /** Under plain maps whose host ids lie above the container's own, links never make a difference. */
  lemma PlainMapsAreWalkable(logical: Disk, host: int, hostSize: int, other: int, otherSize: int, order: seq<string>)
    requires Elements(order) == logical.Keys && host >= hostSize && other >= otherSize
    requires forall p :: p in logical ==> 0 <= logical[p].uid < hostSize && 0 <= logical[p].gid < hostSize
    ensures Walkable(Shifted(logical, Plain(host, hostSize), In), Plain(host, hostSize), Plain(other, otherSize), order)
  {
    var last, next := Plain(host, hostSize), Plain(other, otherSize);
    var d := Shifted(logical, last, In);
    forall p | p in d
      ensures NewOwner(last, Out, d[p]) == logical[p] == NewOwner(last, Out, logical[p])
    {
      PlainMoves(host, hostSize, logical[p].uid);
      PlainMoves(host, hostSize, logical[p].gid);
    }
    forall p | p in d
      ensures NewOwner(next, In, NewOwner(next, In, logical[p])) == NewOwner(next, In, logical[p])
    {
      PlainMoves(other, otherSize, logical[p].uid);
      PlainMoves(other, otherSize, logical[p].gid);
    }
  }

  lemma PlainMoves(host: int, size: int, id: int)
    requires host >= size && 0 <= id
    ensures forall kind :: id < size ==> NewId(Plain(host, size), kind, Out, NewId(Plain(host, size), kind, In, id)) == id
    ensures forall kind :: id < size ==> NewId(Plain(host, size), kind, Out, id) == id
    ensures forall kind ::
              NewId(Plain(host, size), kind, In, NewId(Plain(host, size), kind, In, id)) == NewId(Plain(host, size), kind, In, id)
  {
    var m := Plain(host, size);
    forall kind, how, x
      ensures Convert(m, kind, how, x) == if Applies(m[if kind.Uid? then 0 else 1], kind, how, x)
                                          then Move(m[if kind.Uid? then 0 else 1], how, x) else -1
    {
      assert m[1..] == [m[1]] && m[1..][1..] == [];
      assert Convert(m, kind, how, x) == if Applies(m[0], kind, how, x) then Move(m[0], how, x) else Convert([m[1]], kind, how, x);
      assert Convert([m[1]], kind, how, x) == if Applies(m[1], kind, how, x) then Move(m[1], how, x) else -1;
    }
  }

  // ----- a tree of files -------------------------------------------------------------------------------------------

  /** A file tree on storage, with the walks of ShiftRootfs and UnshiftRootfs. */
  class Rootfs {
    var disk: Disk

    constructor (disk: Disk)
      ensures this.disk == disk
    {
      this.disk := disk;
    }

    method MoveFile(path: string, m: Idmap, how: Direction)
      requires path in disk
      modifies this
      ensures disk == old(disk)[path := NewOwner(m, how, old(disk[path]))]
    {
      var was := disk[path];
      var u, g := ShiftIds(m, was.uid, was.gid, how);
      disk := disk[path := Owner(if u == -1 then was.uid else u, if g == -1 then was.gid else g)];
    }

    /** Visits the files in the walk's order, one with several links once for each, and stops at the first error. */
    method Walk(order: seq<string>, m: Idmap, how: Direction, error: Option<nat>) returns (ok: bool)
      requires forall p :: p in order ==> p in disk
      modifies this
      ensures ok == error.None?
      ensures disk == Visited(old(disk), Done(order, error), m, how)
    {
      var i := 0;
      while i < |order| && error != Some(i)
        invariant 0 <= i <= |order| && (error.Some? && error.value < |order| ==> i <= error.value)
        invariant disk == Visited(old(disk), order[..i], m, how)
      {
        assert order[..i + 1][..i] == order[..i];
        MoveFile(order[i], m, how);
        i := i + 1;
      }
      assert order[..i] == Done(order, error);
      return error.None?;
    }

    method Replace(order: seq<string>, last: Idmap, next: Idmap, fault: Fault) returns (ok: bool)
      requires forall p :: p in order ==> p in disk
      modifies this
      ensures Outcome(disk, ok) == Remap(old(disk), last, next, order, fault)
    {
      if last != [] {
        ok := Walk(order, last, Out, if fault.Unshift? then Some(fault.at) else None);
        if !ok {
          return false;
        }
      }
      if next != [] {
        ok := Walk(order, next, In, if fault.Shift? then Some(fault.at) else None);
        if !ok {
          return false;
        }
      }
      return true;
    }
  }
}
