/**
 Starting a container whose id map may have changed: what a start does to the files and the recorded map, what is left
 when it breaks off, and whole histories of configuring, starting and writing.
 */
module ContainerStart {
  import opened Prelude
  import opened IdMaps
  import opened FileOwners

  // ----- starting a container --------------------------------------------------------------------------------------

  /** The files and the map recorded as theirs; nothing recorded means "as the next start wants them". */
  datatype Stored = Stored(disk: Disk, last: Option<Idmap>)

  /** IdmapSet and NextIdmapSet: the map a start wants, if it can be determined. */
  function Wanted(privileged: bool, next: Option<Idmap>, daemon: Option<Idmap>): (r: Option<Idmap>)
    ensures r.None? <==> !privileged && next.None? && daemon.None?
  {
    if privileged then Some([]) else if next.Some? then next else daemon
  }

  function LastMap(last: Option<Idmap>, next: Idmap): Idmap {
    if last.Some? then last.value else next
  }

  /** The remapping part of a start: stored state afterwards, and whether the start went on. */
  function AfterStart(s: Stored, next: Idmap, order: seq<string>, fault: Fault): (Stored, bool) {
    var last := LastMap(s.last, next);
    if next == last then
      if fault.Record? then (s, false) else (s.(last := Some(next)), true)
    else if fault.Mount? then (s, false)
    else
      var c := Remap(s.disk, last, next, order, fault);
      if !c.ok || fault.Finish? || fault.Record? then (s.(disk := c.disk), false)
      else (Stored(c.disk, Some(next)), true)
  }

  function AfterReceive(last: Option<Idmap>, source: Idmap, wanted: Idmap): Option<Idmap> {
    if source != wanted then Some(source) else last
  }

  class Container {
    const rootfs: Rootfs
    const privileged: bool
    const daemonMap: Option<Idmap>
    var last: Option<Idmap>
    var next: Option<Idmap>

    constructor (disk: Disk, privileged: bool, daemonMap: Option<Idmap>, last: Option<Idmap>, next: Option<Idmap>)
      ensures fresh(rootfs) && rootfs.disk == disk
      ensures this.privileged == privileged && this.daemonMap == daemonMap && this.last == last && this.next == next
    {
      rootfs := new Rootfs(disk);
      this.privileged, this.daemonMap, this.last, this.next := privileged, daemonMap, last, next;
    }

    method Start(order: seq<string>, fault: Fault) returns (ok: bool)
      requires forall p :: p in order ==> p in rootfs.disk
      modifies this`last, rootfs
      ensures match Wanted(privileged, next, daemonMap)
              case None => !ok && last == old(last) && rootfs.disk == old(rootfs.disk)
              case Some(m) =>
                (Stored(rootfs.disk, last), ok) == AfterStart(Stored(old(rootfs.disk), old(last)), m, order, fault)
      ensures ok ==> last == if privileged then Some([]) else if next.Some? then next else daemonMap
      ensures ok && old(last).None? ==> rootfs.disk == old(rootfs.disk)
      ensures fault.Nothing? ==> (ok <==> privileged || next.Some? || daemonMap.Some?)
    {
      var wanted := Wanted(privileged, next, daemonMap);
      if wanted.None? {
        return false;
      }
      var idmap, lastIdmap := wanted.value, LastMap(last, wanted.value);
      if idmap != lastIdmap {
        if fault.Mount? {
          return false;
        }
        ok := rootfs.Replace(order, lastIdmap, idmap, fault);
        if !ok || fault.Finish? {
          return false;
        }
      }
      if fault.Record? {
        return false;
      }
      last := Some(idmap);
      return true;
    }

    /** Records the map of the received files when it is not the one the next start wants. */
    method ShiftIfNecessary(source: Idmap, recordFails: bool) returns (ok: bool)
      modifies this`last
      ensures ok <==> Wanted(privileged, next, daemonMap).Some? &&
                      (recordFails ==> source == Wanted(privileged, next, daemonMap).value)
      ensures last == if ok then AfterReceive(old(last), source, Wanted(privileged, next, daemonMap).value) else old(last)
      ensures ok <==> && (privileged || next.Some? || daemonMap.Some?)
                      && (recordFails ==>
                            Some(source) == if privileged then Some([]) else if next.Some? then next else daemonMap)
      ensures ok ==> last == if Some(source) == (if privileged then Some([]) else if next.Some? then next else daemonMap)
                             then old(last) else Some(source)
    {
      var wanted := Wanted(privileged, next, daemonMap);
      if wanted.None? {
        return false;
      }
      if source != wanted.value {
        if recordFails {
          return false;
        }
        last := Some(source);
      }
      return true;
    }
  }

  /** The files inside the container are `logical`, and the recorded map is how they stand on disk. */
  predicate OnDisk(s: Stored, logical: Disk) {
    && s.last.Some? && WellFormed(s.last.value) && ValidDisk(logical) && TracedDisk(s.last.value, logical)
    && s.disk == Shifted(logical, s.last.value, In)
  }

  /** What the walks of a start come to: every file, and links make no difference. */
  predicate StartWalks(s: Stored, next: Idmap, order: seq<string>) {
    Walkable(s.disk, LastMap(s.last, next), next, order)
  }

  /** A start that succeeds leaves the same files as the container sees them, now under the next map. */
  lemma StartKeepsFiles(s: Stored, logical: Disk, next: Idmap, order: seq<string>, fault: Fault)
    requires OnDisk(s, logical) && StartWalks(s, next, order) && AfterStart(s, next, order, fault).1
    ensures AfterStart(s, next, order, fault).0 == Stored(Shifted(logical, next, In), Some(next))
  {
    var last := s.last.value;
    UnshiftUndoesShiftIff(last, logical);
    if next != last {
      RemapMovesOnce(s.disk, last, next, order, fault);
      assert RemapOnce(s.disk, last, next, order, fault).ok;
      EmptyMapMovesNothing(s.disk, Out);
      EmptyMapMovesNothing(logical, In);
    }
  }

  /** The owner a file with so many links ends up with after a change of map. */
  function LinkedOwner(last: Idmap, next: Idmap, o: Owner, links: nat): Owner {
    Again(next, In, Again(last, Out, NewOwner(last, In, o), links), links)
  }

  /**
   Whatever links the files have, a start that changes the map and succeeds leaves them right exactly when each file is
   right after being moved out and in as often as it has links.
   */
  lemma StartWithLinksIff(s: Stored, logical: Disk, next: Idmap, order: seq<string>, fault: Fault)
    requires OnDisk(s, logical) && next != s.last.value && AfterStart(s, next, order, fault).1
    ensures AfterStart(s, next, order, fault).0.disk == Shifted(logical, next, In)
            <==> forall p :: p in logical ==>
                   LinkedOwner(s.last.value, next, logical[p], multiset(order)[p]) == NewOwner(next, In, logical[p])
  {
    var last := s.last.value;
    var after := AfterStart(s, next, order, fault).0.disk;
    RemapKeys(s.disk, last, next, order, fault);
    forall p | p in logical
      ensures after[p] == LinkedOwner(last, next, logical[p], multiset(order)[p])
    {
      RemapAsListed(s.disk, last, next, order, fault, p);
    }
    assert after.Keys == logical.Keys;
  }

  /** Exactly the faults on the way that a start takes make it fail: a walk by an empty map is not taken. */
  lemma StartSucceedsIff(s: Stored, next: Idmap, order: seq<string>, fault: Fault)
    ensures var last := if s.last.Some? then s.last.value else next;
            AfterStart(s, next, order, fault).1
            <==> && !fault.Record?
                 && (next != last ==> && !fault.Mount? && !fault.Finish?
                                      && (fault.Unshift? ==> last == []) && (fault.Shift? ==> next == []))
    ensures AfterStart(s, next, order, fault).1 ==> AfterStart(s, next, order, fault).0.last == Some(next)
    ensures s.last == None || s.last == Some(next) ==> AfterStart(s, next, order, fault).0.disk == s.disk
  {
  }

  /** A start that fails records nothing; if it did not get to the files they are as before. */
  lemma FailedStartRecordsNothing(s: Stored, next: Idmap, order: seq<string>, fault: Fault)
    requires !AfterStart(s, next, order, fault).1
    ensures AfterStart(s, next, order, fault).0.last == s.last
    ensures fault.Mount? || LastMap(s.last, next) == next ==> AfterStart(s, next, order, fault).0 == s
  {
  }

  /** A file a broken-off start left behind: untouched, unshifted, or already shifted by the next map. */
  datatype Stage = Untouched | Bare | Placed

  function StageOwner(stage: Stage, last: Idmap, next: Idmap, o: Owner): Owner {
    match stage
    case Untouched => NewOwner(last, In, o)
    case Bare => o
    case Placed => NewOwner(next, In, o)
  }

  /** How far a start that ends in this fault gets with each file. */
  function StageOf(p: string, last: Idmap, next: Idmap, order: seq<string>, fault: Fault): Stage {
    if last != [] && fault.Unshift? then if p in Reached(order, fault.at) then Bare else Untouched
    else if next != [] && fault.Shift? then if p in Reached(order, fault.at) then Placed else Bare
    else Placed
  }

  /** The owners a broken-off change leaves on disk. */
  lemma OnceStages(logical: Disk, last: Idmap, next: Idmap, order: seq<string>, fault: Fault, p: string)
    requires WellFormed(last) && ValidDisk(logical) && TracedDisk(last, logical) && p in logical
    ensures RemapOnce(Shifted(logical, last, In), last, next, order, fault).disk.Keys == logical.Keys
    ensures RemapOnce(Shifted(logical, last, In), last, next, order, fault).disk[p]
         == StageOwner(StageOf(p, last, next, order, fault), last, next, logical[p])
  {
    UnshiftUndoesShiftIff(last, logical);
    var d := Shifted(logical, last, In);
    assert Shifted(d, last, Out)[p] == logical[p];
    EmptyMapMovesNothing(logical, In);
    EmptyMapMovesNothing(d, Out);
    assert NewOwner(last, Out, d[p]) == logical[p];
    assert next == [] ==> Shifted(logical, next, In)[p] == logical[p];
    assert (if last != [] then Shifted(d, last, Out) else d) == logical;
  }

  lemma RemapStages(logical: Disk, last: Idmap, next: Idmap, order: seq<string>, fault: Fault, p: string)
    requires WellFormed(last) && ValidDisk(logical) && TracedDisk(last, logical) && p in logical
    requires Walkable(Shifted(logical, last, In), last, next, order)
    ensures Remap(Shifted(logical, last, In), last, next, order, fault).disk.Keys == logical.Keys
    ensures Remap(Shifted(logical, last, In), last, next, order, fault).disk[p]
         == StageOwner(StageOf(p, last, next, order, fault), last, next, logical[p])
  {
    RemapMovesOnce(Shifted(logical, last, In), last, next, order, fault);
    OnceStages(logical, last, next, order, fault, p);
  }

  lemma StageIsValid(stage: Stage, last: Idmap, next: Idmap, o: Owner)
    requires WellFormed(last) && WellFormed(next) && o.uid >= 0 && o.gid >= 0
    ensures var y := StageOwner(stage, last, next, o); y.uid >= 0 && y.gid >= 0
  {
    ConvertedIsAnId(last, Uid, In, o.uid);
    ConvertedIsAnId(last, Gid, In, o.gid);
    ConvertedIsAnId(next, Uid, In, o.uid);
    ConvertedIsAnId(next, Gid, In, o.gid);
  }

  /** Whether the unshift of the next attempt recovers one file. */
  lemma StageRecoversIff(last: Idmap, next: Idmap, stage: Stage, o: Owner)
    requires WellFormed(last) && WellFormed(next) && o.uid >= 0 && o.gid >= 0
    ensures NewOwner(last, Out, StageOwner(stage, last, next, o)) == o
            <==> Returns(last, o, StageOwner(stage, last, next, o))
    ensures TracedOwner(last, o) ==> NewOwner(last, Out, StageOwner(Untouched, last, next, o)) == o
  {
    StageIsValid(stage, last, next, o);
    OwnerGives(last, o, StageOwner(stage, last, next, o));
    OutUndoesInIff(last, Uid, o.uid);
    OutUndoesInIff(last, Gid, o.gid);
  }

  /** The file was not touched, or was left where the last map puts it or never needed moving by it. */
  predicate Undoable(last: Idmap, next: Idmap, stage: Stage, o: Owner) {
    stage.Untouched? || Returns(last, o, StageOwner(stage, last, next, o))
  }

  lemma UnshiftRecoversIff(logical: Disk, left: Disk, last: Idmap, next: Idmap, stages: map<string, Stage>)
    requires WellFormed(last) && WellFormed(next) && ValidDisk(logical) && TracedDisk(last, logical)
    requires left.Keys == stages.Keys == logical.Keys
    requires forall p :: p in logical ==> left[p] == StageOwner(stages[p], last, next, logical[p])
    ensures Shifted(left, last, Out) == logical <==> forall p :: p in logical ==> Undoable(last, next, stages[p], logical[p])
  {
    forall p | p in logical
      ensures Shifted(left, last, Out)[p] == logical[p] <==> Undoable(last, next, stages[p], logical[p])
    {
      StageRecoversIff(last, next, stages[p], logical[p]);
    }
  }

  /** How far a start that ends in this fault gets with all files. */
  function StagesOf(logical: Disk, last: Idmap, next: Idmap, order: seq<string>, fault: Fault): map<string, Stage> {
    map p | p in logical :: StageOf(p, last, next, order, fault)
  }

  /**
   After a start broke off, the unshift of the next attempt recovers the container's files exactly when each file that
   was touched either never needed moving by the last map or was put where the last map would put it.
   */
  lemma RetryRecoversIff(s: Stored, logical: Disk, next: Idmap, order: seq<string>, fault: Fault)
    requires OnDisk(s, logical) && WellFormed(next) && next != s.last.value && !fault.Mount?
    requires StartWalks(s, next, order) && !AfterStart(s, next, order, fault).1
    ensures var last := s.last.value;
            var stages := StagesOf(logical, last, next, order, fault);
            Shifted(AfterStart(s, next, order, fault).0.disk, last, Out) == logical
            <==> forall p :: p in logical ==> Undoable(last, next, stages[p], logical[p])
  {
    var last := s.last.value;
    var stages := StagesOf(logical, last, next, order, fault);
    var left := Remap(s.disk, last, next, order, fault).disk;
    RemapKeys(s.disk, last, next, order, fault);
    forall p | p in logical
      ensures left[p] == StageOwner(stages[p], last, next, logical[p])
    {
      RemapStages(logical, last, next, order, fault, p);
    }
    UnshiftRecoversIff(logical, left, last, next, stages);
  }

  lemma RemapKeys(d: Disk, last: Idmap, next: Idmap, order: seq<string>, fault: Fault)
    ensures Remap(d, last, next, order, fault).disk.Keys == d.Keys
  {
  }

  // ----- histories of a container ----------------------------------------------------------------------------------

  datatype Event =
    | Configure(next: Idmap)
    | Start(order: seq<string>, fault: Fault)
    | Write(path: string, owner: Owner)
    | Remove(path: string)

  /** The stored state, the map wanted, and the files as the container sees them. */
  datatype World = World(stored: Stored, next: Idmap, logical: Disk)

  function Apply(w: World, e: Event): World {
    match e
    case Configure(next) => w.(next := next)
    case Start(order, fault) => w.(stored := AfterStart(w.stored, w.next, order, fault).0)
    case Write(p, o) =>
      var now := NewOwner(LastMap(w.stored.last, w.next), In, o);
      w.(logical := w.logical[p := o], stored := w.stored.(disk := w.stored.disk[p := now]))
    case Remove(p) =>
      w.(logical := w.logical - {p}, stored := w.stored.(disk := w.stored.disk - {p}))
  }

  /** What each event does: the map configured is the one a start then records, and files are as written. */
  lemma EventsAre(w: World, next: Idmap, order: seq<string>, p: string, o: Owner)
    ensures AfterStart(w.stored, next, order, Nothing).1
    ensures var v := Apply(Apply(w, Configure(next)), Start(order, Nothing));
            v.next == next && v.stored.last == Some(next) && v.logical == w.logical
    ensures var v := Apply(w, Write(p, o));
            && v.logical == w.logical[p := o] && v.next == w.next && v.stored.last == w.stored.last
            && v.stored.disk.Keys == w.stored.disk.Keys + {p}
            && forall q :: q in w.stored.disk && q != p ==> v.stored.disk[q] == w.stored.disk[q]
    ensures var v := Apply(w, Remove(p));
            v.logical == w.logical - {p} && v.stored.disk == w.stored.disk - {p} && v.stored.last == w.stored.last
  {
  }

  function Final(w: World, events: seq<Event>): World
    decreases |events|
  {
    if events == [] then w else Final(Apply(w, events[0]), events[1..])
  }

  predicate UsesOnly(d: Disk, ids: set<int>) {
    forall p :: p in d ==> d[p].uid in ids && d[p].gid in ids
  }

  /** Maps are well formed and suit the ids in use, links make no difference, and a start that breaks off
   does so before it moves a file. */
  ghost predicate Regular(w: World, e: Event, ids: set<int>) {
    match e
    case Configure(next) => Suits(next, ids)
    case Start(order, fault) =>
      var (s, ok) := AfterStart(w.stored, w.next, order, fault);
      (ok && StartWalks(w.stored, w.next, order)) || s == w.stored
    case Write(_, o) => o.uid in ids && o.gid in ids
    case Remove(_) => true
  }

  ghost predicate RegularRun(w: World, events: seq<Event>, ids: set<int>)
    decreases |events|
  {
    events == [] || (Regular(w, events[0], ids) && RegularRun(Apply(w, events[0]), events[1..], ids))
  }

  ghost predicate Consistent(w: World, ids: set<int>) {
    && OnDisk(w.stored, w.logical) && UsesOnly(w.logical, ids)
    && Suits(w.next, ids) && Suits(w.stored.last.value, ids)
    && forall id :: id in ids ==> id >= 0
  }

  lemma StepKeepsConsistent(w: World, e: Event, ids: set<int>)
    requires Consistent(w, ids) && Regular(w, e, ids)
    ensures Consistent(Apply(w, e), ids)
  {
    match e
    case Start(order, fault) =>
      if AfterStart(w.stored, w.next, order, fault).1 && StartWalks(w.stored, w.next, order) {
        StartKeepsFiles(w.stored, w.logical, w.next, order, fault);
      }
    case Write(p, o) =>
      var last := w.stored.last.value;
      assert Apply(w, e).stored.disk == Shifted(w.logical[p := o], last, In);
    case Remove(p) =>
      assert Apply(w, e).stored.disk == Shifted(w.logical - {p}, w.stored.last.value, In);
    case Configure(_) =>
  }

  /**
   Over every such history of configuring, starting and writing, ownership on disk is the container's own files
   shifted by exactly the recorded map, so the files the container sees are always those it wrote.
   */
  lemma {:induction false} HistoryKeepsOwnership(w: World, events: seq<Event>, ids: set<int>)
    requires Consistent(w, ids) && RegularRun(w, events, ids)
    ensures Consistent(Final(w, events), ids)
    decreases |events|
  {
    if events != [] {
      StepKeepsConsistent(w, events[0], ids);
      HistoryKeepsOwnership(Apply(w, events[0]), events[1..], ids);
    }
  }
}
