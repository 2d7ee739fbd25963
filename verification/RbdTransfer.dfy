/**
 RBD storage transfer: the source exports one diff per snapshot, each from the previous one, and a last diff from the
 newest snapshot to the head; the sink imports them one by one into an empty volume.
 */
module RbdTransfer {
  import opened Prelude
  import opened Wire

  // the written blocks of an image
  type Image = map<nat, int>

  function At(image: Image, block: nat): Option<int> {
    if block in image then Some(image[block]) else None
  }

  /** rbd export-diff: the blocks that differ, with their new contents; None discards a block. */
  function Changes(from: Image, to: Image): map<nat, Option<int>> {
    map b | b in from.Keys + to.Keys && At(from, b) != At(to, b) :: At(to, b)
  }

  function Patch(image: Image, changes: map<nat, Option<int>>): Image {
    map b | b in image.Keys + changes.Keys && Patched(image, changes, b).Some? :: Patched(image, changes, b).value
  }

  function Patched(image: Image, changes: map<nat, Option<int>>, b: nat): Option<int> {
    if b in changes then changes[b] else At(image, b)
  }

  lemma SameImage(a: Image, b: Image)
    requires forall x :: At(a, x) == At(b, x)
    ensures a == b
  {
    forall x
      ensures x in a <==> x in b
      ensures x in a ==> a[x] == b[x]
    {
      assert At(a, x) == At(b, x);
    }
  }

  lemma PatchedAt(image: Image, changes: map<nat, Option<int>>, b: nat)
    ensures At(Patch(image, changes), b) == Patched(image, changes, b)
  {
  }

  /** A diff names exactly the blocks that differ, with what the new image has there. */
  lemma ChangesAre(from: Image, to: Image, b: nat)
    ensures b in Changes(from, to) <==> (if b in from then Some(from[b]) else None) != (if b in to then Some(to[b]) else None)
    ensures b in Changes(from, to) ==> Changes(from, to)[b] == if b in to then Some(to[b]) else None
  {
  }

  /** A patched image has the named blocks as named, none where discarded, and the others as they were. */
  lemma PatchIs(image: Image, changes: map<nat, Option<int>>, b: nat)
    ensures b in changes ==> (b in Patch(image, changes) <==> changes[b].Some?)
    ensures b in changes && changes[b].Some? ==> Patch(image, changes)[b] == changes[b].value
    ensures b !in changes ==> (b in Patch(image, changes) <==> b in image)
    ensures b !in changes && b in image ==> Patch(image, changes)[b] == image[b]
  {
  }

  /** Applied to the image it was taken from, a diff gives the image it leads to. */
  lemma PatchChanges(from: Image, to: Image)
    ensures Patch(from, Changes(from, to)) == to
  {
    forall b
      ensures At(Patch(from, Changes(from, to)), b) == At(to, b)
    {
      PatchedAt(from, Changes(from, to), b);
    }
    SameImage(Patch(from, Changes(from, to)), to);
  }

  // ----- source ----------------------------------------------------------------------------------------------------

  datatype Snapshot = Snapshot(name: string, image: Image)

  /** A volume with its snapshots, oldest first, as rbd snap ls lists them. */
  datatype Volume = Volume(head: Image, snapshots: seq<Snapshot>)

  ghost predicate DistinctNames(snapshots: seq<Snapshot>) {
    forall i, j :: 0 <= i < j < |snapshots| ==> snapshots[i].name != snapshots[j].name
  }

  /** What goes over the wire: from a snapshot or from nothing, to a snapshot or to the head. */
  datatype Diff = Diff(from: Option<string>, to: Option<string>, changes: map<nat, Option<int>>)

  const PREFIX := "snapshot_"

  /** The snapshots that are sent: the container's own, not those left over by other migrations. */
  function Own(snapshots: seq<Snapshot>): (r: seq<Snapshot>)
    ensures forall s :: s in r <==> s in snapshots && "snapshot_" <= s.name
  {
    if snapshots == [] then []
    else
      var front, last := Own(snapshots[..|snapshots| - 1]), snapshots[|snapshots| - 1];
      if PREFIX <= last.name then front + [last] else front
  }

  /** They are sent in the order in which they were listed. */
  lemma {:induction false} OwnInOrder(a: seq<Snapshot>, b: seq<Snapshot>)
    ensures Own(a + b) == Own(a) + Own(b)
    decreases |b|
  {
    if b == [] {
      assert a + b == a;
    } else {
      var front, last := b[..|b| - 1], b[|b| - 1];
      assert (a + b)[..|a + b| - 1] == a + front && (a + b)[|a + b| - 1] == last;
      OwnInOrder(a, front);
      assert Own(a) + (Own(front) + [last]) == (Own(a) + Own(front)) + [last];
    }
  }

  lemma OwnOfOne(s: Snapshot)
    ensures Own([s]) == if "snapshot_" <= s.name then [s] else []
  {
    assert [s][..0] == [];
  }

  function ImageBefore(snapshots: seq<Snapshot>, k: nat): Image
    requires k <= |snapshots|
  {
    if k == 0 then map[] else snapshots[k - 1].image
  }

  function NameBefore(snapshots: seq<Snapshot>, k: nat): Option<string>
    requires k <= |snapshots|
  {
    if k == 0 then None else Some(snapshots[k - 1].name)
  }

  /** The diffs for the first k snapshots. */
  function SnapshotDiffs(snapshots: seq<Snapshot>, k: nat): (r: seq<Diff>)
    requires k <= |snapshots|
    ensures |r| == k
  {
    if k == 0 then []
    else
      var i := k - 1;
      SnapshotDiffs(snapshots, i) +
      [Diff(NameBefore(snapshots, i), Some(snapshots[i].name), Changes(ImageBefore(snapshots, i), snapshots[i].image))]
  }

  function HeadDiff(head: Image, snapshots: seq<Snapshot>): Diff {
    Diff(NameBefore(snapshots, |snapshots|), None, Changes(ImageBefore(snapshots, |snapshots|), head))
  }

  function Stream(head: Image, snapshots: seq<Snapshot>): seq<Diff> {
    SnapshotDiffs(snapshots, |snapshots|) + [HeadDiff(head, snapshots)]
  }

  class SourceDriver {
    const container: Volume
    const isSnapshot: bool
    var snapshots: seq<Snapshot>
    var runningSnapName: Option<string>

    /** storageCeph.MigrationSource: a snapshot is sent by itself, a container with its own snapshots or without. */
    constructor (container: Volume, isSnapshot: bool, containerOnly: bool)
      ensures this.container == container && this.isSnapshot == isSnapshot
      ensures snapshots == if isSnapshot || containerOnly then [] else Own(container.snapshots)
    {
      this.container, this.isSnapshot := container, isSnapshot;
      this.snapshots, runningSnapName := [], None;
      new;
      if !isSnapshot && !containerOnly {
        for i := 0 to |container.snapshots|
          modifies this
          invariant this.snapshots == Own(container.snapshots[..i])
        {
          assert container.snapshots[..i + 1][..i] == container.snapshots[..i];
          if PREFIX <= container.snapshots[i].name {
            this.snapshots := this.snapshots + [container.snapshots[i]];
          }
        }
        assert container.snapshots[..|container.snapshots|] == container.snapshots;
      }
    }

    /**
     SendWhileRunning puts the stream on the wire, or as much of it as the connection carries. The head may have
     been written to since the driver was made.
     */
    method SendWhileRunning(conn: Connection<Diff>, head: Image, containerOnly: bool) returns (ok: bool)
      requires containerOnly ==> snapshots == []
      requires isSnapshot ==> snapshots == []
      modifies this, conn
      ensures snapshots == old(snapshots)
      ensures ok == (old(conn.budget) >= |Stream(head, snapshots)|)
      ensures conn.queue == old(conn.queue) + Carried(Stream(head, snapshots), old(conn.budget))
      ensures ok && !isSnapshot ==> runningSnapName == NameBefore(snapshots, |snapshots|)
      ensures ok ==> conn.budget == old(conn.budget) - |Stream(head, snapshots)|
    {
      StreamAt(head, snapshots, |snapshots|);
      if isSnapshot {
        ok := conn.Send(Diff(None, None, Changes(map[], head)));
        return;
      }
      var lastSnap: Option<string> := None;
      if !containerOnly {
        lastSnap, ok := SendSnapshots(conn, head);
        if !ok {
          return;
        }
      }
      runningSnapName := lastSnap;
      ok := conn.Send(Diff(lastSnap, None, Changes(ImageBefore(snapshots, |snapshots|), head)));
    }

    /** The loop over the snapshots, each sent from the one before. */
    method SendSnapshots(conn: Connection<Diff>, ghost head: Image) returns (lastSnap: Option<string>, ok: bool)
      modifies conn
      ensures ok == (old(conn.budget) >= |snapshots|)
      ensures ok ==> lastSnap == NameBefore(snapshots, |snapshots|) && conn.budget == old(conn.budget) - |snapshots|
      ensures |snapshots| < |Stream(head, snapshots)|
      ensures conn.queue == old(conn.queue) + Stream(head, snapshots)[..if ok then |snapshots| else old(conn.budget)]
    {
      ghost var stream := Stream(head, snapshots);
      StreamAt(head, snapshots, |snapshots|);
      lastSnap, ok := None, true;
      for i := 0 to |snapshots|
        invariant lastSnap == NameBefore(snapshots, i) && ok
        invariant old(conn.budget) >= i && conn.budget == old(conn.budget) - i
        invariant conn.queue == old(conn.queue) + stream[..i]
      {
        StreamAt(head, snapshots, i);
        var prev := if i > 0 then Some(snapshots[i - 1].name) else None;
        lastSnap := Some(snapshots[i].name);
        ok := conn.Send(Diff(prev, lastSnap, Changes(ImageBefore(snapshots, i), snapshots[i].image)));
        if !ok {
          return;
        }
      }
    }

    /** SendAfterCheckpoint: one more diff, from the same snapshot to the head as it is now. */
    method SendAfterCheckpoint(conn: Connection<Diff>, head: Image) returns (ok: bool)
      modifies conn
      ensures ok == (old(conn.budget) > 0)
      ensures runningSnapName == NameBefore(snapshots, |snapshots|) ==>
                conn.queue == if ok then old(conn.queue) + [HeadDiff(head, snapshots)] else old(conn.queue)
    {
      ok := conn.Send(Diff(runningSnapName, None, Changes(ImageBefore(snapshots, |snapshots|), head)));
    }
  }

  lemma {:induction false} StreamPrefix(head: Image, snapshots: seq<Snapshot>, k: nat)
    requires k <= |snapshots|
    ensures Stream(head, snapshots)[..k] == SnapshotDiffs(snapshots, k)
  {
    DiffsPrefix(snapshots, |snapshots|, k);
  }

  /** The i-th diff of the stream, for a snapshot or, at the end, for the head. */
  lemma StreamAt(head: Image, snapshots: seq<Snapshot>, i: nat)
    requires i <= |snapshots|
    ensures var stream := Stream(head, snapshots);
            && |stream| == |snapshots| + 1 && stream[..|stream|] == stream && stream[..0] == []
            && stream[..i + 1] == stream[..i] + [stream[i]]
            && stream[i] == if i == |snapshots| then HeadDiff(head, snapshots)
                            else Diff(NameBefore(snapshots, i), Some(snapshots[i].name),
                                      Changes(ImageBefore(snapshots, i), snapshots[i].image))
  {
    var stream := Stream(head, snapshots);
    if i < |snapshots| {
      StreamPrefix(head, snapshots, i + 1);
      assert stream[i] == stream[..i + 1][i];
    }
  }

  /** Each diff starts from the snapshot before, the first from nothing and the last, for the head, from the newest. */
  lemma StreamChains(head: Image, snapshots: seq<Snapshot>, i: nat)
    requires i <= |snapshots|
    ensures var d := Stream(head, snapshots)[i];
            && d.from == (if i == 0 then None else Some(snapshots[i - 1].name))
            && d.to == (if i == |snapshots| then None else Some(snapshots[i].name))
            && d.changes == Changes(if i == 0 then map[] else snapshots[i - 1].image,
                                    if i == |snapshots| then head else snapshots[i].image)
  {
    StreamAt(head, snapshots, i);
  }

  lemma {:induction false} DiffsPrefix(snapshots: seq<Snapshot>, n: nat, k: nat)
    requires k <= n <= |snapshots|
    ensures SnapshotDiffs(snapshots, n)[..k] == SnapshotDiffs(snapshots, k)
  {
    if k == n {
      assert SnapshotDiffs(snapshots, n)[..k] == SnapshotDiffs(snapshots, n);
    } else {
      DiffsPrefix(snapshots, n - 1, k);
      assert SnapshotDiffs(snapshots, n)[..k] == SnapshotDiffs(snapshots, n - 1)[..k];
    }
  }

  // ----- sink ------------------------------------------------------------------------------------------------------

  /** The volume being rebuilt. */
  datatype Copy = Copy(head: Image, snapshots: map<string, Image>)

  const EMPTY := Copy(map[], map[])

  /** rbd import-diff: needs the snapshot the diff starts from, and must not have the one it leads to. */
  function Import(copy: Copy, diff: Diff): Option<Copy> {
    if diff.from.Some? && diff.from.value !in copy.snapshots then None
    else if diff.to.Some? && diff.to.value in copy.snapshots then None
    else
      var head := Patch(copy.head, diff.changes);
      Some(Copy(head, if diff.to.Some? then copy.snapshots[diff.to.value := head] else copy.snapshots))
  }

  /** An import fails exactly without the snapshot the diff starts from, or with the one it leads to. */
  lemma ImportIs(copy: Copy, diff: Diff)
    ensures Import(copy, diff).Some? <==> && (diff.from.Some? ==> diff.from.value in copy.snapshots)
                                          && (diff.to.Some? ==> diff.to.value !in copy.snapshots)
    ensures Import(copy, diff).Some? ==>
              var after := Import(copy, diff).value;
              && after.head == Patch(copy.head, diff.changes)
              && (diff.to.None? ==> after.snapshots == copy.snapshots)
              && (diff.to.Some? ==> after.snapshots == copy.snapshots[diff.to.value := after.head])
  {
  }

  function ImportAll(copy: Copy, diffs: seq<Diff>): Option<Copy> {
    if diffs == [] then Some(copy)
    else
      match ImportAll(copy, diffs[..|diffs| - 1])
      case None => None
      case Some(c) => Import(c, diffs[|diffs| - 1])
  }

  function Rebuilt(snapshots: seq<Snapshot>, k: nat): map<string, Image>
    requires k <= |snapshots|
  {
    if k == 0 then map[] else Rebuilt(snapshots, k - 1)[snapshots[k - 1].name := snapshots[k - 1].image]
  }

  lemma {:induction false} RebuiltHas(snapshots: seq<Snapshot>, k: nat, name: string)
    requires k <= |snapshots| && DistinctNames(snapshots)
    ensures name in Rebuilt(snapshots, k) <==> exists i :: 0 <= i < k && snapshots[i].name == name
    ensures forall i :: 0 <= i < k ==>
              snapshots[i].name in Rebuilt(snapshots, k) && Rebuilt(snapshots, k)[snapshots[i].name] == snapshots[i].image
  {
    if k > 0 {
      RebuiltHas(snapshots, k - 1, name);
      forall i | 0 <= i < k
        ensures snapshots[i].name in Rebuilt(snapshots, k) && Rebuilt(snapshots, k)[snapshots[i].name] == snapshots[i].image
      {
        if i < k - 1 {
          assert snapshots[i].name != snapshots[k - 1].name;
        }
      }
      assert snapshots[k - 1].name in Rebuilt(snapshots, k);
    }
  }

  lemma {:induction false} ImportSnapshots(snapshots: seq<Snapshot>, k: nat)
    requires k <= |snapshots| && DistinctNames(snapshots)
    ensures ImportAll(EMPTY, SnapshotDiffs(snapshots, k)) ==
            Some(Copy(ImageBefore(snapshots, k), Rebuilt(snapshots, k)))
  {
    if k > 0 {
      var i := k - 1;
      ImportSnapshots(snapshots, i);
      var diffs := SnapshotDiffs(snapshots, k);
      assert diffs[..|diffs| - 1] == SnapshotDiffs(snapshots, i);
      RebuiltHas(snapshots, i, snapshots[i].name);
      PatchChanges(ImageBefore(snapshots, i), snapshots[i].image);
    }
  }

  /**
   Replayed in order, every diff of the stream finds the snapshot it starts from, at whatever diff the stream ends;
   after the last one the sink has each snapshot, and the head, exactly.
   */
  lemma ReplayRebuilds(head: Image, snapshots: seq<Snapshot>, k: nat)
    requires DistinctNames(snapshots) && k <= |Stream(head, snapshots)|
    ensures var copy := ImportAll(EMPTY, Stream(head, snapshots)[..k]);
            && copy.Some?
            && (k == |Stream(head, snapshots)| ==>
                  && copy.value.head == head
                  && (forall name :: name in copy.value.snapshots <==> exists s :: s in snapshots && s.name == name)
                  && (forall s :: s in snapshots ==>
                        s.name in copy.value.snapshots && copy.value.snapshots[s.name] == s.image))
  {
    var n := |snapshots|;
    if k <= n {
      StreamPrefix(head, snapshots, k);
      ImportSnapshots(snapshots, k);
    } else {
      var stream := Stream(head, snapshots);
      assert stream[..k] == stream;
      ImportStream(head, snapshots);
      forall name
        ensures name in Rebuilt(snapshots, n) <==> exists s :: s in snapshots && s.name == name
      {
        RebuiltHas(snapshots, n, name);
        if name in Rebuilt(snapshots, n) {
          var i :| 0 <= i < n && snapshots[i].name == name;
          assert snapshots[i] in snapshots;
        }
      }
      forall s | s in snapshots
        ensures s.name in Rebuilt(snapshots, n) && Rebuilt(snapshots, n)[s.name] == s.image
      {
        RebuiltHas(snapshots, n, s.name);
      }
    }
  }

  lemma ImportStream(head: Image, snapshots: seq<Snapshot>)
    requires DistinctNames(snapshots)
    ensures ImportAll(EMPTY, Stream(head, snapshots)) == Some(Copy(head, Rebuilt(snapshots, |snapshots|)))
  {
    var n := |snapshots|;
    var stream := Stream(head, snapshots);
    assert stream[..|stream| - 1] == SnapshotDiffs(snapshots, n);
    ImportSnapshots(snapshots, n);
    PatchChanges(ImageBefore(snapshots, n), head);
    RebuiltHas(snapshots, n, "");
  }

  /** A step of the sink's own that fails: creating the volume, or something at the i-th snapshot or at the end. */
  datatype Local = NoFault | CreateVolume | CreateSnapshot(i: nat) | MountSnapshot(i: nat) | MountContainer

  /** Whether a sink of so many snapshots comes to that step. */
  predicate Takes(snapshots: nat, fault: Local) {
    match fault
    case NoFault => false
    case CreateVolume => true
    case CreateSnapshot(i) => i < snapshots
    case MountSnapshot(i) => i < snapshots
    case MountContainer => true
  }

  lemma TakesIff(snapshots: nat, fault: Local)
    ensures Takes(snapshots, fault) <==>
            || fault == CreateVolume || fault == MountContainer
            || exists i: nat :: i < snapshots && (fault == CreateSnapshot(i) || fault == MountSnapshot(i))
  {
    if (fault.CreateSnapshot? || fault.MountSnapshot?) && fault.i < snapshots {
      assert fault == CreateSnapshot(fault.i) || fault == MountSnapshot(fault.i);
    }
  }

  /** The sink's volume and how it is filled. */
  class SinkVolume {
    var copy: Copy

    constructor ()
      ensures copy == EMPTY
    {
      copy := EMPTY;
    }

    /** rbdRecv: take one diff off the wire and import it. */
    method Receive(conn: Connection<Diff>) returns (ok: bool)
      modifies this, conn
      ensures ok <==> old(conn.queue) != [] && Import(old(copy), old(conn.queue)[0]).Some?
      ensures ok ==> copy == Import(old(copy), old(conn.queue)[0]).value && conn.queue == old(conn.queue)[1..]
      ensures !ok ==> copy == old(copy)
      ensures conn.budget == old(conn.budget)
    {
      if conn.queue == [] {
        return false;
      }
      var diff := conn.queue[0];
      conn.queue := conn.queue[1..];
      var next := Import(copy, diff);
      ok := next.Some?;
      if ok {
        copy := next.value;
      }
    }

    /**
     storageCeph.MigrationSink: one receive per snapshot in the header and one for the container. It fails exactly when
     the wire runs dry, a diff does not import or a step of its own fails that it takes, and then keeps what was
     imported before.
     */
    method MigrationSink(conn: Connection<Diff>, snapshots: nat, fault: Local) returns (ok: bool)
      modifies this, conn
      ensures ok <==> && snapshots + 1 <= |old(conn.queue)|
                      && ImportAll(old(copy), old(conn.queue)[..snapshots + 1]).Some?
                      && !Takes(snapshots, fault)
      ensures ok ==> Some(copy) == ImportAll(old(copy), old(conn.queue)[..snapshots + 1])
      ensures ok ==> conn.queue == old(conn.queue)[snapshots + 1..]
      ensures !ok ==> Imported(old(copy), old(conn.queue), snapshots + 1, copy)
    {
      ghost var queue := conn.queue;
      ghost var start := copy;
      assert ImportAll(start, queue[..0]) == Some(start);
      if fault.CreateVolume? {
        return false;
      }
      for i := 0 to snapshots
        invariant i <= |queue| && conn.queue == queue[i..]
        invariant Some(copy) == ImportAll(start, queue[..i])
        invariant fault.CreateSnapshot? || fault.MountSnapshot? ==> !Takes(i, fault)
      {
        if fault == CreateSnapshot(i) {
          return false;
        }
        ok := ReceiveNext(conn, start, queue, i, snapshots + 1);
        if !ok {
          return;
        }
        if fault == MountSnapshot(i) {
          return false;
        }
      }
      ok := ReceiveNext(conn, start, queue, snapshots, snapshots + 1);
      if !ok {
        return;
      }
      ok := !fault.MountContainer?;
    }

    /** The i-th receive of n. */
    method ReceiveNext(conn: Connection<Diff>, ghost start: Copy, ghost queue: seq<Diff>, ghost i: nat, ghost n: nat)
      returns (ok: bool)
      requires i < n && i <= |queue| && conn.queue == queue[i..] && Some(copy) == ImportAll(start, queue[..i])
      modifies this, conn
      ensures ok ==> i < |queue| && conn.queue == queue[i + 1..] && Some(copy) == ImportAll(start, queue[..i + 1])
      ensures !ok ==> copy == old(copy) && (n <= |queue| ==> ImportAll(start, queue[..n]).None?)
    {
      ImportNext(start, queue, i, n);
      ok := Receive(conn);
    }
  }

  /** The copy after the first of at most n diffs. */
  ghost predicate Imported(start: Copy, queue: seq<Diff>, n: nat, copy: Copy) {
    exists k :: 0 <= k <= |queue| && k <= n && Some(copy) == ImportAll(start, queue[..k])
  }

  /** The next diff decides whether the import goes on, and a diff that does not import ends it for good. */
  lemma ImportNext(start: Copy, queue: seq<Diff>, i: nat, n: nat)
    requires i <= |queue| && i < n && ImportAll(start, queue[..i]).Some?
    ensures i == |queue| <==> queue[i..] == []
    ensures i < |queue| ==>
              && queue[i..][0] == queue[i] && queue[i..][1..] == queue[i + 1..]
              && ImportAll(start, queue[..i + 1]) == Import(ImportAll(start, queue[..i]).value, queue[i])
    ensures i < |queue| && n <= |queue| && ImportAll(start, queue[..i + 1]).None? ==> ImportAll(start, queue[..n]).None?
  {
    if i < |queue| {
      assert queue[..i + 1][..i] == queue[..i];
      if n <= |queue| && ImportAll(start, queue[..n]).Some? {
        ImportPrefix(start, queue[..n], i + 1);
        assert queue[..n][..i + 1] == queue[..i + 1];
      }
    }
  }

  lemma {:induction false} ImportPrefix(copy: Copy, diffs: seq<Diff>, k: nat)
    requires k <= |diffs| && ImportAll(copy, diffs).Some?
    ensures ImportAll(copy, diffs[..k]).Some?
    decreases |diffs|
  {
    if k < |diffs| {
      ImportPrefix(copy, diffs[..|diffs| - 1], k);
      assert diffs[..|diffs| - 1][..k] == diffs[..k];
    } else {
      assert diffs[..k] == diffs;
    }
  }

  // ----- live migration --------------------------------------------------------------------------------------------

  /**
   A whole transfer. A live one leaves the diff sent after the checkpoint on the wire, so that the sink's head is the
   source's head of before the checkpoint, whatever was written in between.
   */
  method Transfer(volume: Volume, containerOnly: bool, live: bool, checkpoint: Image) returns (copy: Copy, left: seq<Diff>)
    requires DistinctNames(volume.snapshots)
    ensures var sent := if containerOnly then [] else Own(volume.snapshots);
            && copy.head == volume.head
            && copy.snapshots == Rebuilt(sent, |sent|)
            && left == if live then [HeadDiff(checkpoint, sent)] else []
    ensures containerOnly ==> copy.snapshots == map[]
    ensures !containerOnly ==>
              && (forall s :: s in volume.snapshots && "snapshot_" <= s.name ==>
                    s.name in copy.snapshots && copy.snapshots[s.name] == s.image)
              && forall name :: name in copy.snapshots ==>
                   exists s :: s in volume.snapshots && "snapshot_" <= s.name && s.name == name
  {
    var conn, sent := SendAll(volume, containerOnly, live, checkpoint);
    ghost var snapshots := if containerOnly then [] else Own(volume.snapshots);
    OwnDistinct(volume.snapshots);
    StreamThenRest(volume.head, snapshots, conn.queue, if live then [HeadDiff(checkpoint, snapshots)] else []);
    ImportStream(volume.head, snapshots);
    RebuiltAreOwn(volume.snapshots);
    var sink := new SinkVolume();
    var ok := sink.MigrationSink(conn, sent, NoFault);
    copy, left := sink.copy, conn.queue;
  }

  /** The source's whole side, over a connection that lasts; it announces so many snapshots. */
  method SendAll(volume: Volume, containerOnly: bool, live: bool, checkpoint: Image)
    returns (conn: Connection<Diff>, announced: nat)
    ensures fresh(conn)
    ensures var sent := if containerOnly then [] else Own(volume.snapshots);
            && announced == |sent|
            && conn.queue == Stream(volume.head, sent) + if live then [HeadDiff(checkpoint, sent)] else []
  {
    conn := new Connection<Diff>(|volume.snapshots| + 2);
    var driver := new SourceDriver(volume, false, containerOnly);
    ghost var sent := driver.snapshots;
    OwnFits(volume.snapshots);
    StreamAt(volume.head, sent, |sent|);
    announced := |driver.snapshots|;
    var ok := driver.SendWhileRunning(conn, volume.head, containerOnly);
    assert conn.queue == Stream(volume.head, sent);
    if live {
      ok := driver.SendAfterCheckpoint(conn, checkpoint);
      assert conn.queue == Stream(volume.head, sent) + [HeadDiff(checkpoint, sent)];
    }
  }

  lemma {:induction false} OwnFits(snapshots: seq<Snapshot>)
    ensures |Own(snapshots)| <= |snapshots|
  {
    if snapshots != [] {
      OwnFits(snapshots[..|snapshots| - 1]);
    }
  }

  lemma RebuiltAreOwn(snapshots: seq<Snapshot>)
    requires DistinctNames(snapshots)
    ensures Rebuilt([], 0) == map[]
    ensures var own := Own(snapshots);
            var rebuilt := Rebuilt(own, |own|);
            && (forall s :: s in snapshots && "snapshot_" <= s.name ==> s.name in rebuilt && rebuilt[s.name] == s.image)
            && forall name :: name in rebuilt ==> exists s :: s in snapshots && "snapshot_" <= s.name && s.name == name
  {
    var own := Own(snapshots);
    OwnDistinct(snapshots);
    forall name
      ensures name in Rebuilt(own, |own|) ==> exists s :: s in snapshots && "snapshot_" <= s.name && s.name == name
    {
      RebuiltHas(own, |own|, name);
      if name in Rebuilt(own, |own|) {
        var i :| 0 <= i < |own| && own[i].name == name;
        assert own[i] in own;
      }
    }
    forall s | s in snapshots && "snapshot_" <= s.name
      ensures s.name in Rebuilt(own, |own|) && Rebuilt(own, |own|)[s.name] == s.image
    {
      assert s in own;
      RebuiltHas(own, |own|, s.name);
    }
  }

  lemma StreamThenRest(head: Image, snapshots: seq<Snapshot>, queue: seq<Diff>, rest: seq<Diff>)
    requires queue == Stream(head, snapshots) + rest
    ensures |snapshots| + 1 <= |queue| && |Stream(head, snapshots)| == |snapshots| + 1
    ensures queue[..|snapshots| + 1] == Stream(head, snapshots) && queue[|snapshots| + 1..] == rest
  {
  }

  lemma {:induction false} OwnDistinct(snapshots: seq<Snapshot>)
    requires DistinctNames(snapshots)
    ensures DistinctNames(Own(snapshots)) && |Own(snapshots)| <= |snapshots|
  {
    if snapshots != [] {
      var front, last := snapshots[..|snapshots| - 1], snapshots[|snapshots| - 1];
      OwnDistinct(front);
      forall i | 0 <= i < |Own(front)|
        ensures Own(front)[i].name != last.name
      {
        assert Own(front)[i] in front;
        var j :| 0 <= j < |front| && front[j] == Own(front)[i];
        assert snapshots[j] == front[j];
      }
    }
  }

  /**
   Importing the leftover diff as well would give the checkpointed head exactly when no block written before the first
   head was sent went back to the snapshot's contents by the checkpoint.
   */
  lemma LateDiffRepairsIff(base: Image, head: Image, checkpoint: Image)
    ensures Patch(head, Changes(base, checkpoint)) == checkpoint <==>
            forall b :: At(checkpoint, b) == At(base, b) ==> At(head, b) == At(base, b)
  {
    var late := Patch(head, Changes(base, checkpoint));
    forall b
      ensures At(late, b) == if At(checkpoint, b) == At(base, b) then At(head, b) else At(checkpoint, b)
    {
      PatchedAt(head, Changes(base, checkpoint), b);
    }
    if forall b :: At(checkpoint, b) == At(base, b) ==> At(head, b) == At(base, b) {
      SameImage(late, checkpoint);
    }
  }
}
