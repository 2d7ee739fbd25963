/**
 Which transfer both ends of a migration settle on, and the fall-back all backends share: rsync of each snapshot, of
 the container and, for a live migration, of the container again after the checkpoint.
 */
module RsyncTransfer {
  import opened Wire

  // ----- settling on a method --------------------------------------------------------------------------------------

  datatype Method = Rsync | Btrfs | Zfs | Rbd

  datatype Backend = DirBackend | LvmBackend | MockBackend | CephBackend | ZfsBackend | BtrfsBackend(inUserns: bool)

  /** MigrationType of each storage backend. */
  function MigrationType(b: Backend): Method {
    match b
    case CephBackend => Rbd
    case ZfsBackend => Zfs
    case BtrfsBackend(inUserns) => if inUserns then Rsync else Btrfs
    case _ => Rsync
  }

  /** The sink's side: what it will receive with, and what it answers. */
  function SinkChoice(header: Method, mine: Method): (r: (Method, Method)) {
    if header != mine then (Rsync, Rsync) else (mine, mine)
  }

  /** The source's side, on the sink's answer. */
  function SourceChoice(mine: Method, answer: Method): (r: Method) {
    if answer != mine then Rsync else mine
  }

  /** Both ends settle on the same method: their own if they share it, and rsync otherwise. */
  lemma MethodsAgree(source: Backend, sink: Backend)
    ensures var mine := MigrationType(source);
            var (receive, answer) := SinkChoice(mine, MigrationType(sink));
            var send := SourceChoice(mine, answer);
            && send == receive
            && (send == mine <==> mine == MigrationType(sink) || mine == Rsync)
            && (send != mine ==> send == Rsync)
    ensures var receive := SinkChoice(MigrationType(source), MigrationType(sink)).0;
            && (receive == Rbd <==> source == CephBackend && sink == CephBackend)
            && (receive == Zfs <==> source == ZfsBackend && sink == ZfsBackend)
            && (receive == Btrfs <==> source == BtrfsBackend(false) && sink == BtrfsBackend(false))
  {
  }

  // ----- what is sent and what is received -------------------------------------------------------------------------

  /** Where a transfer belongs: in a snapshot or in the container itself. */
  datatype Target = Snap(name: string) | Root

  datatype Item = Item(target: Target, content: string)

  datatype Snapshot = Snapshot(name: string, content: string)

  function Names(snapshots: seq<Snapshot>): (r: seq<string>)
    ensures |r| == |snapshots| && forall i :: 0 <= i < |r| ==> r[i] == snapshots[i].name
  {
    seq(|snapshots|, i requires 0 <= i < |snapshots| => snapshots[i].name)
  }

  function SnapshotItems(snapshots: seq<Snapshot>): (r: seq<Item>)
    ensures |r| == |snapshots|
    ensures forall i :: 0 <= i < |r| ==> r[i] == Item(Snap(snapshots[i].name), snapshots[i].content)
  {
    seq(|snapshots|, i requires 0 <= i < |snapshots| => Item(Snap(snapshots[i].name), snapshots[i].content))
  }

  /** Everything the source puts on the wire. */
  function Sends(snapshots: seq<Snapshot>, containerOnly: bool, live: bool, root: string, checkpoint: string): seq<Item> {
    (if containerOnly then [] else SnapshotItems(snapshots))
    + [Item(Root, root)]
    + if live then [Item(Root, checkpoint)] else []
  }

  function SnapTargets(names: seq<string>): (r: seq<Target>)
    ensures |r| == |names| && forall i :: 0 <= i < |r| ==> r[i] == Snap(names[i])
  {
    seq(|names|, i requires 0 <= i < |names| => Snap(names[i]))
  }

  /** Everything the sink waits for, in order; `header` names the snapshots announced by the source. */
  function Receives(header: seq<string>, containerOnly: bool, live: bool): seq<Target> {
    (if containerOnly then [] else SnapTargets(header)) + [Root] + if live then [Root] else []
  }

  function TargetsOf(items: seq<Item>): (r: seq<Target>)
    ensures |r| == |items| && forall i :: 0 <= i < |r| ==> r[i] == items[i].target
  {
    seq(|items|, i requires 0 <= i < |items| => items[i].target)
  }

  /** Each end's flags, and the snapshots the header lists, decide whether every receive meets its send. */
  predicate EndsAgree(snapshots: seq<Snapshot>, listed: seq<string>, sourceOnly: bool, sinkOnly: bool, sourceLive: bool,
                      sinkLive: bool)
  {
    sourceLive == sinkLive && (sourceOnly || Names(snapshots) == if sinkOnly then [] else listed)
  }

  /**
   The k-th receive is for the k-th send, with none left over, exactly when both ends agree: on live, and on the
   snapshots unless the source sends none. The header lists nothing when the source sends the container only.
   */
  lemma MatchedIff(snapshots: seq<Snapshot>, listed: seq<string>, sourceOnly: bool, sinkOnly: bool, sourceLive: bool,
                   sinkLive: bool, root: string, checkpoint: string)
    ensures var header := if sourceOnly then [] else listed;
            TargetsOf(Sends(snapshots, sourceOnly, sourceLive, root, checkpoint)) == Receives(header, sinkOnly, sinkLive)
            <==> EndsAgree(snapshots, listed, sourceOnly, sinkOnly, sourceLive, sinkLive)
  {
    var header := if sourceOnly then [] else listed;
    var sent := if sourceOnly then [] else Names(snapshots);
    var wanted := if sinkOnly then [] else header;
    var targets := TargetsOf(Sends(snapshots, sourceOnly, sourceLive, root, checkpoint));
    assert targets == SnapTargets(sent) + [Root] + if sourceLive then [Root] else [];
    assert Receives(header, sinkOnly, sinkLive) == SnapTargets(wanted) + [Root] + if sinkLive then [Root] else [];
    SameTargets(sent, wanted, sourceLive, sinkLive);
  }

  lemma SameTargets(a: seq<string>, b: seq<string>, liveA: bool, liveB: bool)
    ensures SnapTargets(a) + [Root] + (if liveA then [Root] else []) == SnapTargets(b) + [Root] + (if liveB then [Root] else [])
            <==> a == b && liveA == liveB
  {
    var s, t := SnapTargets(a) + [Root] + (if liveA then [Root] else []), SnapTargets(b) + [Root] + (if liveB then [Root] else []);
    if s == t {
      assert s[|a|] == Root && t[|b|] == Root;
      assert forall i :: 0 <= i < |a| ==> s[i] == Snap(a[i]);
      assert forall i :: 0 <= i < |b| ==> t[i] == Snap(b[i]);
      assert |a| == |b|;
      assert forall i :: 0 <= i < |a| ==> a[i] == b[i];
    }
  }

  // ----- the two ends ----------------------------------------------------------------------------------------------

  class SourceDriver {
    const snapshots: seq<Snapshot>

    constructor (snapshots: seq<Snapshot>)
      ensures this.snapshots == snapshots
    {
      this.snapshots := snapshots;
    }

    /** The items in order, or as many as the connection carries. */
    method SendWhileRunning(conn: Connection<Item>, root: string, containerOnly: bool) returns (ok: bool)
      modifies conn
      ensures var items := Sends(snapshots, containerOnly, false, root, "");
              && ok == (old(conn.budget) >= |items|)
              && conn.queue == old(conn.queue) + Carried(items, old(conn.budget))
              && (ok ==> conn.budget == old(conn.budget) - |items|)
    {
      ghost var items := Sends(snapshots, containerOnly, false, root, "");
      ghost var n := 0;
      if !containerOnly {
        for i := 0 to |snapshots|
          invariant n == i && old(conn.budget) >= n && conn.budget == old(conn.budget) - n
          invariant conn.queue == old(conn.queue) + items[..n]
        {
          ok := conn.Send(Item(Snap(snapshots[i].name), snapshots[i].content));
          if !ok {
            return;
          }
          assert items[..n + 1] == items[..n] + [items[n]];
          n := n + 1;
        }
      }
      ok := conn.Send(Item(Root, root));
      assert items[..n] + [Item(Root, root)] == items[..n + 1] == items;
    }

    method SendAfterCheckpoint(conn: Connection<Item>, root: string) returns (ok: bool)
      modifies conn
      ensures ok == (old(conn.budget) > 0)
      ensures conn.queue == if ok then old(conn.queue) + [Item(Root, root)] else old(conn.queue)
    {
      ok := conn.Send(Item(Root, root));
    }
  }

  /** The sink's container: its own tree, and its snapshots. */
  datatype Tree = Tree(root: string, snapshots: map<string, string>)

  /** A snapshot is received into its own path by dir, and into the container's path and copied by the others. */
  function Store(tree: Tree, isDir: bool, target: Target, content: string): Tree {
    match target
    case Root => tree.(root := content)
    case Snap(name) =>
      Tree(if isDir then tree.root else content, tree.snapshots[name := content])
  }

  function StoreAll(tree: Tree, isDir: bool, targets: seq<Target>, items: seq<Item>): Tree
    requires |targets| <= |items|
  {
    if targets == [] then tree
    else
      var last := |targets| - 1;
      Store(StoreAll(tree, isDir, targets[..last], items), isDir, targets[last], items[last].content)
  }

  /** A step of the sink's own that fails: at the i-th snapshot, or recording the map at the end. */
  datatype Local = None | CreateSnapshot(i: nat) | ShiftSnapshot(i: nat) | Finish

  /** Whether a sink of so many snapshots comes to that step. */
  predicate Takes(snapshots: nat, fault: Local) {
    match fault
    case None => false
    case Finish => true
    case CreateSnapshot(i) => i < snapshots
    case ShiftSnapshot(i) => i < snapshots
  }

  lemma TakesIff(snapshots: nat, fault: Local)
    ensures Takes(snapshots, fault) <==>
            || fault == Finish
            || exists i: nat :: i < snapshots && (fault == CreateSnapshot(i) || fault == ShiftSnapshot(i))
  {
    if (fault.CreateSnapshot? || fault.ShiftSnapshot?) && fault.i < snapshots {
      assert fault == CreateSnapshot(fault.i) || fault == ShiftSnapshot(fault.i);
    }
  }

  class Sink {
    var tree: Tree
    const isDir: bool

    constructor (tree: Tree, isDir: bool)
      ensures this.tree == tree && this.isDir == isDir
    {
      this.tree, this.isDir := tree, isDir;
    }

    /** One RsyncRecv: whatever is next on the wire goes to the sink's target; an empty wire is an error. */
    method Receive(conn: Connection<Item>, target: Target) returns (ok: bool)
      modifies this, conn`queue
      ensures ok <==> old(conn.queue) != []
      ensures ok ==>
                && tree == Store(old(tree), isDir, target, old(conn.queue)[0].content)
                && conn.queue == old(conn.queue)[1..]
      ensures !ok ==> tree == old(tree) && conn.queue == []
      ensures ok && target == Root ==> tree.root == old(conn.queue)[0].content && tree.snapshots == old(tree.snapshots)
      ensures ok && target.Snap? ==>
                && tree.snapshots == old(tree.snapshots)[target.name := old(conn.queue)[0].content]
                && tree.root == if isDir then old(tree.root) else old(conn.queue)[0].content
    {
      if conn.queue == [] {
        return false;
      }
      var content := conn.queue[0].content;
      conn.queue := conn.queue[1..];
      ok := true;
      match target {
        case Root =>
          tree := tree.(root := content);
        case Snap(name) =>
          if isDir {
            tree := tree.(snapshots := tree.snapshots[name := content]);
          } else {
            tree := tree.(root := content);
            tree := tree.(snapshots := tree.snapshots[name := tree.root]);
          }
      }
    }

    /** The n-th of all receives. */
    method ReceiveNext(conn: Connection<Item>, target: Target, ghost start: Tree, ghost targets: seq<Target>,
                       ghost queue: seq<Item>, ghost n: nat) returns (ok: bool)
      requires n < |targets| && targets[n] == target && n <= |queue|
      requires conn.queue == queue[n..] && tree == StoredTo(start, isDir, targets, queue, n)
      modifies this, conn`queue
      ensures ok <==> n < |queue|
      ensures ok ==> conn.queue == queue[n + 1..] && tree == StoredTo(start, isDir, targets, queue, n + 1)
    {
      StoreNext(start, isDir, targets, queue, n);
      ok := Receive(conn, target);
    }

    /** The receives for the snapshots, with the steps of the sink's own around each. */
    method ReceiveSnapshots(conn: Connection<Item>, header: seq<string>, fault: Local, ghost start: Tree,
                            ghost targets: seq<Target>, ghost queue: seq<Item>) returns (ok: bool)
      requires |header| <= |targets| && forall i :: 0 <= i < |header| ==> targets[i] == Snap(header[i])
      requires conn.queue == queue && tree == start
      modifies this, conn`queue
      ensures ok <==> |header| <= |queue| && (!fault.Finish? ==> !Takes(|header|, fault))
      ensures ok ==> conn.queue == queue[|header|..] && tree == StoredTo(start, isDir, targets, queue, |header|)
    {
      assert targets[..0] == [];
      for i := 0 to |header|
        invariant i <= |queue| && conn.queue == queue[i..] && tree == StoredTo(start, isDir, targets, queue, i)
        invariant !fault.Finish? ==> !Takes(i, fault)
      {
        if isDir && fault == CreateSnapshot(i) {
          return false;
        }
        ok := ReceiveNext(conn, Snap(header[i]), start, targets, queue, i);
        if !ok {
          return;
        }
        if fault == ShiftSnapshot(i) || (!isDir && fault == CreateSnapshot(i)) {
          return false;
        }
      }
      ok := true;
    }

    /**
     rsyncMigrationSink. It fails exactly when the wire runs dry before the last receive or a step of its own fails that
     it takes.
     */
    method MigrationSink(conn: Connection<Item>, header: seq<string>, containerOnly: bool, live: bool, fault: Local)
      returns (ok: bool)
      modifies this, conn`queue
      ensures ok <==> |old(conn.queue)| >= |Receives(header, containerOnly, live)|
                      && !Takes(if containerOnly then 0 else |header|, fault)
      ensures ok ==>
                var targets := Receives(header, containerOnly, live);
                && tree == StoreAll(old(tree), isDir, targets, old(conn.queue))
                && conn.queue == old(conn.queue)[|targets|..]
    {
      ghost var queue, start, targets := conn.queue, tree, Receives(header, containerOnly, live);
      var n := if containerOnly then 0 else |header|;
      ReceivesShape(header, containerOnly, live);
      ok := ReceiveSnapshots(conn, if containerOnly then [] else header, fault, start, targets, queue);
      if !ok {
        return;
      }
      ok := ReceiveNext(conn, Root, start, targets, queue, n);
      if !ok {
        return;
      }
      if live {
        ok := ReceiveNext(conn, Root, start, targets, queue, n + 1);
        if !ok {
          return;
        }
      }
      ok := !fault.Finish?;
    }
  }

  lemma ReceivesShape(header: seq<string>, containerOnly: bool, live: bool)
    ensures var targets, n := Receives(header, containerOnly, live), if containerOnly then 0 else |header|;
            && |targets| == n + (if live then 2 else 1) && targets[..|targets|] == targets
            && (forall i :: 0 <= i < n ==> targets[i] == Snap(header[i]))
            && targets[n] == Root && (live ==> targets[n + 1] == Root)
  {
  }

  /** The tree after the first n receives. */
  function StoredTo(tree: Tree, isDir: bool, targets: seq<Target>, items: seq<Item>, n: nat): Tree
    requires n <= |targets| && n <= |items|
  {
    StoreAll(tree, isDir, targets[..n], items)
  }

  lemma StoreNext(tree: Tree, isDir: bool, targets: seq<Target>, items: seq<Item>, n: nat)
    requires n < |targets| && n <= |items|
    ensures n < |items| ==>
              && items[n..] != [] && items[n..][0] == items[n] && items[n..][1..] == items[n + 1..]
              && StoreAll(tree, isDir, targets[..n + 1], items) ==
                 Store(StoreAll(tree, isDir, targets[..n], items), isDir, targets[n], items[n].content)
    ensures n == |items| ==> items[n..] == []
  {
    assert targets[..n + 1][..n] == targets[..n];
  }

  // ----- a whole transfer ------------------------------------------------------------------------------------------

  ghost predicate DistinctNames(snapshots: seq<Snapshot>) {
    forall i, j :: 0 <= i < j < |snapshots| ==> snapshots[i].name != snapshots[j].name
  }

  function Copied(into: map<string, string>, snapshots: seq<Snapshot>): map<string, string> {
    if snapshots == [] then into
    else
      var last := snapshots[|snapshots| - 1];
      Copied(into, snapshots[..|snapshots| - 1])[last.name := last.content]
  }

  lemma {:induction false} CopiedHas(into: map<string, string>, snapshots: seq<Snapshot>, i: nat)
    requires DistinctNames(snapshots) && i < |snapshots|
    ensures snapshots[i].name in Copied(into, snapshots) && Copied(into, snapshots)[snapshots[i].name] == snapshots[i].content
  {
    if i < |snapshots| - 1 {
      CopiedHas(into, snapshots[..|snapshots| - 1], i);
    }
  }

  lemma AllCopied(into: map<string, string>, snapshots: seq<Snapshot>)
    requires DistinctNames(snapshots)
    ensures var r := Copied(into, snapshots);
            && (forall i :: 0 <= i < |snapshots| ==> snapshots[i].name in r && r[snapshots[i].name] == snapshots[i].content)
            && forall name :: (forall i :: 0 <= i < |snapshots| ==> snapshots[i].name != name) ==>
                 (name in r <==> name in into) && (name in into ==> r[name] == into[name])
  {
    forall i | 0 <= i < |snapshots|
      ensures snapshots[i].name in Copied(into, snapshots)
      ensures Copied(into, snapshots)[snapshots[i].name] == snapshots[i].content
    {
      CopiedHas(into, snapshots, i);
    }
    forall name | forall i :: 0 <= i < |snapshots| ==> snapshots[i].name != name
      ensures name in Copied(into, snapshots) <==> name in into
      ensures name in into ==> Copied(into, snapshots)[name] == into[name]
    {
      CopiedNoOther(into, snapshots, name);
    }
  }

  lemma {:induction false} CopiedNoOther(into: map<string, string>, snapshots: seq<Snapshot>, name: string)
    requires forall i :: 0 <= i < |snapshots| ==> snapshots[i].name != name
    ensures name in Copied(into, snapshots) <==> name in into
    ensures name in into ==> Copied(into, snapshots)[name] == into[name]
  {
    if snapshots != [] {
      CopiedNoOther(into, snapshots[..|snapshots| - 1], name);
    }
  }

  /** The wire carries the snapshots in order, then the container, and for a live migration the container again. */
  lemma SendsInOrder(snapshots: seq<Snapshot>, containerOnly: bool, live: bool, root: string, checkpoint: string)
    ensures var items := Sends(snapshots, containerOnly, live, root, checkpoint);
            var n := if containerOnly then 0 else |snapshots|;
            && |items| == n + (if live then 2 else 1)
            && (forall i :: 0 <= i < n ==> items[i] == Item(Snap(snapshots[i].name), snapshots[i].content))
            && items[n] == Item(Root, root) && (live ==> items[n + 1] == Item(Root, checkpoint))
  {
  }

  /** Storing the first k snapshots' items, each at its own target. */
  lemma {:induction false} StoreSnapshots(tree: Tree, isDir: bool, snapshots: seq<Snapshot>, targets: seq<Target>,
                                          items: seq<Item>, k: nat)
    requires k <= |snapshots| <= |targets| <= |items|
    requires forall i :: 0 <= i < |snapshots| ==>
               targets[i] == Snap(snapshots[i].name) && items[i].content == snapshots[i].content
    ensures StoreAll(tree, isDir, targets[..k], items).snapshots == Copied(tree.snapshots, snapshots[..k])
  {
    if k > 0 {
      StoreSnapshots(tree, isDir, snapshots, targets, items, k - 1);
      assert targets[..k][..k - 1] == targets[..k - 1];
      assert snapshots[..k][..k - 1] == snapshots[..k - 1];
    }
  }

  /** A live source sends one item more, if the connection lasts until then. */
  lemma OneMoreCarried(items: seq<Item>, last: Item, budget: nat)
    ensures Carried(items + [last], budget) == if budget > |items| then items + [last] else Carried(items, budget)
  {
  }

  /** The source's whole side, over a connection that breaks after `budget` items. */
  method SendAll(snapshots: seq<Snapshot>, containerOnly: bool, live: bool, root: string, checkpoint: string, budget: nat)
    returns (conn: Connection<Item>, ok: bool)
    ensures fresh(conn)
    ensures var items := Sends(snapshots, containerOnly, live, root, checkpoint);
            && ok == (budget >= |items|)
            && conn.queue == Carried(items, budget)
  {
    conn := new Connection<Item>(budget);
    var source := new SourceDriver(snapshots);
    ghost var first := Sends(snapshots, containerOnly, false, root, "");
    OneMoreCarried(first, Item(Root, checkpoint), budget);
    assert Sends(snapshots, containerOnly, live, root, checkpoint)
        == if live then first + [Item(Root, checkpoint)] else first;
    ok := source.SendWhileRunning(conn, root, containerOnly);
    if ok && live {
      ok := source.SendAfterCheckpoint(conn, checkpoint);
    }
  }

  /**
   When both ends agree, a transfer by either kind of sink succeeds exactly when the connection lasts and no step of the
   sink's own fails. It then copies the container as it was last sent, and every snapshot that was asked for, and
   leaves nothing on the wire.
   */
  method Transfer(snapshots: seq<Snapshot>, listed: seq<string>, sourceOnly: bool, sinkOnly: bool, live: bool, root: string,
                  checkpoint: string, before: Tree, isDir: bool, budget: nat, fault: Local)
    returns (sent: bool, received: bool, tree: Tree, left: seq<Item>)
    requires EndsAgree(snapshots, listed, sourceOnly, sinkOnly, live, live)
    ensures sent <==> budget >= |Sends(snapshots, sourceOnly, live, root, checkpoint)|
    ensures received <==> sent && !Takes(if sourceOnly then 0 else |snapshots|, fault)
    ensures received ==>
              && left == []
              && tree.root == (if live then checkpoint else root)
              && tree.snapshots == Copied(before.snapshots, if sourceOnly then [] else snapshots)
    ensures received && sourceOnly ==> tree.snapshots == before.snapshots
    ensures received && !sourceOnly && DistinctNames(snapshots) ==>
              && (forall i :: 0 <= i < |snapshots| ==>
                    snapshots[i].name in tree.snapshots && tree.snapshots[snapshots[i].name] == snapshots[i].content)
              && forall name :: (forall i :: 0 <= i < |snapshots| ==> snapshots[i].name != name) ==>
                   (name in tree.snapshots <==> name in before.snapshots) &&
                   (name in before.snapshots ==> tree.snapshots[name] == before.snapshots[name])
  {
    if DistinctNames(snapshots) {
      AllCopied(before.snapshots, snapshots);
    }
    var conn;
    conn, sent := SendAll(snapshots, sourceOnly, live, root, checkpoint, budget);
    AgreedTransfer(snapshots, listed, sourceOnly, sinkOnly, live, root, checkpoint, before, isDir, budget);
    var sink := new Sink(before, isDir);
    received := sink.MigrationSink(conn, if sourceOnly then [] else listed, sinkOnly, live, fault);
    tree, left := sink.tree, conn.queue;
  }

  /** What agreeing ends send, carry, wait for and store. */
  lemma AgreedTransfer(snapshots: seq<Snapshot>, listed: seq<string>, sourceOnly: bool, sinkOnly: bool, live: bool,
                       root: string, checkpoint: string, before: Tree, isDir: bool, budget: nat)
    requires EndsAgree(snapshots, listed, sourceOnly, sinkOnly, live, live)
    ensures var header := if sourceOnly then [] else listed;
            var items := Sends(snapshots, sourceOnly, live, root, checkpoint);
            var targets, queue := Receives(header, sinkOnly, live), Carried(items, budget);
            && |targets| == |items| && (|queue| >= |targets| <==> budget >= |items|)
            && (if sinkOnly then 0 else |header|) == (if sourceOnly then 0 else |snapshots|)
            && (budget >= |items| ==>
                  && queue[|targets|..] == []
                  && var tree := StoreAll(before, isDir, targets, queue);
                     && tree.root == (if live then checkpoint else root)
                     && tree.snapshots == Copied(before.snapshots, if sourceOnly then [] else snapshots))
  {
    var items := Sends(snapshots, sourceOnly, live, root, checkpoint);
    MatchedIff(snapshots, listed, sourceOnly, sinkOnly, live, live, root, checkpoint);
    StoredAll(before, isDir, if sourceOnly then [] else snapshots, live, root, checkpoint, items);
  }

  lemma StoredAll(before: Tree, isDir: bool, snapshots: seq<Snapshot>, live: bool, root: string, checkpoint: string,
                  items: seq<Item>)
    requires items == Sends(snapshots, false, live, root, checkpoint)
    ensures var tree := StoreAll(before, isDir, TargetsOf(items), items);
            && tree.root == (if live then checkpoint else root)
            && tree.snapshots == Copied(before.snapshots, snapshots)
  {
    var targets, n := TargetsOf(items), |snapshots|;
    StoreSnapshots(before, isDir, snapshots, targets, items, n);
    assert snapshots[..n] == snapshots;
    StoreNext(before, isDir, targets, items, n);
    assert targets[n] == Root;
    if live {
      StoreNext(before, isDir, targets, items, n + 1);
    }
    assert targets[..|targets|] == targets;
  }
}
