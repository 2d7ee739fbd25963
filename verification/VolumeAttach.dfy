/** Attaching a storage volume: whom it is shared with, and the change of map it may need. */
module VolumeAttach {
  import opened Prelude
  import opened IdMaps
  import opened FileOwners
  import opened ContainerStart

  /** A container that uses the volume: it may fail to load, or have no map that can be determined. */
  datatype User = Unloadable(name: string) | Loaded(name: string, idmap: Option<Idmap>)

  predicate UsersAllow(users: seq<User>, self: string, next: Idmap) {
    if |users| > 1 then forall i :: 0 <= i < |users| && users[i].Loaded? ==> users[i].idmap == Some(next)
    else |users| == 1 ==> users[0].name == self
  }

  /** Stored state after an attach that wants the map `next`, and whether it succeeded. */
  function AfterAttach(s: Stored, users: seq<User>, self: string, next: Option<Idmap>, order: seq<string>, fault: Fault):
    (Stored, bool)
  {
    if next.None? then (s, false)
    else
      var last := if s.last.Some? then s.last.value else [];
      if next.value == last then if fault.Record? then (s, false) else (s.(last := next), true)
      else if !UsersAllow(users, self, next.value) || fault.Mount? then (s, false)
      else
        var c := Remap(s.disk, last, next.value, order, fault);
        if !c.ok || fault.Record? then (s.(disk := c.disk), false) else (Stored(c.disk, next), true)
  }

  class Volume {
    const tree: Rootfs
    var last: Option<Idmap>

    constructor (disk: Disk, last: Option<Idmap>)
      ensures fresh(tree) && tree.disk == disk && this.last == last
    {
      tree := new Rootfs(disk);
      this.last := last;
    }

    method CheckUsers(users: seq<User>, self: string, next: Idmap) returns (ok: bool)
      ensures ok <==> UsersAllow(users, self, next)
    {
      if |users| > 1 {
        for i := 0 to |users|
          invariant forall k :: 0 <= k < i && users[k].Loaded? ==> users[k].idmap == Some(next)
        {
          if users[i].Unloadable? {
            continue;
          }
          if users[i].idmap.None? || users[i].idmap.value != next {
            return false;
          }
        }
      } else if |users| == 1 {
        if users[0].name != self {
          return false;
        }
      }
      return true;
    }

    method Attach(users: seq<User>, self: string, next: Option<Idmap>, order: seq<string>, fault: Fault)
      returns (ok: bool)
      requires forall p :: p in order ==> p in tree.disk
      modifies this`last, tree
      ensures (Stored(tree.disk, last), ok)
           == AfterAttach(Stored(old(tree.disk), old(last)), users, self, next, order, fault)
    {
      if next.None? {
        return false;
      }
      var lastIdmap := if last.Some? then last.value else [];
      if next.value != lastIdmap {
        ok := CheckUsers(users, self, next.value);
        if !ok || fault.Mount? {
          return false;
        }
        ok := tree.Replace(order, lastIdmap, next.value, fault);
        if !ok {
          return false;
        }
      }
      if fault.Record? {
        return false;
      }
      last := next;
      return true;
    }
  }

  /** A successful attach leaves the same files under the next map; nothing recorded stands for the empty map. */
  lemma AttachKeepsFiles(s: Stored, logical: Disk, users: seq<User>, self: string, next: Option<Idmap>,
                         order: seq<string>, fault: Fault)
    requires OnDisk(s.(last := Some(if s.last.Some? then s.last.value else [])), logical)
    requires AfterAttach(s, users, self, next, order, fault).1
    requires Walkable(s.disk, if s.last.Some? then s.last.value else [], next.value, order)
    ensures AfterAttach(s, users, self, next, order, fault).0 == Stored(Shifted(logical, next.value, In), next)
  {
    var last := if s.last.Some? then s.last.value else [];
    UnshiftUndoesShiftIff(last, logical);
    if next.value != last {
      RemapMovesOnce(s.disk, last, next.value, order, fault);
      assert Remap(s.disk, last, next.value, order, fault).ok;
      EmptyMapMovesNothing(s.disk, Out);
      EmptyMapMovesNothing(logical, In);
    }
  }

  /**
   An attach that moves the volume's files pulls them from under no other container: whoever else uses the volume and
   can be loaded wants the very map they end up with. A container that wants another map makes the attach fail with
   nothing changed.
   */
  lemma AttachStrandsNobody(s: Stored, users: seq<User>, self: string, next: Option<Idmap>, order: seq<string>,
                            fault: Fault, k: nat)
    requires k < |users| && users[k].Loaded? && users[k].name != self
    ensures var (after, ok) := AfterAttach(s, users, self, next, order, fault);
            && (after.disk != s.disk ==> next.Some? && users[k].idmap == next)
            && (users[k].idmap != next && next.Some? && next.value != (if s.last.Some? then s.last.value else [])
                ==> !ok && after == s)
  {
  }

  /**
   Exactly these make an attach fail: a map that cannot be determined, users that object when the map changes, and the
   faults it takes. One user alone objects if it is another container, several if one that loads wants another map.
   */
  lemma AttachSucceedsIff(s: Stored, users: seq<User>, self: string, next: Option<Idmap>, order: seq<string>, fault: Fault)
    ensures var last := if s.last.Some? then s.last.value else [];
            AfterAttach(s, users, self, next, order, fault).1
            <==> && next.Some? && !fault.Record?
                 && (next.value != last ==>
                       && !fault.Mount? && (fault.Unshift? ==> last == []) && (fault.Shift? ==> next.value == [])
                       && (|users| == 1 ==> users[0].name == self)
                       && (|users| > 1 ==> forall i :: 0 <= i < |users| && users[i].Loaded? ==> users[i].idmap == next))
    ensures AfterAttach(s, users, self, next, order, fault).1 ==> AfterAttach(s, users, self, next, order, fault).0.last == next
    ensures next == Some(if s.last.Some? then s.last.value else []) ==>
              AfterAttach(s, users, self, next, order, fault).0.disk == s.disk
  {
  }

  /** An attach that fails records nothing, and leaves the files alone unless it got to them. */
  lemma FailedAttachRecordsNothing(s: Stored, users: seq<User>, self: string, next: Option<Idmap>, order: seq<string>,
                                   fault: Fault)
    requires !AfterAttach(s, users, self, next, order, fault).1
    ensures AfterAttach(s, users, self, next, order, fault).0.last == s.last
    ensures next.None? || fault.Mount? || !UsersAllow(users, self, next.value) ==>
              AfterAttach(s, users, self, next, order, fault).0 == s
  {
  }
}
