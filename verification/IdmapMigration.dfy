/** The id map in a migration: what the header carries of it, and what the sink's first start makes of the files. */
module IdmapMigration {
  import opened Prelude
  import opened IdMaps
  import opened FileOwners
  import opened ContainerStart

  function Narrow(e: Entry): Entry {
    e.(hostid := Int32(e.hostid), nsid := Int32(e.nsid), maprange := Int32(e.maprange))
  }

  /** The map as the sink reads it from the migration header, whose fields are 32 bits wide. */
  method Header(m: Idmap) returns (r: Idmap)
    ensures |r| == |m| && forall i :: 0 <= i < |m| ==> r[i] == Narrow(m[i])
    ensures r == m <==> FitsHeader(m)
    ensures forall i :: 0 <= i < |m| ==>
              && r[i].isuid == m[i].isuid && r[i].isgid == m[i].isgid
              && r[i].hostid == Int32(m[i].hostid) && r[i].nsid == Int32(m[i].nsid) && r[i].maprange == Int32(m[i].maprange)
  {
    r := [];
    for i := 0 to |m|
      invariant |r| == i && forall k :: 0 <= k < i ==> r[k] == Narrow(m[k])
    {
      r := r + [Narrow(m[i])];
    }
    HeaderFaithfulIff(m, r);
  }

  predicate FitsHeader(m: Idmap) {
    forall i :: 0 <= i < |m| ==>
      && -0x8000_0000 <= m[i].hostid < 0x8000_0000
      && -0x8000_0000 <= m[i].nsid < 0x8000_0000
      && -0x8000_0000 <= m[i].maprange < 0x8000_0000
  }

  lemma HeaderFaithfulIff(m: Idmap, r: Idmap)
    requires |r| == |m| && forall i :: 0 <= i < |m| ==> r[i] == Narrow(m[i])
    ensures r == m <==> FitsHeader(m)
  {
    if r == m {
      forall i | 0 <= i < |m|
        ensures m[i] == Narrow(m[i])
      {
      }
    }
  }

  /**
   What the next start takes the received files to be owned by is the source's map exactly when the two maps differ or
   the record already agrees with the wanted map.
   */
  lemma ReceivedMapIsSourceIff(last: Option<Idmap>, source: Idmap, wanted: Idmap)
    ensures LastMap(AfterReceive(last, source, wanted), wanted) == source
            <==> source != wanted || LastMap(last, wanted) == wanted
  {
  }

  /** Files received under the map in the header end up under the destination's with the first start. */
  lemma MigratedFilesStart(logical: Disk, source: Idmap, wanted: Idmap, last: Option<Idmap>, order: seq<string>,
                           fault: Fault)
    requires WellFormed(source) && ValidDisk(logical) && TracedDisk(source, logical)
    requires source != wanted || LastMap(last, wanted) == wanted
    requires Walkable(Shifted(logical, source, In), source, wanted, order)
    requires AfterStart(Stored(Shifted(logical, source, In), AfterReceive(last, source, wanted)), wanted, order, fault).1
    ensures AfterStart(Stored(Shifted(logical, source, In), AfterReceive(last, source, wanted)), wanted, order, fault).0
         == Stored(Shifted(logical, wanted, In), Some(wanted))
  {
    var s := Stored(Shifted(logical, source, In), AfterReceive(last, source, wanted));
    if source != wanted {
      StartKeepsFiles(s, logical, wanted, order, fault);
    } else {
      assert LastMap(s.last, wanted) == wanted;
    }
  }

  /**
   The source sends the map its next start wants, while its files stand under the recorded one. Unshifting them by the
   map in the header recovers the container's files exactly when the header's map returns each owner from where the
   recorded map put it.
   */
  lemma HeaderRecoversIff(s: Stored, logical: Disk, header: Idmap)
    requires OnDisk(s, logical) && WellFormed(header)
    ensures Shifted(s.disk, header, Out) == logical
            <==> forall p :: p in logical ==> Returns(header, logical[p], NewOwner(s.last.value, In, logical[p]))
  {
    var back := Shifted(s.disk, header, Out);
    forall p | p in logical
      ensures back[p] == logical[p] <==> Returns(header, logical[p], NewOwner(s.last.value, In, logical[p]))
    {
      ConvertedIsAnId(s.last.value, Uid, In, logical[p].uid);
      ConvertedIsAnId(s.last.value, Gid, In, logical[p].gid);
      OwnerGives(header, logical[p], NewOwner(s.last.value, In, logical[p]));
    }
  }

  /**
   From the source's state to the sink's first start: with a header's map that differs from the destination's, the files
   end up under the destination's map just as they are recovered by the header's, which they are when it is the one
   recorded at the source.
   */
  lemma FirstStartAfterMigration(s: Stored, logical: Disk, header: Idmap, wanted: Idmap, last: Option<Idmap>,
                                 order: seq<string>, fault: Fault)
    requires OnDisk(s, logical) && WellFormed(header) && header != wanted && Walkable(s.disk, header, wanted, order)
    requires AfterStart(Stored(s.disk, AfterReceive(last, header, wanted)), wanted, order, fault).1
    ensures AfterStart(Stored(s.disk, AfterReceive(last, header, wanted)), wanted, order, fault).0
         == Stored(Shifted(Shifted(s.disk, header, Out), wanted, In), Some(wanted))
    ensures header == s.last.value ==> Shifted(s.disk, header, Out) == logical
  {
    var received := Stored(s.disk, AfterReceive(last, header, wanted));
    RemapInFull(s.disk, header, wanted, order, fault);
    UnshiftUndoesShiftIff(s.last.value, logical);
  }

  /** A map changed since the last start goes into the header: the sink's first start does not undo the old shift. */
  lemma StaleMapMisplaces()
    ensures var recorded := [Entry(true, true, 100000, 0, 65536)];
            var header := [Entry(true, true, 200000, 0, 65536)];
            var logical: Disk := map["f" := Owner(0, 0)];
            var s := Stored(Shifted(logical, recorded, In), Some(recorded));
            && OnDisk(s, logical) && WellFormed(header)
            && Shifted(s.disk, header, Out) != logical
  {
    var recorded := [Entry(true, true, 100000, 0, 65536)];
    var header := [Entry(true, true, 200000, 0, 65536)];
    var logical: Disk := map["f" := Owner(0, 0)];
    var s := Stored(Shifted(logical, recorded, In), Some(recorded));
    assert recorded[0].hostid == 100000 && header[0].hostid == 200000;
    assert Convert(recorded, Uid, In, 0) == 100000 && Convert(recorded, Gid, In, 0) == 100000;
    assert Convert(header, Uid, Out, 100000) == -1;
    assert s.disk["f"].uid == 100000;
    assert Shifted(s.disk, header, Out)["f"].uid == 100000;
  }

  /** A leftover record next to equal maps: the first start moves files that were right. */
  lemma LeftoverRecordMisplaces()
    ensures var wanted := [Entry(true, true, 100000, 0, 65536)];
            var leftover := [Entry(true, true, 100000, 1000, 65536)];
            var logical: Disk := map["f" := Owner(0, 0)];
            var s := Stored(Shifted(logical, wanted, In), AfterReceive(Some(leftover), wanted, wanted));
            && TracedDisk(wanted, logical)
            && AfterStart(s, wanted, ["f"], Nothing).1
            && AfterStart(s, wanted, ["f"], Nothing).0.disk != Shifted(logical, wanted, In)
  {
    var wanted := [Entry(true, true, 100000, 0, 65536)];
    var leftover := [Entry(true, true, 100000, 1000, 65536)];
    var logical: Disk := map["f" := Owner(0, 0)];
    var disk := Shifted(logical, wanted, In);
    assert wanted[0] == Entry(true, true, 100000, 0, 65536) && leftover[0].nsid == 1000;
    assert Convert(wanted, Uid, In, 0) == 100000;
    assert Convert(leftover, Uid, Out, 100000) == 1000;
    assert Convert(wanted, Uid, In, 1000) == 101000;
    assert disk["f"].uid == 100000;
    assert Shifted(disk, leftover, Out)["f"].uid == 1000;
    assert Shifted(Shifted(disk, leftover, Out), wanted, In)["f"].uid == 101000;
    assert wanted != leftover by { assert wanted[0].nsid == 0; }
    assert Walkable(disk, leftover, wanted, ["f"]);
    RemapInFull(disk, leftover, wanted, ["f"], Nothing);
  }
}
