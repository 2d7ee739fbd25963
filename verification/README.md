# A verified model of the container daemon's allocators, schedulers and protocols

This project models the parts of the daemon in which state is shared, searched or handed over, and proves what they
keep. Each file is one module.

| file | what it models |
|---|---|
| `IdmapAllocator.dfy` | the sweep that gives isolated containers their uid/gid ranges, and histories of allocations and deletions |
| `IdmapRaces.dfy` | the same allocations in their steps: row, search, base, and what searches in between find |
| `IdMaps.dfy` | id maps, their conflict test, and raw entries laid over them |
| `FileOwners.dfy` | ownership of files on disk, the walk that converts it, and a change of map |
| `ContainerStart.dfy`, `VolumeAttach.dfy` | remapping at a container start and at a volume attach, and histories of a container |
| `IdmapMigration.dfy` | the map a migration hands over, and the sink's first start |
| `CpuBalancer.dfy`, `CpuPinning.dfy`, `Cpuset.dfy` | the CPU load balancer, the cpusets it writes, and the cpuset parser |
| `Migration.dfy` | the live migration protocol: source, sink, CRIU with its action script, and the lossy control channel |
| `RbdTransfer.dfy`, `RsyncTransfer.dfy`, `Wire.dfy` | the two transfer drivers, each with both ends, and the choice between drivers |
| `SnapshotCodec.dfy` | snapshots as messages, with the pointers a range loop leaves shared |
| `ContainerOperations.dfy` | the operation slot each container has, with its timers |
| `ApiOperations.dfy`, `ApiStatus.dfy` | API operations: run, cancel, completion and updates, and their status over whole runs |
| `ProfileRoot.dfy` | profile expansion, and the check that protects root disks on a profile update |
| `InterfaceNames.dfy` | the search for a free ethN name |
| `NetworkAddresses.dfy` | FAN overlay addresses and n-th addresses of a subnet |
| `Text.dfy`, `Prelude.dfy` | decimal printing and parsing, splitting and joining; small shared vocabulary |

Code that updates fields, maps or buffers is modelled by classes and methods with loops; each such method is proved
against a function of the old state, and the properties are lemmas about that function. Code that interleaves (the
migration, both kinds of operations) is a set of steps over one state, cut where the code takes or leaves a lock or a
message, and the properties hold in every run. Orders the program does not fix (map iteration, unstable sorting, file
walks) are arbitrary in the model. Failures of I/O are a parameter of the step they belong to.

Some properties one would like are false of the code. Those are kept as they are, with a concrete run and the exact
condition under which the property holds:

- An isolated range of size 0 passes configuration checks, and can later lead to two containers sharing ids
  (`SafeIff`, `RequestIsSafeIff`), although `doc/userns-idmap.md` promises unique ranges.
- The row of a new isolated container is there before its base, and other searches read an unset base as 0. A search
  made meanwhile leaves the pool, for ids below it, exactly when there is room (`SearchLeavesPoolIff`,
  `SecondSearchBelowFloorIff`); two creations that both do are given common ids (`CreationsCollide`). The same search is
  made, with no race, when a profile isolates several containers. Without such searches the ranges stay apart and in
  the pool (`OrderlyRunKeepsPacked`). Two updates that isolate existing containers do not see each other and share ids
  exactly when the larger request fits somewhere on what the smaller one got (`UpdatesCollideIff`).
- A change of `security.idmap.size` in a profile changes recorded ranges in place, before any search; the ranges stay apart exactly
  when the new one runs into nothing (`ResizeKeepsPackedIff`).
- The conflict test for id map entries misses an overlap on a single id (`OverlapMissedIff`). A raw line for a single
  id of a container therefore gives a map without conflicts exactly when it is not for the container's last id
  (`RawLineIsWellFormedIff`; for any map and entry, `AddSafeKeepsWellFormedIff`). Only the command-line tool uses
  `Append`, the daemon lays raw entries over a map with `AddSafe`.
- A start that breaks off while it moves files records nothing, and the retry unshifts again what was already moved
  (`RetryRecoversIff`). A walk converts a file with two links twice (`LinkedFileIff`, `StartWithLinksIff`); under plain
  maps that makes no difference (`PlainMapsAreWalkable`).
- A migration header carries ids in 32 signed bits (`Header`), and it carries the map the source's next start wants,
  while the files stand under the recorded one. When a map was changed since the last start, the sink's first start
  does not undo the old shift (`StaleMapMisplaces`; exactly when it does, `HeaderRecoversIff`). A leftover record at the
  sink can make its first start move files that were right (`ReceivedMapIsSourceIff`, `LeftoverRecordMisplaces`).
- On a host whose only usable CPU is CPU 0, a container without a limit is read as limited to 0 CPUs (`DefaultLimit`).
  Like any container without a CPU it is left out of the new pinning and keeps the cpuset it had
  (`CpuPinning.Balance`).
- A sink can run the container while the source has it frozen for good (`RestoredButNotKilled`, `AbortLeavesFrozen`).
  Once the source has returned, its container is gone exactly when it reports success and neither CRIU nor its script
  failed by itself (`KilledIffSuccess`).
- The RBD diff sent after a checkpoint is never received (`RbdTransfer.Transfer`, `LateDiffRepairsIff`).
- A snapshot with several devices arrives with one (`RoundTripIff`), and snapshots known by name only all get the
  last name (`LegacyNamesIff`).
- Two creations can race for a container's slot and leave one operation open for ever (`OrphanedIff`).
- `done` checks before it locks, so that an image download that is cancelled and fails can close the channel twice
  (`SplitDoneClosesTwice`, `BrokenIff`), and an update past its checks can write to a finished operation (`FrozenIff`).
  A final status can be overwritten by threads still under way, and by nothing else (`FinalForGoodIff`). No caller in
  the daemon runs an operation twice; with one Run the status of an operation that cannot be cancelled only moves
  forwards (`StatusMovesOnOneRun`), while two racing Runs could undo a success (`RacingRunsUndoSuccess`).
- A profile update that passes the root disk check can leave a container with two root disks
  (`PassedUpdateMayAddSecondRoot`), and every update of a profile without a root disk passes (`NoRootAlwaysPasses`).
  `OneRootAfterUpdateIff` says exactly when one is left, whatever the check says.
- The name recorded for a network device whose own name has a dot is not seen (`NameKeyIff`, `DottedDeviceIsMissed`).
- An address computed in an IPv6 subnet is 16 bytes long exactly when its first byte is not zero and it does not
  overflow (`Nth6Bytes`).

## Model

| member | source | states |
|---|---|---|
| `IdmapAllocator.SharesIsCommonId` | apollo/container_mercury.go:629-752 | the arithmetic overlap test on two ranges means that some uid/gid lies in both |
| `IdmapAllocator.SweepIsClear` | apollo/container_mercury.go:724-752 | an offset found is inside the pool and its range shares no id with any swept range |
| `IdmapAllocator.SweepIsFirstFit` | apollo/container_mercury.go:724-752 | the sweep returns the least place with a spare id (or exactly before the first range) and fails only when there is none |
| `IdmapAllocator.Idmaps.SortByHostid` | apollo/container_mercury.go:724 | sorting in place by first id, keeping each range with its container; the order of equal bases is open |
| `IdmapAllocator.Idmaps.SweepGaps` | apollo/container_mercury.go:726-752 | the loop over sorted ranges with its three branches, for any integers |
| `IdmapAllocator.Idmaps.OtherRanges` | apollo/container_mercury.go:687-722 | exactly the ranges of the other containers listed as isolated are swept, one without a base at 0; a container that cannot be read is an error |
| `IdmapAllocator.Idmaps.Find` | apollo/container_mercury.go:678-752 | on packed records the answer is above the daemon's first 65536 ids, inside its ids and apart from every other container's range, and it is found, at or below o, whenever some o leaves its range and one spare id clear; a container that cannot be read is an error |
| `IdmapAllocator.SweepOfRecords` | apollo/container_mercury.go:678-752 | the same for any outcome of the sort |
| `IdmapAllocator.Idmaps.Assign` | apollo/container_mercury.go:329-374 | search and record as one step, an instance of the history's allocation event; failure changes nothing; the steps in between are the subject of `IdmapRaces` |
| `IdmapAllocator.Idmaps.Release` | apollo/container_mercury.go:684-722 | a deleted container's range is no longer among those swept |
| `IdmapAllocator.StepKeepsTame` | apollo/container_mercury.go:678-752 | one allocation or deletion keeps all ranges disjoint, in the pool, and harmless |
| `IdmapAllocator.RunKeepsPacked` | apollo/container_mercury.go:678-752 | over every history of allocations (size at least 1), deletions and changes of size that run into nothing the recorded ranges stay pairwise disjoint and inside the pool |
| `IdmapAllocator.RecordedIdsStayApart` | apollo/container_mercury.go:678-752 | the same in plain numbers: no recorded range holds one of the daemon's first 65536 ids or reaches outside its ids, and no two meet |
| `IdmapAllocator.ResizeKeepsPackedIff` | apollo/profiles_utils.go:108-126 | a change of size in place keeps packed records packed if and only if the new range is not empty, ends in the pool and shares no id |
| `IdmapAllocator.Idmaps.Resize` | apollo/container_mercury.go:716-719 | the size of a recorded range is whatever the configuration says at the next search |
| `IdmapAllocator.SafeIff` | apollo/container_mercury.go:724-752 | from laid-out records no history ever records an id twice if and only if each empty range sits on the pool's last id or at its end |
| `IdmapAllocator.EmptyRangeBreaks` | apollo/container_mercury.go:724-752 | otherwise a history of deletions and requests that records an id twice, constructed |
| `IdmapAllocator.RequestIsSafeIff` | apollo/container_mercury.go:512-539 | a request leaves packed records safe if and only if its size is not 0 or no place for 0 ids is left below the pool's last id |
| `IdmapRaces.SweepBelowFloorIff` | apollo/container_mercury.go:707-752 | over ranges without a base and packed ones, the sweep leaves the pool if and only if there is room below, and never returns an id of a packed range |
| `IdmapRaces.SecondSearchBelowFloorIff` | apollo/container.go:782 | the search of a second creation, while the first one's row has no base, in terms of the two sizes and the lowest recorded range |
| `IdmapRaces.StepKeepsSane` | apollo/container_mercury.go:329-374 | rows, searches, bases and deletions as steps keep recorded and found ranges apart and in the pool, if no search begins while another container waits for its base |
| `IdmapRaces.StepsAre` | apollo/container_mercury.go:329-374 | a new row has no base, what a search finds is recorded as it is, and a creation that finds nothing leaves no row |
| `IdmapRaces.OrderlyRunKeepsPacked` | apollo/container_mercury.go:329-374 | the same over every history |
| `IdmapRaces.SearchLeavesPoolIff` | apollo/container_mercury.go:707-752 | a search while others wait leaves the pool if and only if there is room below; it then gets the size of the last waiting range as its base, and no recorded id in any case |
| `IdmapRaces.CreationsCollide` | apollo/container_mercury.go:329-374 | two creations that wait for their base together and both leave the pool share an id |
| `IdmapRaces.UpdatesCollideIff` | apollo/container_mercury.go:3358-3391 | two updates that isolate existing containers and both search first share an id if and only if the larger request fits somewhere on the smaller one's range |
| `IdmapRaces.EqualUpdatesCollide` | apollo/container_mercury.go:3358-3391 | two such updates of one size find the same ids |
| `IdmapRaces.NewRangesShareIff` | apollo/container_mercury.go:3358-3391 | neither range found shares an id with the records, so that only the two can share |
| `IdMaps.ShiftIds` | shared/idmapset_linux.go:421-455 | the one-pass loop over uid and gid yields for each the first entry that applies, -1 if none |
| `IdMaps.OutGives` | shared/idmapset_linux.go:197-222 | moving a host id out gives x exactly when the map moves x there, or it is x itself and outside every host range |
| `IdMaps.OutUndoesInIff` | shared/idmapset_linux.go:421-463 | unshift undoes shift on an id exactly when the map covers it or no host range contains the same number |
| `IdMaps.UidEntryMoves` | shared/idmapset_linux.go:421-455 | a uid entry moves the uids of its range by plain addition, into the container and out of it |
| `IdMaps.GidEntryMoves` | shared/idmapset_linux.go:421-455 | likewise a gid entry the gids |
| `IdMaps.UnmappedStays` | shared/idmapset_linux.go:421-455 | an id that no entry of its kind holds is not moved |
| `IdMaps.OverlapMissedIff` | shared/idmapset_linux.go:75-97 | the four comparisons miss an overlap exactly when one range is a single id, the other's last |
| `IdMaps.Append` | shared/idmapset_linux.go:408-419 | an entry is refused if and only if it intersects some entry, else appended (used by the command-line tool only) |
| `IdMaps.AppendKeepsWellFormedIff` | shared/idmapset_linux.go:408-419 | an accepted entry keeps the map free of ids mapped in two ways if and only if it misses the gap of the test |
| `IdMaps.AddSafe` | shared/idmapset_linux.go:345-393 | an entry is refused exactly when an entry it intersects passes the test for host ids; else every entry it intersects is broken apart around it, or it is appended |
| `IdMaps.RefusedWithoutCommonHostIff` | shared/idmapset_linux.go:58-73 | that test passes for non-empty ranges of one kind if and only if they share a host id or touch, and ranges that touch share none |
| `IdMaps.AddSafeKeepsWellFormedIff` | shared/idmapset_linux.go:345-393 | the result maps no id in two ways if and only if the test for intersection misses no clash with the new entry |
| `IdMaps.AddSafeGivesPrecedence` | shared/idmapset_linux.go:345-393 | the new entry decides its ids, all others keep what they had, and an id inside it loses the mapping of a kind it is not of when that came from a broken entry |
| `IdMaps.AddRaw` | apollo/container_mercury.go:639-668 | raw entries are laid over the map in turn and refused ones ignored |
| `IdMaps.RawLineIsWellFormedIff` | apollo/container_mercury.go:656-668 | a raw line for a single id of both kinds over a container's plain map gives a map without conflicts if and only if it is not for the last id |
| `IdMaps.RawUidLine` | apollo/container_mercury.go:656-668 | a raw line for one uid moves that uid, keeps the other uids and touches no gid |
| `IdMaps.RefusedLineIsIgnored` | apollo/container_mercury.go:639-668 | a refused line leaves what was laid before it |
| `IdMaps.RawMapSuits` | apollo/container_mercury.go:656-668 | that map keeps track of every id of the container, as the ownership results ask |
| `FileOwners.UnshiftUndoesShiftIff` | shared/idmapset_linux.go:466-515 | unshifting a whole tree restores it exactly when every owner in it is traceable |
| `FileOwners.OwnerMoves` | shared/idmapset_linux.go:476-500 | a file's uid goes by the uid entry that holds it and its gid by the gid entry, in plain numbers |
| `FileOwners.Rootfs.Walk` | shared/idmapset_linux.go:466-515 | a walk converts files in order, one with several links once for each, leaves ids without an entry alone, and on an error has converted exactly those before it |
| `FileOwners.VisitedAsListed` | shared/idmapset_linux.go:466-515 | each file ends up converted as often as the walk comes to it |
| `FileOwners.LinkedFileIff` | shared/idmapset_linux.go:466-515 | a file with two links ends up right if and only if converting it a second time changes nothing |
| `FileOwners.LinksMakeNoDifference` | shared/idmapset_linux.go:466-515 | with single links, or owners at rest after one conversion, each file is moved exactly once |
| `FileOwners.RemapMovesOnce` | apollo/container_mercury.go:1689-1708 | a whole change of map then moves each file once out and once in |
| `FileOwners.RemapAsListed` | apollo/container_mercury.go:1689-1708 | in general each file is moved out and in as often as it has links |
| `FileOwners.PlainMapsAreWalkable` | apollo/container_mercury.go:656-660 | under plain maps whose host ids lie above the container's own, links never make a difference |
| `FileOwners.Rootfs.Replace` | apollo/container_mercury.go:1689-1708 | unshift by the old map, then shift by the new one, skipping missing maps, stopping at the first error |
| `FileOwners.RemapInFull` | apollo/container_mercury.go:1689-1708 | skipping a missing map makes no difference to the files |
| `ContainerStart.Container.Start` | apollo/container_mercury.go:1665-1749 | the remap part of a start, for any tree with any links: owners, record and success as a function of old state and fault; the map recorded is none for a privileged container, else the container's own next map, else the daemon's; without a fault it fails only when there is none |
| `ContainerStart.StartSucceedsIff` | apollo/container_mercury.go:1681-1749 | which faults make a start fail: writing the record always, the others only when the map changes, a walk only by a map that is not empty |
| `ContainerStart.StartKeepsFiles` | apollo/container_mercury.go:1665-1749 | a start that succeeds leaves the container's own files, now under the next map, with that map recorded, when links make no difference |
| `ContainerStart.StartWithLinksIff` | apollo/container_mercury.go:1665-1749 | whatever the links, a start that changes the map leaves all files right if and only if each one is right after as many moves as it has links |
| `ContainerStart.FailedStartRecordsNothing` | apollo/container_mercury.go:1681-1749 | a failed start keeps the old record, and the files too unless it reached them |
| `ContainerStart.RemapStages` | apollo/container_mercury.go:1689-1708 | which files a broken-off remap leaves under the old map, under none, or under the new map |
| `ContainerStart.RetryRecoversIff` | apollo/container_mercury.go:1681-1749 | the retry's unshift recovers the files exactly when each touched file never needed moving or stands where the old map would put it |
| `ContainerStart.StepKeepsConsistent` | apollo/container_mercury.go:1665-1749 | each event keeps: on-disk owners are the container's files shifted by the recorded map |
| `ContainerStart.HistoryKeepsOwnership` | apollo/container_mercury.go:1665-1749 | the same over every history of configuring, starting, writing and removing |
| `ContainerStart.EventsAre` | apollo/container_mercury.go:1665-1749 | the map configured last is the one a start records; writes and removals change just the file they name |
| `VolumeAttach.Volume.CheckUsers` | apollo/storage.go:473-496 | the usage loop accepts exactly when all loadable users want the next map, or the sole user is the container itself |
| `VolumeAttach.Volume.Attach` | apollo/storage.go:423-556 | an attach: owners, record and success as a function of old state, users and fault |
| `VolumeAttach.AttachKeepsFiles` | apollo/storage.go:465-556 | a successful attach leaves the volume's files as they are, under the next map, with that map recorded |
| `VolumeAttach.AttachSucceedsIff` | apollo/storage.go:423-556 | exactly what makes an attach fail: no map, a sole user that is another container, several of which a loadable one wants another map, and faults on the way |
| `VolumeAttach.FailedAttachRecordsNothing` | apollo/storage.go:465-556 | an attach that fails keeps the old record, and the files unless it got to them |
| `VolumeAttach.AttachStrandsNobody` | apollo/storage.go:473-496 | files move only if every other loadable user wants the very map they end up with; one who does not makes the attach fail untouched |
| `IdmapMigration.Header` | apollo/migrate.go:380-393 | the map the sink reads is the source's exactly when every number fits 32 signed bits |
| `ContainerStart.Container.ShiftIfNecessary` | apollo/storage.go:749-778 | the source's map is recorded exactly when it differs from the wanted one (none if privileged, else the own next map, else the daemon's) and the record can be written |
| `IdmapMigration.ReceivedMapIsSourceIff` | apollo/storage.go:749-778 | the next start believes the files are under the source's map exactly when the maps differ or the record agrees |
| `IdmapMigration.MigratedFilesStart` | apollo/storage.go:749-778 | files that stand under the header's map end up, after the first start, under the destination's |
| `IdmapMigration.HeaderRecoversIff` | apollo/migrate.go:376-393 | unshifting the source's files by the header's map recovers them if and only if that map returns each owner from where the recorded one put it |
| `IdmapMigration.FirstStartAfterMigration` | apollo/storage.go:749-778 | from the source's state to the sink's first start: the files are unshifted by the header's map and shifted by the destination's, and recovered when the header's is the recorded one |
| `IdmapMigration.StaleMapMisplaces` | apollo/migrate.go:376-393 | a map changed since the last start: the header's map does not undo the shift |
| `IdmapMigration.LeftoverRecordMisplaces` | apollo/storage.go:749-778 | equal maps next to a leftover record: the first start moves a file that was right |
| `Cpuset.ParseCpuset` | apollo/devices.go:486-520 | the nested loops compute the parse of the whole list, and any bad chunk fails it |
| `Cpuset.AppendSpan` | apollo/devices.go:507-509 | a range appends low to high ascending, nothing when high is below low |
| `Cpuset.BadChunk` | apollo/devices.go:486-520 | a chunk that does not parse spoils every list it is in |
| `Cpuset.OnlyNumbersParse` | apollo/devices.go:489-517 | an empty chunk, or one with anything but digits, signs and a dash, does not parse |
| `Cpuset.ParsePrinted` | apollo/devices.go:486-520 | any printed list of ids and runs a-b parses to its ids in order, each run contributing a..b |
| `Cpuset.JoinThenParse` | apollo/devices.go:571-590 | parsing undoes the comma join exactly for the non-empty lists of ids between 0 and the 64-bit maximum |
| `Cpuset.ParsedInRange` | apollo/devices.go:486-520 | every id that comes out of the parser is between 0 and the 64-bit maximum |
| `Text.AtoiItoa` | apollo/devices.go:571-590 | decimal parsing undoes decimal printing exactly on 64-bit integers |
| `Text.AtoiReadsNumbers` | apollo/devices.go:497-512 | only a sign and digits parse, and a plus sign makes no difference |
| `Text.SplitJoin` | apollo/devices.go:488 | splitting at commas undoes joining with them |
| `CpuBalancer.UsableCpus` | apollo/devices.go:546-590 | the printed and reparsed list is the effective CPUs without the isolated ones, in order; none left is an error |
| `CpuBalancer.SortByUsage` | apollo/devices.go:38-47 | sorting by count keeps the CPUs, each once, ascending in count |
| `CpuBalancer.Classify` | apollo/devices.go:592-640 | numbers are set aside clamped to the CPU count; lists are queued CPU by CPU as often as they ask, unusable CPUs dropped |
| `CpuBalancer.QueuePinned` | apollo/devices.go:627-638 | one pinned list adds the container to each usable CPU's queue once per occurrence and leaves other containers' entries alone |
| `CpuBalancer.PlacePinned` | apollo/devices.go:642-672 | in any CPU order every queued container gets each CPU as often as queued, and counts equal holdings; the lookup in the usage map never fails |
| `CpuBalancer.TakeLeastUsed` | apollo/devices.go:680-695 | one container takes the first n CPUs of the sorted list, all when n is negative |
| `CpuBalancer.BumpKeepsGap` | apollo/devices.go:679-696 | serving the least used CPUs never widens a gap of at least 1 |
| `CpuBalancer.BalanceCounts` | apollo/devices.go:674-696 | in any container order the balanced loop settles every request and keeps any gap of at least 1 |
| `CpuBalancer.PinnedAreServed` | apollo/devices.go:652-672 | after the pinned loop each pinned container holds what its list grants and the gap is that of the pinned loads |
| `CpuBalancer.Rebalance` | apollo/devices.go:522-696 | a container whose setting is the number n gets n distinct usable CPUs, all when there are fewer or n is negative; one whose setting is a list gets the usable CPUs listed; counts equal holdings; the gap is at most max(pinned gap, 1); with numbers only, every CPU ends at the floor or ceiling of the average; it fails exactly on an unreadable CPU list or setting, or without usable CPUs |
| `CpuBalancer.PinnedToUsable` | apollo/devices.go:618-639 | a duplicate-free list ends up pinned to exactly its usable CPUs, once each |
| `CpuBalancer.UsageIsConserved` | apollo/devices.go:642-696 | the CPUs' counts add up to the lengths of all pinnings |
| `CpuBalancer.EvenSplit` | apollo/devices.go:674-696 | with a gap of at most 1 and no pinned container every CPU ends at the floor or ceiling of the summed clamped limits over the CPUs |
| `CpuBalancer.EvenRebalance` | apollo/devices.go:674-696 | without pinned containers the pinned loads leave no gap, so that the split is even |
| `CpuBalancer.DefaultLimit` | apollo/devices.go:606-640 | an unset limit grants all usable CPUs if and only if these are not just CPU 0, whose printed form is the count 0 |
| `CpuPinning.Sort` | apollo/devices.go:705 | insertion of each element before the greater ones, for any order that never holds both ways; the elements are kept |
| `CpuPinning.SetPinning` | apollo/devices.go:698-710 | in any order of containers, each that has CPUs, still runs and can be written gets a text that lists its CPUs, and all others keep theirs |
| `CpuPinning.GrantedInAnyOrder` | apollo/devices.go:705 | sorting the CPUs as strings does not change what a limit grants |
| `CpuPinning.GrantedSomeIff` | apollo/devices.go:679-696 | a container gets a CPU if and only if its limit is not 0, or its list has a usable CPU |
| `CpuPinning.ListedIsGranted` | apollo/devices.go:698-710 | the text written for a container parses to what its limit grants |
| `CpuPinning.Balance` | apollo/devices.go:522-711 | the whole rebalance: each running container with a number, or a list, as its setting ends with a cpuset that parses to so many usable CPUs, or to those listed; with none granted, stopped or failing it keeps the one it had |
| `Migration.StepKeepsInv` | apollo/migrate.go:356-620 | every step of source, CRIU, sink and a lossy channel keeps the protocol invariant |
| `Migration.RunKeepsInv` | apollo/migrate.go:356-620 | so does every run |
| `Migration.KilledOnlyAfterRestore` | apollo/migrate.go:508-541 | in every interleaving and failure CRIU kills the source container only if the sink's restore returned success |
| `Migration.NeverTwoCopies` | apollo/migrate.go:598-613 | both copies never run at once unless CRIU or its script failed by itself after the checkpoint |
| `Migration.SourceResultIsTrue` | apollo/migrate.go:598-620 | a live source that reports success has moved the container, unless CRIU or its script failed by itself, and one that reports an error still has it |
| `Migration.KilledIffSuccess` | apollo/migrate.go:598-620 | once a live source has returned, its container was killed if and only if it reports success and neither CRIU nor its script failed by itself |
| `Migration.ResultIsTheSinks` | apollo/migrate.go:600-619 | live or not, the source's result after the transfer is the sink's verdict |
| `Migration.DisagreementNeverDumps` | apollo/migrate.go:472-477 | ends that disagree on live migration never checkpoint and never restore |
| `Migration.AbortLeavesFrozen` | apollo/migrate.go:459-463 | after an abort past the checkpoint the container stays frozen in every continuation until CRIU or its script breaks |
| `Migration.RestoredButNotKilled` | apollo/migrate.go:964-985 | a run in which the sink's copy runs while the source aborted frozen: the converse of the guarantee fails |
| `Migration.LiveMigrationSucceeds` | apollo/migrate.go:356-620 | a run that ends with the sink's copy running and the sink reporting it, the source's copy gone, and the source reporting success |
| `Migration.PlainMigrationSucceeds` | apollo/migrate.go:356-620 | a migration that is not live can succeed, and both ends say so |
| `Migration.PlainSinkConcludes` | apollo/migrate.go:939-968 | a sink that is not live concludes what its transfer came to and tells the source |
| `Migration.PlainSourceFinishes` | apollo/migrate.go:598-619 | a source that is not live finishes with what the sink told it |
| `Migration.LiveSinkRestoresTransfer` | apollo/migrate.go:939-952 | a live sink restores after a transfer that succeeded, and only then |
| `Migration.RestoreIsReported` | apollo/migrate.go:945-954 | the restore's outcome is what is reported |
| `Migration.SinkConcludesReport` | apollo/migrate.go:964-968 | the sink's verdict is what was reported, and goes to the source |
| `Migration.SourceFailureAborts` | apollo/migrate.go:459-463 | any operation of the source that fails before the result makes it abort and tell the sink |
| `Migration.StorageFailureAborts` | apollo/migrate.go:411-427 | without a storage driver the header goes out all the same, and the error after it |
| `Migration.EarlyDumpEndIsTold` | apollo/migrate.go:563-566 | a dump that ends before its script connects ends the source, which tells the sink how |
| `Migration.CriuReportsItsEnd` | apollo/migrate.go:484-500 | a dump that fails or a script that breaks leaves the container running, else the operation decides |
| `Migration.OperationFollowsVerdict` | apollo/migrate.go:512-518 | the operation succeeds exactly on a positive verdict |
| `Migration.SinkFailureReturns` | apollo/migrate.go:817-852 | an operation of the sink that fails before its goroutines start makes it return and tell the source |
| `Migration.SinkGivesUp` | apollo/migrate.go:932-985 | images that do not arrive, and a source that reports failure, end the sink without a restore |
| `Migration.ReaderPassesOn` | apollo/migrate.go:138-152 | the reader passes on what the source says, and a broken connection as its end |
| `Migration.HeadersSayLive` | apollo/migrate.go:833-838 | each end's header says whether it is live |
| `Migration.WhateverSucceedsCanFail` | apollo/migrate.go:356-620 | no operation, message or external command is taken to succeed |
| `RbdTransfer.PatchChanges` | apollo/storage_ceph_migration.go:81-93 | a diff applied to the image it starts from gives the image it leads to |
| `RbdTransfer.ChangesAre` | apollo/storage_ceph_migration.go:81-93 | a diff names exactly the blocks that differ |
| `RbdTransfer.PatchIs` | apollo/storage_ceph_migration.go:282-286 | an import writes the named blocks, discards those named so, and leaves the others |
| `RbdTransfer.SourceDriver.constructor` | apollo/storage_ceph_migration.go:132-192 | which snapshots a source will send: none for a snapshot or container-only, else the container's own |
| `RbdTransfer.OwnInOrder` | apollo/storage_ceph_migration.go:150-189 | the container's own snapshots are sent in the order in which they were listed |
| `RbdTransfer.SourceDriver.SendWhileRunning` | apollo/storage_ceph_migration.go:48-122 | exactly the stream goes on the wire: each snapshot from the one before, then the head from the newest; a break leaves a prefix |
| `RbdTransfer.StreamChains` | apollo/storage_ceph_migration.go:71-111 | each diff starts from the snapshot before, the first from nothing, the head's from the newest |
| `RbdTransfer.SourceDriver.SendAfterCheckpoint` | apollo/storage_ceph_migration.go:31-46 | one more diff from the snapshot remembered while running |
| `RbdTransfer.ReplayRebuilds` | apollo/storage_ceph_migration.go:254-303 | replayed in order every diff finds its base, wherever the stream ends, and the whole stream rebuilds each snapshot and the head exactly |
| `RbdTransfer.ImportIs` | apollo/storage_ceph_migration.go:282-286 | an import fails exactly without its base or with the snapshot it leads to |
| `RbdTransfer.SinkVolume.Receive` | apollo/storage_ceph_migration.go:282-286 | one receive imports the next diff or fails without changing the volume |
| `RbdTransfer.SinkVolume.MigrationSink` | apollo/storage_ceph_migration.go:219-324 | one import per announced snapshot and one for the container; it fails exactly when the wire runs dry, a diff does not import, or the volume, a snapshot or a mount point cannot be made, keeping what was imported before |
| `RbdTransfer.Transfer` | apollo/storage_ceph_migration.go:48-122 | source and sink together copy exactly the container's own snapshots and the head; a live transfer leaves its last diff unread |
| `RbdTransfer.LateDiffRepairsIff` | apollo/storage_ceph_migration.go:31-46 | the unread diff would have given the checkpointed head exactly when no block written in between went back to the snapshot's contents |
| `RsyncTransfer.MethodsAgree` | apollo/migrate.go:833-846 | for every pair of backends both ends settle on one method: rbd between two ceph, zfs between two zfs, btrfs between two btrfs outside a user namespace, else rsync |
| `RsyncTransfer.MatchedIff` | apollo/storage_migration.go:46-76 | the k-th receive meets the k-th send with none left over if and only if the ends agree on live and on the snapshots |
| `RsyncTransfer.SendsInOrder` | apollo/storage_migration.go:46-76 | the wire carries the snapshots in order, then the container, and live the container again |
| `RsyncTransfer.SourceDriver.SendWhileRunning` | apollo/storage_migration.go:46-70 | snapshots in order unless container-only, then the container; stops at the first send that fails |
| `RsyncTransfer.Sink.Receive` | apollo/storage_migration.go:166-237 | one receive stores whatever comes next at the sink's target, and fails on an empty wire |
| `RsyncTransfer.Sink.MigrationSink` | apollo/storage_migration.go:149-244 | both sink variants store the received items at their targets in order, and fail exactly when the wire runs dry or a snapshot cannot be created or a map recorded |
| `RsyncTransfer.Transfer` | apollo/storage_migration.go:46-244 | when the ends agree, either sink succeeds exactly when the connection lasts and its own steps succeed, and then holds the container as last sent and every snapshot asked for, nothing left on the wire |
| `SnapshotCodec.Encode` | apollo/migrate.go:320-354 | a record whose sent form has every device under the name visited last, for any visiting order |
| `SnapshotCodec.EncodeDevices` | apollo/migrate.go:328-338 | the range loop: all devices share one name cell, which holds the last name afterwards |
| `SnapshotCodec.Pairs` | apollo/migrate.go:322-326 | the pairs of a map, in any order, read back to that map |
| `SnapshotCodec.LastFieldIs` | apollo/migrate.go:340-345 | the name sent is what follows the first slash, or a whole name without one |
| `SnapshotCodec.Decode` | apollo/storage_migration.go:95-123 | the sink's maps, later entries overwriting earlier ones |
| `SnapshotCodec.LaterOverwrites` | apollo/storage_migration.go:96-110 | a later pair or device overwrites an earlier one of its name, and no other |
| `SnapshotCodec.RoundTrip` | apollo/storage_migration.go:95-123 | name, config, profiles and flags come back unchanged; of the devices only the last visited; the architecture's low 32 bits |
| `SnapshotCodec.RoundTripIff` | apollo/migrate.go:320-354 | the snapshot comes back whole if and only if it has at most one device and a 32-bit architecture |
| `SnapshotCodec.LegacySnapshots` | apollo/migrate.go:883-891 | stand-ins for named snapshots are copies of the container, each from its own visiting order, that all carry the last name |
| `SnapshotCodec.LegacyNamesIff` | apollo/migrate.go:883-891 | they carry the header's names if and only if these are all equal |
| `ContainerOperations.StepKeepsInv` | apollo/container_mercury.go:47-98 | every step keeps: a slot holds an open operation of its own container with its timeout to come, nothing closed twice |
| `ContainerOperations.ClosedAtMostOnce` | apollo/container_mercury.go:84-98 | in every interleaving of creations in two steps, completions and timers a channel closes at most once |
| `ContainerOperations.OutOfSlotForEver` | apollo/container_mercury.go:84-98 | an operation out of its slot never comes back; its error and its channel never change |
| `ContainerOperations.StaleCompletion` | apollo/container_mercury.go:88-92 | a late completion or timer leaves all slots and other operations alone |
| `ContainerOperations.CompletionRecords` | apollo/container_mercury.go:84-98 | a completion of the operation in its slot records its error or the timeout, closes the channel and frees the slot |
| `ContainerOperations.OtherStepsAre` | apollo/container_mercury.go:462-481 | looking, resetting and expiring touch no slot; inserting takes it whatever holds it |
| `ContainerOperations.StepsComeWhen` | apollo/container_mercury.go:54-76 | a completion can come at any time, a timeout once, a reset while the timer runs |
| `ContainerOperations.SlotLostOnlyBy` | apollo/container_mercury.go:462-481 | a slot is lost only by the operation's own completion or to a creation that looked too early |
| `ContainerOperations.HeldUntilTaken` | apollo/container_mercury.go:84-98 | whatever older operations do, the one in the slot stays there open until it is completed or overwritten |
| `ContainerOperations.OrphanedIff` | apollo/container_mercury.go:462-481 | a step orphans an open operation if and only if a creation inserts into a slot filled since it looked |
| `ContainerOperations.OpenWhileHeld` | apollo/container_mercury.go:462-481 | without such a race an operation is open exactly while it holds its slot, in every run |
| `ContainerOperations.Operations.Get` | apollo/container_mercury.go:483-498 | the operation in the slot if its kind matches, else which of the two errors |
| `ContainerOperations.Operations.InsertNew` | apollo/container_mercury.go:473-480 | a fresh operation overwrites the slot whatever is there, the step of the machine |
| `ContainerOperations.Operations.Create` | apollo/container_mercury.go:462-481 | busy, reuse with a reset timer, or a new operation in the slot |
| `ContainerOperations.Operations.Finish` | apollo/container_mercury.go:84-98 | completes only the operation in its own slot, the step of the machine |
| `ApiOperations.BrokenIff` | apollo/operations.go:65-76 | a step breaks "closed once, exactly when read-only" if and only if a second done takes its lock after another |
| `ApiOperations.ClosedOnce` | apollo/operations.go:65-76 | with done as one step every interleaving closes chanDone at most once, exactly when read-only, and drops the hooks for good |
| `ApiOperations.SplitDoneClosesTwice` | apollo/operations.go:65-76 | with done's unlocked check as its own step, a cancelled image download that closes the channel twice |
| `ApiOperations.FrozenIff` | apollo/operations.go:327-372 | resources and metadata of a done operation never change again if and only if no differing update had passed its checks |
| `ApiStatus.PlainStep` | apollo/operations.go:103-151 | each step of an operation that cannot be cancelled keeps one runner at most and moves the status only forwards, from Pending to Running at most |
| `ApiStatus.StatusMoves` | apollo/operations.go:103-151 | over every run without racing Runs the status goes Pending, Running, then Success or Failure for good |
| `ApiStatus.StatusMovesOnOneRun` | apollo/operations.go:103-151 | over every run with one call of Run, as the daemon makes it, the status between any two points only moves forwards |
| `ApiStatus.FinalForGoodIff` | apollo/operations.go:103-220 | for any operation: a final status never changes again if and only if no thread of Run or Cancel is left that would write another |
| `ApiStatus.PlainFinalForGoodIff` | apollo/operations.go:103-151 | for an operation that cannot be cancelled: if and only if no Run is past its check and no hook is running |
| `ApiOperations.CompletionsSetStatus` | apollo/operations.go:103-220 | which status each start and completion of Run and Cancel leaves |
| `ApiOperations.ChecksPassIff` | apollo/operations.go:103-360 | which status and hooks let Run, Cancel and the updates past their checks |
| `ApiOperations.HookErrorIs` | apollo/operations.go:401-416 | the hooks an operation of each kind may have, and which error is reported |
| `ApiStatus.RacingRunsUndoSuccess` | apollo/operations.go:103-111 | two Runs past the status check turn a successful operation back to running, one instance of the above |
| `ApiOperations.CancelAtOnceIsSteps` | apollo/operations.go:153-220 | an undisturbed Cancel is its steps in order, with done at the end when there is no hook |
| `ApiOperations.Operation.Done` | apollo/operations.go:65-76 | nothing on a read-only operation, else channel closed once and hooks dropped |
| `ApiOperations.Operation.Run` | apollo/operations.go:103-151 | refused unless pending, else the machine's two Run steps |
| `ApiOperations.Operation.HookReturns` | apollo/operations.go:114-142 | completion sets the final status and calls done |
| `ApiOperations.Operation.Cancel` | apollo/operations.go:153-220 | the three errors and the resulting state in every case |
| `ApiOperations.Operation.UpdateResources` | apollo/operations.go:327-346 | accepted exactly on a pending or running operation that is not read-only |
| `ApiOperations.Operation.UpdateMetadata` | apollo/operations.go:348-372 | likewise, if the metadata can be read |
| `ProfileRoot.Expand` | apollo/container_mercury.go:1500-1546 | the loops over profiles and local entries compute the last-wins overlay, or fail on an unreadable profile |
| `ProfileRoot.LastWins` | apollo/container_mercury.go:1524-1546 | a key's value is that of the last profile that has it |
| `ProfileRoot.ExpandedIs` | apollo/container_mercury.go:1500-1546 | a container has what is its own, else what the last of its profiles with the key says, and nothing else |
| `ProfileRoot.FindRootDisk` | apollo/container.go:253-273 | the search over devices in any order, with its error cases as the empty device |
| `ProfileRoot.RootDiskIff` | apollo/container.go:245-273 | for named devices a root disk is found if and only if it is the only one, whatever the order |
| `ProfileRoot.GuardIsPoolChange` | apollo/profiles_utils.go:28-31 | by operator precedence the number of containers is irrelevant: the check runs exactly when the pools differ |
| `ProfileRoot.Check` | apollo/profiles_utils.go:25-64 | the nested loops with break, continue and early returns pass exactly when every container's scan passes, and else answer for the first that does not |
| `ProfileRoot.ScanIsLast` | apollo/profiles_utils.go:43-62 | the backwards scan refuses exactly when the last profile with the key is the one being updated |
| `ProfileRoot.ScanFailsIff` | apollo/profiles_utils.go:44-48 | an unreadable profile is an error exactly when none after it has the key |
| `ProfileRoot.RelyingContainerIsRefused` | apollo/profiles_utils.go:33-61 | when the pools differ, a container without a pooled root disk of its own, whose last profile with the old key is the one updated, makes the check refuse |
| `ProfileRoot.OwnRootIsEnough` | apollo/profiles_utils.go:35-40 | a container whose only root disk of its own has a pool never causes a refusal |
| `ProfileRoot.ScanPassesIff` | apollo/profiles_utils.go:43-62 | the scan passes if and only if no update of the profile whatever could change what the profiles give under the key |
| `ProfileRoot.PassedUpdateKeepsEveryRoot` | apollo/profiles_utils.go:25-64 | after a passed update that changes the pool, every container without a pooled root of its own has the same device under the old key |
| `ProfileRoot.RefusedMeansReliance` | apollo/profiles_utils.go:52-56 | a refusal names a container whose profiles give it the very device being replaced |
| `ProfileRoot.OneRootAfterUpdateIff` | apollo/profiles_utils.go:25-64 | after any update a container keeps its one root disk if and only if its key is local or still gets a root disk from the last profile with it, and no other key the profile has or had gets one, unhidden by a local device |
| `ProfileRoot.PassedScanKeepsRoot` | apollo/profiles_utils.go:43-62 | a passed scan gives the first half of that condition |
| `ProfileRoot.NoRootAlwaysPasses` | apollo/profiles_utils.go:25-64 | every update of a profile without a root disk passes, also one that gives it one |
| `ProfileRoot.PassedUpdateMayAddSecondRoot` | apollo/profiles_utils.go:25-64 | a passed update after which a container has two root disks |
| `InterfaceNames.Collect` | apollo/container_mercury.go:5907-5949 | exactly the static, recorded and existing names are collected, without duplicates, in any order |
| `InterfaceNames.NameKeyIff` | apollo/container_mercury.go:5918-5934 | a device's name key is recognised if and only if the device's name has no dot |
| `InterfaceNames.NameKeysAreNameKeys` | apollo/container_mercury.go:5918-5934 | every recognised key is the name key of some device |
| `InterfaceNames.EthNameInjective` | apollo/container_mercury.go:5951-5954 | different numbers give different names |
| `InterfaceNames.TakenNamesBoundProbes` | apollo/container_mercury.go:5951-5960 | i taken names eth0.. need at least i names in use |
| `InterfaceNames.FindFree` | apollo/container_mercury.go:5951-5960 | the loop without a bound ends, with the smallest number whose name is not in the list |
| `InterfaceNames.NextInterfaceName` | apollo/container_mercury.go:5907-5961 | the smallest free ethN, with N at most the number of names in use; no device's name, recorded name of an undotted device, or existing interface |
| `InterfaceNames.OnlyNamesInUseAreAvoided` | apollo/container_mercury.go:5907-5949 | a name that is on no device, not recorded and on no interface is not avoided |
| `InterfaceNames.FirstFreeIsUnique` | apollo/container_mercury.go:5951-5960 | the answer does not depend on any iteration order |
| `InterfaceNames.RecordedNameAvoided` | apollo/container_mercury.go:5918-5934 | the name recorded for a device without a dot in its name is among those avoided |
| `InterfaceNames.DottedDeviceIsMissed` | apollo/container_mercury.go:5918-5934 | with a dot in the device's name, its recorded name is handed out again |
| `NetworkAddresses.SizesAcceptedIff` | apollo/networks_utils.go:599-612 | exactly three pairs of underlay and overlay sizes pass the checks |
| `NetworkAddresses.FanAddress` | apollo/networks_utils.go:598-640 | byte by byte the address written in place; each error exactly when it applies, in the code's order, with the bytes untouched |
| `NetworkAddresses.FanStaysInsideAndInverts` | apollo/networks_utils.go:598-640 | a host's whole /24 lies inside the overlay, and the host can be read off any address in it |
| `NetworkAddresses.FanSubnetsDisjoint` | apollo/networks_utils.go:598-640 | distinct hosts of one underlay get /24s without a common address |
| `NetworkAddresses.FanBytesDiffer` | apollo/networks_utils.go:627-637 | distinct hosts get addresses that differ in the first three bytes |
| `NetworkAddresses.WideUnderlayInNarrowOverlayCollides` | apollo/networks_utils.go:610-612 | the pair of sizes turned down would give two hosts one address |
| `NetworkAddresses.GetIP` | apollo/networks_utils.go:156-189 | the n-th IPv4 address as a number, with negative hosts counted from the end; a small one is added to the last byte |
| `NetworkAddresses.NthAddressInsideIff` | apollo/networks_utils.go:156-189 | it lies in the subnet if and only if the subnet has that many addresses, from either end |
| `NetworkAddresses.FromTheEnd` | apollo/networks_utils.go:164-176 | host -k is host n - k of a subnet of n addresses, the k-th before its end |
| `NetworkAddresses.GetIP6` | apollo/networks_utils.go:156-183 | the n-th IPv6 address, without leading zero bytes |
| `NetworkAddresses.Nth6Bytes` | apollo/networks_utils.go:178-183 | it has as many bytes as an address exactly when it neither overflows nor begins with a zero byte, and a small host number is added to the last byte |
| `NetworkAddresses.FromTheEnd6` | apollo/networks_utils.go:164-176 | host -k is host n - k here too |
| `NetworkAddresses.MinimalLengthIff` | apollo/networks_utils.go:178-183 | the byte form of a number has at most k bytes if and only if the number is below 256^k |

## Left out

- The explicit base of `findIdmap` (apollo/container_mercury.go:669), which bypasses the sweep, and an unset base, which is read as 0: histories contain automatic allocations only.
- Parsing of raw maps; a raw range that runs backwards has a negative size, which `AddSafeKeepsWellFormedIff` and `AddSafeGivesPrecedence` do not cover.
- IdmapAllocator.Idmaps.Assign: takes search and record as one step, because the base is stored after the lock is released; `IdmapRaces` has the steps, without changes of size between them.
- A failure while search results are being recorded in the database, other than as a fault of a start, an attach or a transfer step.
- Real time: a 30-second timer is a step that may come at any moment once the operation exists.
- The pointers through which the balancer counts CPU use, modelled as a map; container pinnings as lists of ids, printed when they are sorted and joined.
- Overflow of the range loop in `parseCpuset` when a range ends at the largest 64-bit integer.
- ContainerOperations.Operations.Create: stated without interference; creations in two steps among other threads are steps of the machine.
- Pointers to container operations, modelled as indices of a table; a reset's blocking send on an operation whose timer has fired.
- ApiOperations.ClosedOnce: takes `done` as one step; `SplitDoneClosesTwice` shows why, and `BrokenIff` which step breaks it otherwise.
- ApiStatus.StatusMoves: runs in which two Runs race are excluded; `StatusMovesOnOneRun` needs no such premise, and `FinalForGoodIff` covers every run.
- A download's canceler is set by the run hook; the model has it from the operation's creation.
- API operations: `Connect`, `WaitFinal`, and the removal of a finished operation from the global table after five seconds.
- Live migration without the action script (library versions before 2.0.4), and progress of a migration: only safety is claimed, and successful runs are shown to exist.
- Websockets, protobuf wire format, temporary directories and progress reporting; a transfer is one step that may fail.
- Storage state kept by the sinks next to the data: mount points, database entries of snapshots, and the root pool written into a snapshot's devices.
- The block contents of a snapshot's clone when a single snapshot is migrated over RBD.
- The container directory's own mode and owner, access control lists (converted next to each owner), and the truncation of owners to 32 bits on the way to the kernel; a walk moves the owner of each file.
- ContainerStart.HistoryKeepsOwnership: histories in which a start breaks off after it moved files, or meets links that make a difference, are excluded, because ownership is then lost; `RetryRecoversIff` and `StartWithLinksIff` say when it is not.
- The cache of a container's id map, and errors while maps are read from or written to JSON.
- The part of a profile update after the check: database writes and updating the containers.
- Underlays and overlays given as IPv6 networks.
- NetworkAddresses.NthAddressInsideIff: stated for hosts of at most 2^32 in size either way; larger ones wrap around.
- HTTP handlers, image handling, certificates, validation tables, Seccomp and AppArmor text, storage upgrade patches: they would add only easy members.
