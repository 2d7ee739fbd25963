/**
 Profiles laid over one another, the last one winning, and the check that keeps a profile update from taking away the
 root disk of containers that rely on it.
 */
module ProfileRoot {
  import opened Prelude

  type Device = map<string, string>

  type Devices = map<string, Device>

  // ----- expansion -------------------------------------------------------------------------------------------------

  predicate AllKnown<V>(db: map<string, map<string, V>>, profiles: seq<string>) {
    forall i :: 0 <= i < |profiles| ==> profiles[i] in db
  }

  /** All profiles laid over one another. */
  function Overlaid<V>(db: map<string, map<string, V>>, profiles: seq<string>): map<string, V>
    requires AllKnown(db, profiles)
  {
    if profiles == [] then map[]
    else Overlaid(db, profiles[..|profiles| - 1]) + db[profiles[|profiles| - 1]]
  }

  /** What a container ends up with: its own entries on top of its profiles. */
  function Expanded<V>(db: map<string, map<string, V>>, profiles: seq<string>, local: map<string, V>): map<string, V>
    requires AllKnown(db, profiles)
  {
    Overlaid(db, profiles) + local
  }

  method LayOver<V>(base: map<string, V>, top: map<string, V>) returns (r: map<string, V>)
    ensures r == base + top
  {
    r := base;
    var todo := top.Keys;
    while todo != {}
      invariant todo <= top.Keys
      invariant r.Keys == base.Keys + (top.Keys - todo)
      invariant forall k :: k in r ==> r[k] == if k in top && k !in todo then top[k] else base[k]
    {
      ghost var some := SomeElement(todo);
      var k :| k in todo;
      r := r[k := top[k]];
      todo := todo - {k};
    }
  }

  /** expandConfig and expandDevices; a profile that cannot be read is an error. */
  method Expand<V>(db: map<string, map<string, V>>, profiles: seq<string>, local: map<string, V>)
    returns (r: Option<map<string, V>>)
    ensures r == if AllKnown(db, profiles) then Some(Expanded(db, profiles, local)) else None
    ensures r.None? <==> exists i :: 0 <= i < |profiles| && profiles[i] !in db
  {
    var all: map<string, V> := map[];
    for i := 0 to |profiles|
      invariant AllKnown(db, profiles[..i])
      invariant all == Overlaid(db, profiles[..i])
    {
      if profiles[i] !in db {
        return None;
      }
      all := LayOver(all, db[profiles[i]]);
      assert profiles[..i + 1][..i] == profiles[..i];
    }
    assert profiles[..|profiles|] == profiles;
    all := LayOver(all, local);
    return Some(all);
  }

  /** The i-th profile has the key, and no later one does. */
  predicate IsLastWith<V>(db: map<string, map<string, V>>, profiles: seq<string>, key: string, i: nat) {
    && i < |profiles| && profiles[i] in db && key in db[profiles[i]]
    && forall j :: i < j < |profiles| && profiles[j] in db ==> key !in db[profiles[j]]
  }

  /** The last profile in the list that has the key: 0 stands for none, and i + 1 for position i. */
  function LastWith<V>(db: map<string, map<string, V>>, profiles: seq<string>, key: string): (n: nat)
    requires AllKnown(db, profiles)
    ensures n <= |profiles|
    ensures n > 0 ==> key in db[profiles[n - 1]]
    ensures forall i :: n <= i < |profiles| ==> key !in db[profiles[i]]
  {
    if profiles == [] then 0
    else if key in db[profiles[|profiles| - 1]] then |profiles|
    else LastWith(db, profiles[..|profiles| - 1], key)
  }

  /** The last profile that has a key decides it. */
  lemma {:induction false} LastWins<V>(db: map<string, map<string, V>>, profiles: seq<string>, key: string)
    requires AllKnown(db, profiles)
    ensures var n := LastWith(db, profiles, key);
            && (key in Overlaid(db, profiles) <==> n > 0)
            && (n > 0 ==> Overlaid(db, profiles)[key] == db[profiles[n - 1]][key])
  {
    if profiles != [] && key !in db[profiles[|profiles| - 1]] {
      LastWins(db, profiles[..|profiles| - 1], key);
    }
  }

  /** A container has what is its own, and else what the last of its profiles with the key says. */
  lemma ExpandedIs<V>(db: map<string, map<string, V>>, profiles: seq<string>, local: map<string, V>, key: string)
    requires AllKnown(db, profiles)
    ensures var all := Expanded(db, profiles, local);
            && (key in local ==> key in all && all[key] == local[key])
            && (forall i: nat :: key !in local && IsLastWith(db, profiles, key, i) ==>
                  key in all && all[key] == db[profiles[i]][key])
            && (key in all ==> key in local || exists i: nat :: IsLastWith(db, profiles, key, i))
  {
    LastWins(db, profiles, key);
    var n := LastWith(db, profiles, key);
    if n > 0 {
      assert IsLastWith(db, profiles, key, n - 1);
    }
    forall i: nat | IsLastWith(db, profiles, key, i)
      ensures n == i + 1
    {
    }
  }

  // ----- the root disk ---------------------------------------------------------------------------------------------

  function Get(d: Device, key: string): string {
    if key in d then d[key] else ""
  }

  predicate IsRootDisk(d: Device): (r: bool)
    ensures r <==> && "type" in d && d["type"] == "disk" && "path" in d && d["path"] == "/"
                   && ("source" in d ==> d["source"] == "")
  {
    Get(d, "type") == "disk" && Get(d, "path") == "/" && Get(d, "source") == ""
  }

  /** A device's name and what it is; the empty name comes with the empty device and means that none was found. */
  datatype Root = Root(key: string, device: Device)

  const NO_ROOT := Root("", map[])

  /** containerGetRootDiskDevice, visiting the devices in the given order. */
  method FindRootDisk(devices: Devices, order: seq<string>) returns (r: Root)
    requires Enumerates(order, devices)
    ensures r == RootDisk(devices, order)
  {
    r := NO_ROOT;
    assert order[0..] == order;
    for i := 0 to |order|
      invariant RootDisk(devices, order) == SearchFrom(devices, order[i..], r)
    {
      assert order[i] in Elements(order);
      assert order[i..][1..] == order[i + 1..];
      if IsRootDisk(devices[order[i]]) {
        if r.key != "" {
          return NO_ROOT;
        }
        r := Root(order[i], devices[order[i]]);
      }
    }
    if r.key == "" {
      return NO_ROOT;
    }
  }

  function SearchFrom(devices: Devices, order: seq<string>, found: Root): Root
    requires forall k :: k in order ==> k in devices
  {
    if order == [] then if found.key != "" then found else NO_ROOT
    else if !IsRootDisk(devices[order[0]]) then SearchFrom(devices, order[1..], found)
    else if found.key != "" then NO_ROOT
    else SearchFrom(devices, order[1..], Root(order[0], devices[order[0]]))
  }

  function RootDisk(devices: Devices, order: seq<string>): Root
    requires Enumerates(order, devices)
  {
    assert forall k :: k in order ==> k in Elements(order);
    SearchFrom(devices, order, NO_ROOT)
  }

  /** With named devices the search finds a device exactly when it is the only root disk, whatever the order. */
  lemma RootDiskIff(devices: Devices, order: seq<string>, key: string)
    requires Enumerates(order, devices) && "" !in devices && key in devices
    ensures RootDisk(devices, order) == Root(key, devices[key])
            <==> forall k :: k in devices ==> (IsRootDisk(devices[k]) <==> k == key)
    ensures RootDisk(devices, order) == NO_ROOT || RootDisk(devices, order).key in devices
  {
    SearchIff(devices, order, NO_ROOT, key);
    assert forall k :: k in devices ==> k in Elements(order) && k in order;
    if forall k :: k in devices ==> (IsRootDisk(devices[k]) <==> k == key) {
      assert key in order;
    }
  }

  lemma {:induction false} SearchIff(devices: Devices, order: seq<string>, found: Root, key: string)
    requires Distinct(order) && "" !in order && (forall k :: k in order ==> k in devices)
    requires key != "" && key in devices && (found == NO_ROOT || (found.key != "" && found.key !in order))
    ensures found != NO_ROOT ==>
              && (SearchFrom(devices, order, found) == found <==> forall k :: k in order ==> !IsRootDisk(devices[k]))
              && (SearchFrom(devices, order, found) in {found, NO_ROOT})
    ensures found == NO_ROOT ==>
              && (SearchFrom(devices, order, found) == Root(key, devices[key])
                  <==> key in order && forall k :: k in order ==> (IsRootDisk(devices[k]) <==> k == key))
              && (SearchFrom(devices, order, found) == NO_ROOT || SearchFrom(devices, order, found).key in order)
  {
    if order != [] {
      var first, rest := order[0], order[1..];
      assert order == [first] + rest;
      assert first !in rest;
      assert forall k :: k in order <==> k == first || k in rest;
      if !IsRootDisk(devices[first]) {
        SearchIff(devices, rest, found, key);
      } else if found == NO_ROOT {
        SearchIff(devices, rest, Root(first, devices[first]), key);
      }
    }
  }

  // ----- the check on a profile update -----------------------------------------------------------------------------

  /** A container that uses the profile; `order` is the order in which its local devices are visited. */
  datatype Container = Container(profiles: seq<string>, local: Devices, order: seq<string>)

  datatype Verdict = Passed | ReliesOnProfile | ProfileError

  predicate HasLocalRoot(c: Container)
    requires Enumerates(c.order, c.local)
  {
    var r := RootDisk(c.local, c.order);
    r.key != "" && Get(r.device, "pool") != ""
  }

  /** Whether the containers are looked at; conjunction binds tighter than disjunction. */
  predicate Guard(containers: nat, oldPool: string, newPool: string) {
    (containers > 0 && oldPool != "" && newPool == "") || oldPool != newPool
  }

  /** The number of containers makes no difference: they are looked at exactly when the pools differ. */
  lemma GuardIsPoolChange(containers: nat, oldPool: string, newPool: string)
    ensures Guard(containers, oldPool, newPool) <==> oldPool != newPool
  {
  }

  /** What the scan of one container's profiles, from the last to the first, comes to. */
  function Scan(db: map<string, Devices>, profiles: seq<string>, name: string, key: string): Verdict {
    if profiles == [] then Passed
    else
      var last := profiles[|profiles| - 1];
      if last !in db then ProfileError
      else if key in db[last] then if last == name then ReliesOnProfile else Passed
      else Scan(db, profiles[..|profiles| - 1], name, key)
  }

  function VerdictOn(db: map<string, Devices>, c: Container, name: string, key: string): Verdict
    requires Enumerates(c.order, c.local)
  {
    if HasLocalRoot(c) then Passed else Scan(db, c.profiles, name, key)
  }

  predicate Passes(db: map<string, Devices>, containers: seq<Container>, name: string, before: Root, after: Root)
    requires forall i :: 0 <= i < |containers| ==> Enumerates(containers[i].order, containers[i].local)
  {
    || Get(before.device, "pool") == Get(after.device, "pool")
    || forall i :: 0 <= i < |containers| ==> VerdictOn(db, containers[i], name, before.key).Passed?
  }

  /** The inner loop, from the last profile to the first one that has the key. */
  method ScanProfiles(db: map<string, Devices>, profiles: seq<string>, name: string, key: string) returns (r: Verdict)
    ensures r == Scan(db, profiles, name, key)
  {
    var i := |profiles|;
    assert profiles[..i] == profiles;
    while i > 0
      invariant 0 <= i <= |profiles|
      invariant Scan(db, profiles, name, key) == Scan(db, profiles[..i], name, key)
    {
      i := i - 1;
      assert profiles[..i + 1][..i] == profiles[..i];
      if profiles[i] !in db {
        return ProfileError;
      }
      if key in db[profiles[i]] {
        if profiles[i] == name {
          return ReliesOnProfile;
        }
        break;
      }
    }
    return Passed;
  }

  method Check(db: map<string, Devices>, containers: seq<Container>, name: string, oldDevices: Devices,
               oldOrder: seq<string>, newDevices: Devices, newOrder: seq<string>)
    returns (r: Verdict)
    requires Enumerates(oldOrder, oldDevices) && Enumerates(newOrder, newDevices)
    requires forall i :: 0 <= i < |containers| ==> Enumerates(containers[i].order, containers[i].local)
    ensures r.Passed? <==> Passes(db, containers, name, RootDisk(oldDevices, oldOrder), RootDisk(newDevices, newOrder))
    ensures !r.Passed? ==> exists i :: 0 <= i < |containers| &&
                             VerdictOn(db, containers[i], name, RootDisk(oldDevices, oldOrder).key) == r &&
                             forall j :: 0 <= j < i ==>
                               VerdictOn(db, containers[j], name, RootDisk(oldDevices, oldOrder).key).Passed?
  {
    var oldRoot := FindRootDisk(oldDevices, oldOrder);
    var newRoot := FindRootDisk(newDevices, newOrder);
    if !Guard(|containers|, Get(oldRoot.device, "pool"), Get(newRoot.device, "pool")) {
      return Passed;
    }
    for n := 0 to |containers|
      invariant forall i :: 0 <= i < n ==> VerdictOn(db, containers[i], name, oldRoot.key).Passed?
    {
      var c := containers[n];
      var root := FindRootDisk(c.local, c.order);
      if root.key != "" && Get(root.device, "pool") != "" {
        continue;
      }
      var verdict := ScanProfiles(db, c.profiles, name, oldRoot.key);
      if !verdict.Passed? {
        assert VerdictOn(db, containers[n], name, oldRoot.key) == verdict;
        return verdict;
      }
    }
    return Passed;
  }

  /** The scan finds the last profile that has the key. */
  lemma {:induction false} ScanIsLast(db: map<string, Devices>, profiles: seq<string>, name: string, key: string)
    requires AllKnown(db, profiles)
    ensures var n := LastWith(db, profiles, key);
            Scan(db, profiles, name, key) == if n > 0 && profiles[n - 1] == name then ReliesOnProfile else Passed
  {
    if profiles != [] && key !in db[profiles[|profiles| - 1]] {
      ScanIsLast(db, profiles[..|profiles| - 1], name, key);
    }
  }

  /** The profiles after an update of one of them. */
  function Replaced(db: map<string, Devices>, name: string, devices: Devices): (r: map<string, Devices>)
    ensures r.Keys == db.Keys + {name}
  {
    db[name := devices]
  }

  /** The i-th profile cannot be read, and none after it stops the scan. */
  predicate FailsAt(db: map<string, Devices>, profiles: seq<string>, key: string, i: nat) {
    i < |profiles| && profiles[i] !in db && forall j :: i < j < |profiles| ==> profiles[j] in db && key !in db[profiles[j]]
  }

  /** A profile that cannot be read is an error when it comes before any that has the key, counting from the last. */
  lemma {:induction false} ScanFailsIff(db: map<string, Devices>, profiles: seq<string>, name: string, key: string)
    ensures Scan(db, profiles, name, key) == ProfileError <==> exists i: nat :: FailsAt(db, profiles, key, i)
  {
    if profiles != [] {
      var k := |profiles| - 1;
      ScanFailsIff(db, profiles[..k], name, key);
      if profiles[k] !in db {
        assert FailsAt(db, profiles, key, k);
      } else if key !in db[profiles[k]] {
        forall i: nat
          ensures FailsAt(db, profiles, key, i) <==> FailsAt(db, profiles[..k], key, i)
        {
        }
      }
    }
  }

  /** Replacing one profile leaves what another, later one decides. */
  lemma {:induction false} ReplacedIsHidden(db: map<string, Devices>, profiles: seq<string>, name: string, key: string,
                                            devices: Devices)
    requires AllKnown(db, profiles) && name in db && key in db[name]
    requires LastWith(db, profiles, key) > 0 && profiles[LastWith(db, profiles, key) - 1] != name
    ensures LastWith(Replaced(db, name, devices), profiles, key) == LastWith(db, profiles, key)
  {
    if key !in db[profiles[|profiles| - 1]] {
      ReplacedIsHidden(db, profiles[..|profiles| - 1], name, key, devices);
    }
  }

  lemma {:induction false} UnusedKeyStaysUnused(db: map<string, Devices>, profiles: seq<string>, name: string,
                                                devices: Devices)
    requires AllKnown(db, profiles) && name !in profiles
    ensures AllKnown(Replaced(db, name, devices), profiles)
    ensures Overlaid(Replaced(db, name, devices), profiles) == Overlaid(db, profiles)
  {
    if profiles != [] {
      UnusedKeyStaysUnused(db, profiles[..|profiles| - 1], name, devices);
    }
  }

  /** What the container's profiles give it under a key. */
  function Lookup(db: map<string, Devices>, profiles: seq<string>, key: string): Option<Device>
    requires AllKnown(db, profiles)
  {
    var all := Overlaid(db, profiles);
    if key in all then Some(all[key]) else None
  }

  lemma LookupIsLast(db: map<string, Devices>, profiles: seq<string>, key: string)
    requires AllKnown(db, profiles)
    ensures var n := LastWith(db, profiles, key);
            Lookup(db, profiles, key) == if n > 0 then Some(db[profiles[n - 1]][key]) else None
  {
    LastWins(db, profiles, key);
  }

  lemma HiddenUpdate(db: map<string, Devices>, profiles: seq<string>, name: string, key: string, devices: Devices)
    requires AllKnown(db, profiles) && name in db && key in db[name]
    requires LastWith(db, profiles, key) > 0 && profiles[LastWith(db, profiles, key) - 1] != name
    ensures Lookup(Replaced(db, name, devices), profiles, key) == Lookup(db, profiles, key)
  {
    ReplacedIsHidden(db, profiles, name, key, devices);
    LookupIsLast(db, profiles, key);
    LookupIsLast(Replaced(db, name, devices), profiles, key);
  }

  lemma PassedScanIsFinal(db: map<string, Devices>, profiles: seq<string>, name: string, key: string, devices: Devices)
    requires AllKnown(db, profiles) && name in db && key in db[name] && Scan(db, profiles, name, key).Passed?
    ensures Lookup(Replaced(db, name, devices), profiles, key) == Lookup(db, profiles, key)
  {
    ScanIsLast(db, profiles, name, key);
    if LastWith(db, profiles, key) > 0 {
      HiddenUpdate(db, profiles, name, key, devices);
    } else {
      assert forall i :: 0 <= i < |profiles| ==> profiles[i] != name;
      UnusedKeyStaysUnused(db, profiles, name, devices);
    }
  }

  function Altered(d: Device): (r: Device)
    ensures r != d
  {
    assert d["pool" := Get(d, "pool") + "x"]["pool"] == Get(d, "pool") + "x";
    d["pool" := Get(d, "pool") + "x"]
  }

  lemma RefusedScanMatters(db: map<string, Devices>, profiles: seq<string>, name: string, key: string)
    requires AllKnown(db, profiles) && name in db && key in db[name] && !Scan(db, profiles, name, key).Passed?
    ensures var devices := db[name][key := Altered(db[name][key])];
            Lookup(Replaced(db, name, devices), profiles, key) != Lookup(db, profiles, key)
  {
    var devices := db[name][key := Altered(db[name][key])];
    ScanIsLast(db, profiles, name, key);
    SameKeys(db, profiles, name, key, devices);
    LookupIsLast(db, profiles, key);
    LookupIsLast(Replaced(db, name, devices), profiles, key);
  }

  /**
   The scan passes exactly when no update of the profile whatever could change what the container's profiles give it
   under the key.
   */
  lemma ScanPassesIff(db: map<string, Devices>, profiles: seq<string>, name: string, key: string)
    requires AllKnown(db, profiles) && name in db && key in db[name]
    ensures Scan(db, profiles, name, key).Passed?
            <==> forall devices :: Lookup(Replaced(db, name, devices), profiles, key) == Lookup(db, profiles, key)
  {
    if Scan(db, profiles, name, key).Passed? {
      forall devices
        ensures Lookup(Replaced(db, name, devices), profiles, key) == Lookup(db, profiles, key)
      {
        PassedScanIsFinal(db, profiles, name, key, devices);
      }
    } else {
      RefusedScanMatters(db, profiles, name, key);
    }
  }

  lemma {:induction false} SameKeys(db: map<string, Devices>, profiles: seq<string>, name: string, key: string,
                                    devices: Devices)
    requires AllKnown(db, profiles) && name in db && (key in devices <==> key in db[name])
    ensures LastWith(Replaced(db, name, devices), profiles, key) == LastWith(db, profiles, key)
  {
    if profiles != [] && key !in db[profiles[|profiles| - 1]] {
      SameKeys(db, profiles[..|profiles| - 1], name, key, devices);
    }
  }

  predicate SameUnder(key: string, before: Devices, after: Devices) {
    (key in before <==> key in after) && (key in before ==> after[key] == before[key])
  }

  lemma PassedUpdateKeepsDevice(db: map<string, Devices>, c: Container, name: string, key: string, newDevices: Devices)
    requires AllKnown(db, c.profiles) && name in db && key in db[name] && Scan(db, c.profiles, name, key).Passed?
    ensures SameUnder(key, Expanded(db, c.profiles, c.local),
                           Expanded(Replaced(db, name, newDevices), c.profiles, c.local))
  {
    PassedScanIsFinal(db, c.profiles, name, key, newDevices);
  }

  /** Some local device is a root disk with a pool. */
  predicate LocalPooledRoot(local: Devices) {
    exists k :: k in local && IsRootDisk(local[k]) && "pool" in local[k] && local[k]["pool"] != ""
  }

  lemma {:induction false} FoundIsRootDisk(devices: Devices, order: seq<string>, found: Root)
    requires forall k :: k in order ==> k in devices
    requires found != NO_ROOT ==> found.key in devices && found.device == devices[found.key] && IsRootDisk(found.device)
    ensures var r := SearchFrom(devices, order, found);
            r != NO_ROOT ==> r.key != "" && r.key in devices && r.device == devices[r.key] && IsRootDisk(r.device)
  {
    if order != [] {
      if IsRootDisk(devices[order[0]]) {
        FoundIsRootDisk(devices, order[1..], Root(order[0], devices[order[0]]));
      } else {
        FoundIsRootDisk(devices, order[1..], found);
      }
    }
  }

  /** The device is the only root disk among these, all of them named, and has a pool. */
  ghost predicate OnlyPooledRoot(local: Devices, own: string) {
    && "" !in local && own in local && "pool" in local[own] && local[own]["pool"] != ""
    && forall j :: j in local ==> (IsRootDisk(local[j]) <==> j == own)
  }

  /** The local device the check goes by is a root disk with a pool; the only such root disk is found. */
  lemma LocalRootIff(c: Container)
    requires Enumerates(c.order, c.local)
    ensures HasLocalRoot(c) ==> LocalPooledRoot(c.local)
    ensures forall own :: OnlyPooledRoot(c.local, own) ==> HasLocalRoot(c)
  {
    assert forall k :: k in c.order ==> k in Elements(c.order);
    FoundIsRootDisk(c.local, c.order, NO_ROOT);
    forall own | OnlyPooledRoot(c.local, own)
      ensures HasLocalRoot(c)
    {
      RootDiskIff(c.local, c.order, own);
    }
  }

  /**
   When the pools differ, a container without a pooled root disk of its own, whose last profile with the old root key is
   the one being updated, makes the check refuse.
   */
  lemma RelyingContainerIsRefused(db: map<string, Devices>, containers: seq<Container>, name: string, before: Root,
                                  after: Root, i: nat, k: nat)
    requires forall n :: 0 <= n < |containers| ==> Enumerates(containers[n].order, containers[n].local)
    requires i < |containers| && AllKnown(db, containers[i].profiles) && !LocalPooledRoot(containers[i].local)
    requires IsLastWith(db, containers[i].profiles, before.key, k) && containers[i].profiles[k] == name
    requires Get(before.device, "pool") != Get(after.device, "pool")
    ensures !Passes(db, containers, name, before, after)
  {
    LocalRootIff(containers[i]);
    ScanIsLast(db, containers[i].profiles, name, before.key);
    assert LastWith(db, containers[i].profiles, before.key) == k + 1;
    assert !VerdictOn(db, containers[i], name, before.key).Passed?;
  }

  /** A container whose only root disk among its own devices has a pool never causes a refusal. */
  lemma OwnRootIsEnough(db: map<string, Devices>, c: Container, name: string, key: string, own: string)
    requires Enumerates(c.order, c.local) && OnlyPooledRoot(c.local, own)
    ensures VerdictOn(db, c, name, key).Passed?
  {
    LocalRootIff(c);
  }

  /**
   An update that changes the root pool and passes the check leaves every container using the profile, unless it has
   a pooled root disk of its own, with the device it had under the old root key.
   */
  lemma PassedUpdateKeepsEveryRoot(db: map<string, Devices>, containers: seq<Container>, name: string,
                                   oldOrder: seq<string>, newDevices: Devices, newOrder: seq<string>)
    requires forall i :: 0 <= i < |containers| ==>
               AllKnown(db, containers[i].profiles) && Enumerates(containers[i].order, containers[i].local)
    requires name in db && Enumerates(oldOrder, db[name]) && Enumerates(newOrder, newDevices)
    requires var before := RootDisk(db[name], oldOrder);
             var after := RootDisk(newDevices, newOrder);
             && before.key in db[name] && Get(before.device, "pool") != Get(after.device, "pool")
             && Passes(db, containers, name, before, after)
    ensures forall i :: 0 <= i < |containers| && (!HasLocalRoot(containers[i]) || !LocalPooledRoot(containers[i].local)) ==>
              SameUnder(RootDisk(db[name], oldOrder).key,
                        Expanded(db, containers[i].profiles, containers[i].local),
                        Expanded(Replaced(db, name, newDevices), containers[i].profiles, containers[i].local))
  {
    var key := RootDisk(db[name], oldOrder).key;
    forall i | 0 <= i < |containers| && (!HasLocalRoot(containers[i]) || !LocalPooledRoot(containers[i].local))
      ensures SameUnder(key, Expanded(db, containers[i].profiles, containers[i].local),
                             Expanded(Replaced(db, name, newDevices), containers[i].profiles, containers[i].local))
    {
      LocalRootIff(containers[i]);
      assert VerdictOn(db, containers[i], name, key).Passed?;
      PassedUpdateKeepsDevice(db, containers[i], name, key, newDevices);
    }
  }

  /**
   A refused update is one some container relies on: it has no pooled root of its own, and its profiles give it the very
   device being replaced.
   */
  lemma RefusedMeansReliance(db: map<string, Devices>, c: Container, name: string, key: string)
    requires AllKnown(db, c.profiles) && name in db && Enumerates(c.order, c.local)
    ensures VerdictOn(db, c, name, key).ReliesOnProfile? ==>
              && !HasLocalRoot(c) && key in db[name] && (forall own :: !OnlyPooledRoot(c.local, own))
              && Lookup(db, c.profiles, key) == Some(db[name][key])
              && (key !in c.local ==> Expanded(db, c.profiles, c.local)[key] == db[name][key])
  {
    ScanIsLast(db, c.profiles, name, key);
    LastWins(db, c.profiles, key);
    LocalRootIff(c);
  }

  predicate OnlyRoot(devices: Devices, key: string) {
    key in devices && forall k :: k in devices ==> (IsRootDisk(devices[k]) <==> k == key)
  }

  /** The last of the profiles that has the key gives a root disk under it. */
  predicate GivesRoot(db: map<string, Devices>, profiles: seq<string>, key: string)
    requires AllKnown(db, profiles)
  {
    var n := LastWith(db, profiles, key);
    n > 0 && IsRootDisk(db[profiles[n - 1]][key])
  }

  /** A key that the profile has neither before nor after the update keeps its meaning. */
  lemma {:induction false} UntouchedKey(db: map<string, Devices>, profiles: seq<string>, name: string, devices: Devices,
                                        key: string)
    requires AllKnown(db, profiles) && name in db && key !in db[name] && key !in devices
    ensures Lookup(Replaced(db, name, devices), profiles, key) == Lookup(db, profiles, key)
  {
    if profiles != [] {
      UntouchedKey(db, profiles[..|profiles| - 1], name, devices, key);
    }
  }

  lemma RootAfterUpdate(db: map<string, Devices>, c: Container, name: string, newDevices: Devices, key: string, k: string)
    requires AllKnown(db, c.profiles) && name in db && OnlyRoot(Expanded(db, c.profiles, c.local), key) && k != key
    ensures var after := Expanded(Replaced(db, name, newDevices), c.profiles, c.local);
            k in after && IsRootDisk(after[k])
            <==> k !in c.local && k in db[name].Keys + newDevices.Keys
                 && GivesRoot(Replaced(db, name, newDevices), c.profiles, k)
  {
    var before := Expanded(db, c.profiles, c.local);
    LookupIsLast(Replaced(db, name, newDevices), c.profiles, k);
    if k in c.local {
      assert before[k] == c.local[k];
    } else if k !in db[name].Keys + newDevices.Keys {
      UntouchedKey(db, c.profiles, name, newDevices, k);
      assert Lookup(db, c.profiles, k).Some? ==> before[k] == Lookup(db, c.profiles, k).value;
    }
  }

  /** The device under the container's root key after any update, in terms of what gives it. */
  lemma KeyAfterUpdate(db: map<string, Devices>, c: Container, name: string, newDevices: Devices, key: string)
    requires AllKnown(db, c.profiles) && name in db && OnlyRoot(Expanded(db, c.profiles, c.local), key)
    ensures var after := Expanded(Replaced(db, name, newDevices), c.profiles, c.local);
            key in after && IsRootDisk(after[key])
            <==> key in c.local || GivesRoot(Replaced(db, name, newDevices), c.profiles, key)
  {
    var before := Expanded(db, c.profiles, c.local);
    LookupIsLast(Replaced(db, name, newDevices), c.profiles, key);
    if key in c.local {
      assert before[key] == c.local[key];
    }
  }

  /**
   The check protects the device under the profile's old root key only. After any update, passed or not looked at, a
   container that had one root disk still has just that one exactly when its key is its own or its last profile with
   the key gives a root disk, and under every other key the profile has before or after the update its last profile
   with that key gives no root disk, or a local device hides it.
   */
  lemma OneRootAfterUpdateIff(db: map<string, Devices>, c: Container, name: string, key: string, newDevices: Devices)
    requires AllKnown(db, c.profiles) && name in db && OnlyRoot(Expanded(db, c.profiles, c.local), key)
    ensures OnlyRoot(Expanded(Replaced(db, name, newDevices), c.profiles, c.local), key)
            <==> && (key in c.local || GivesRoot(Replaced(db, name, newDevices), c.profiles, key))
                 && forall k :: k in db[name].Keys + newDevices.Keys && k != key && k !in c.local ==>
                                  !GivesRoot(Replaced(db, name, newDevices), c.profiles, k)
  {
    var after := Expanded(Replaced(db, name, newDevices), c.profiles, c.local);
    KeyAfterUpdate(db, c, name, newDevices, key);
    forall k | k != key
      ensures k in after && IsRootDisk(after[k])
              <==> k !in c.local && k in db[name].Keys + newDevices.Keys
                   && GivesRoot(Replaced(db, name, newDevices), c.profiles, k)
    {
      RootAfterUpdate(db, c, name, newDevices, key, k);
    }
  }

  /** A container whose scan passed keeps its root disk under the old key, and so the first half of the condition. */
  lemma PassedScanKeepsRoot(db: map<string, Devices>, c: Container, name: string, key: string, newDevices: Devices)
    requires AllKnown(db, c.profiles) && name in db && key in db[name] && Scan(db, c.profiles, name, key).Passed?
    requires OnlyRoot(Expanded(db, c.profiles, c.local), key)
    ensures key in c.local || GivesRoot(Replaced(db, name, newDevices), c.profiles, key)
  {
    PassedUpdateKeepsDevice(db, c, name, key, newDevices);
    KeyAfterUpdate(db, c, name, newDevices, key);
  }

  lemma {:induction false} UnnamedIsNotFound(db: map<string, Devices>, profiles: seq<string>, name: string)
    requires AllKnown(db, profiles) && forall p :: p in db ==> "" !in db[p]
    ensures Scan(db, profiles, name, "").Passed?
  {
    if profiles != [] {
      UnnamedIsNotFound(db, profiles[..|profiles| - 1], name);
    }
  }

  /** Any update of a profile without a root disk passes the check, also one that gives it a root disk. */
  lemma NoRootAlwaysPasses(db: map<string, Devices>, containers: seq<Container>, name: string, after: Root)
    requires forall p :: p in db ==> "" !in db[p]
    requires forall i :: 0 <= i < |containers| ==>
               AllKnown(db, containers[i].profiles) && Enumerates(containers[i].order, containers[i].local)
    ensures Passes(db, containers, name, NO_ROOT, after)
  {
    forall i | 0 <= i < |containers|
      ensures VerdictOn(db, containers[i], name, "").Passed?
    {
      UnnamedIsNotFound(db, containers[i].profiles, name);
    }
  }

  /** The promise is about the old key only: a passed update can leave a container with two root disks. */
  lemma PassedUpdateMayAddSecondRoot()
    ensures var disk: Device := map["type" := "disk", "path" := "/", "pool" := "a"];
            var moved: Device := map["type" := "disk", "path" := "/", "pool" := "b"];
            var db: map<string, Devices> := map["p" := map["root" := disk], "q" := map["root" := disk]];
            var c := Container(["p", "q"], map[], []);
            var after := db["p" := map["disk0" := moved]];
            && Enumerates(c.order, c.local)
            && VerdictOn(db, c, "p", "root").Passed?
            && AllKnown(after, c.profiles)
            && var all := Expanded(after, c.profiles, c.local);
               "root" in all && "disk0" in all && IsRootDisk(all["root"]) && IsRootDisk(all["disk0"])
  {
    var disk: Device := map["type" := "disk", "path" := "/", "pool" := "a"];
    var moved: Device := map["type" := "disk", "path" := "/", "pool" := "b"];
    var db: map<string, Devices> := map["p" := map["root" := disk], "q" := map["root" := disk]];
    var after := db["p" := map["disk0" := moved]];
    var profiles := ["p", "q"];
    assert profiles[..1] == ["p"] && ["p"][..0] == [];
    assert Overlaid(after, ["p"]) == map["disk0" := moved];
    assert Overlaid(after, profiles) == map["disk0" := moved] + map["root" := disk];
    assert Scan(db, profiles, "p", "root") == Passed;
    var c := Container(["p", "q"], map[], []);
    assert Enumerates(c.order, c.local);
  }
}
