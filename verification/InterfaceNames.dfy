/** The search for a free ethN name for a container's network device. */
module InterfaceNames {
  import opened Prelude
  import opened Text

  type Device = map<string, string>

  function Get(d: Device, key: string): string {
    if key in d then d[key] else ""
  }

  // ----- names in use ----------------------------------------------------------------------------------------------

  /** strings.SplitN with a limit of three. */
  function SplitInThree(s: string, c: char): (fields: seq<string>)
    ensures 1 <= |fields| <= 3
  {
    if c !in s then [s]
    else
      var (first, rest) := Cut(s, c);
      if c !in rest then [first, rest]
      else
        var (second, third) := Cut(rest, c);
        [first, second, third]
  }

  predicate HasPrefix(s: string, p: string) {
    |p| <= |s| && s[..|p|] == p
  }

  /** Whether a configuration key is taken for the recorded name of a network device. */
  predicate IsNameKey(key: string) {
    HasPrefix(key, VOLATILE + ['.']) &&
    var fields := SplitInThree(key, '.');
    |fields| == 3 && fields[2] == NAME
  }

  const VOLATILE := "volatile"
  const NAME := "name"

  function NameKey(device: string): (r: string)
    ensures r == "volatile." + device + ".name"
  {
    assert VOLATILE + ['.'] + (device + ['.'] + NAME) == "volatile." + device + ".name";
    VOLATILE + ['.'] + (device + ['.'] + NAME)
  }

  lemma {:induction false} CutRejoins(s: string, c: char)
    requires c in s
    ensures var (before, after) := Cut(s, c); c !in before && s == before + [c] + after
  {
    if s[0] != c {
      CutRejoins(s[1..], c);
      assert s == [s[0]] + s[1..];
    }
  }

  lemma SplitAfterHead(head: string, rest: string, c: char)
    requires c !in head
    ensures SplitInThree(head + [c] + rest, c)
         == if c !in rest then [head, rest] else [head, Cut(rest, c).0, Cut(rest, c).1]
  {
    CutAtSeparator(head, rest, c);
    assert (head + [c] + rest)[|head|] == c;
  }

  /** Cutting off a tail without the separator leaves the tail exactly when the rest has no separator either. */
  lemma CutBeforeTailIff(middle: string, tail: string, c: char)
    requires c !in tail
    ensures c in middle + [c] + tail
    ensures Cut(middle + [c] + tail, c).1 == tail <==> c !in middle
  {
    assert (middle + [c] + tail)[|middle|] == c;
    if c in middle {
      CutRejoins(middle, c);
      var (before, after) := Cut(middle, c);
      var more := after + [c] + tail;
      assert middle + [c] + tail == before + [c] + more;
      CutAtSeparator(before, more, c);
      assert more[|after|] == c;
    } else {
      CutAtSeparator(middle, tail, c);
    }
  }

  /** The name key of a device is recognised exactly when the device's own name has no dot. */
  lemma NameKeyIff(device: string)
    ensures IsNameKey(NameKey(device)) <==> '.' !in device
  {
    var rest := device + ['.'] + NAME;
    assert NameKey(device)[..9] == VOLATILE + ['.'];
    SplitAfterHead(VOLATILE, rest, '.');
    CutBeforeTailIff(device, NAME, '.');
  }

  /** Every recognised key is the name key of a device. */
  lemma NameKeysAreNameKeys(key: string) returns (device: string)
    requires IsNameKey(key)
    ensures key == NameKey(device) && '.' !in device
  {
    var rest := key[9..];
    assert key == VOLATILE + ['.'] + rest;
    SplitAfterHead(VOLATILE, rest, '.');
    CutRejoins(rest, '.');
    device := Cut(rest, '.').0;
  }

  function StaticNames(devices: map<string, Device>, some: set<string>): set<string> {
    set d | d in some && d in devices && Get(devices[d], "name") != "" :: Get(devices[d], "name")
  }

  function RecordedNames(config: map<string, string>, some: set<string>): set<string> {
    set k | k in some && k in config && IsNameKey(k) :: config[k]
  }

  /** The names the search avoids: fixed by a device, recorded for one, or on an existing interface. */
  function Taken(devices: map<string, Device>, config: map<string, string>, existing: Option<seq<string>>): set<string> {
    StaticNames(devices, devices.Keys) + RecordedNames(config, config.Keys)
    + (if existing.Some? then Elements(existing.value) else {})
  }

  // ----- the search ------------------------------------------------------------------------------------------------

  function EthName(n: nat): string {
    "eth" + Itoa(n)
  }

  lemma EthNameInjective(m: nat, n: nat)
    requires EthName(m) == EthName(n)
    ensures m == n
  {
    assert EthName(m)[3..] == Itoa(m) && EthName(n)[3..] == Itoa(n);
    ItoaInjective(m, n);
  }

  /** The names eth0 to eth(i-1) are all taken. */
  predicate AllTaken(i: nat, taken: set<string>) {
    forall j :: 0 <= j < i ==> EthName(j) in taken
  }

  /** As many taken ethN names need as many taken names. */
  lemma TakenNamesBoundProbes(taken: set<string>, i: nat)
    requires AllTaken(i, taken)
    ensures i <= |taken|
  {
    var names := seq(i, j requires 0 <= j < i => EthName(j));
    forall j, k | 0 <= j < k < i
      ensures names[j] != names[k]
    {
      if EthName(j) == EthName(k) {
        EthNameInjective(j, k);
      }
    }
    DistinctFits(names, taken);
  }

  predicate IsFree(n: nat, taken: set<string>) {
    EthName(n) !in taken && AllTaken(n, taken)
  }

  /** The free name with the smallest number, found among the first |taken| + 1. */
  ghost predicate IsFirstFree(name: string, taken: set<string>) {
    exists n: nat :: n <= |taken| && name == EthName(n) && IsFree(n, taken)
  }

  method Add(names: seq<string>, name: string) returns (r: seq<string>)
    requires Distinct(names)
    ensures Distinct(r) && Elements(r) == Elements(names) + {name}
  {
    if name in names {
      assert name in Elements(names);
      return names;
    }
    return names + [name];
  }

  method CollectStatic(devices: map<string, Device>) returns (names: seq<string>)
    ensures Distinct(names) && Elements(names) == StaticNames(devices, devices.Keys)
  {
    names := [];
    var todo := devices.Keys;
    while todo != {}
      invariant Distinct(names) && todo <= devices.Keys
      invariant Elements(names) == StaticNames(devices, devices.Keys - todo)
    {
      ghost var some := SomeElement(todo);
      var d :| d in todo;
      if Get(devices[d], "name") != "" {
        names := Add(names, Get(devices[d], "name"));
      }
      todo := todo - {d};
    }
    assert devices.Keys - todo == devices.Keys;
  }

  method CollectRecorded(config: map<string, string>, names: seq<string>) returns (r: seq<string>)
    requires Distinct(names)
    ensures Distinct(r) && Elements(r) == Elements(names) + RecordedNames(config, config.Keys)
  {
    r := names;
    var todo := config.Keys;
    while todo != {}
      invariant Distinct(r) && todo <= config.Keys
      invariant Elements(r) == Elements(names) + RecordedNames(config, config.Keys - todo)
    {
      ghost var some := SomeElement(todo);
      var k :| k in todo;
      if IsNameKey(k) {
        r := Add(r, config[k]);
      }
      todo := todo - {k};
    }
    assert config.Keys - todo == config.Keys;
  }

  method CollectExisting(existing: seq<string>, names: seq<string>) returns (r: seq<string>)
    requires Distinct(names)
    ensures Distinct(r) && Elements(r) == Elements(names) + Elements(existing)
  {
    r := names;
    for i := 0 to |existing|
      invariant Distinct(r)
      invariant Elements(r) == Elements(names) + Elements(existing[..i])
    {
      r := Add(r, existing[i]);
    }
    assert existing[..|existing|] == existing;
  }

  method Collect(devices: map<string, Device>, config: map<string, string>, existing: Option<seq<string>>)
    returns (names: seq<string>)
    ensures Distinct(names) && Elements(names) == Taken(devices, config, existing)
  {
    names := CollectStatic(devices);
    names := CollectRecorded(config, names);
    if existing.Some? {
      names := CollectExisting(existing.value, names);
    }
  }

  /** The search has no bound of its own, and still ends: with the smallest free number. */
  method FindFree(names: seq<string>) returns (name: string)
    ensures IsFirstFree(name, Elements(names))
  {
    var i := 0;
    TakenNamesBoundProbes(Elements(names), 0);
    while true
      invariant 0 <= i <= |Elements(names)| && AllTaken(i, Elements(names))
      decreases |Elements(names)| - i
    {
      name := EthName(i);
      if name !in names {
        assert IsFree(i, Elements(names));
        return name;
      }
      TakenNamesBoundProbes(Elements(names), i + 1);
      i := i + 1;
    }
  }

  method NextInterfaceName(devices: map<string, Device>, config: map<string, string>, existing: Option<seq<string>>)
    returns (name: string)
    ensures IsFirstFree(name, Taken(devices, config, existing))
    ensures exists n: nat :: name == "eth" + Itoa(n)
    ensures forall d :: d in devices && "name" in devices[d] && devices[d]["name"] != "" ==> devices[d]["name"] != name
    ensures forall d :: '.' !in d && NameKey(d) in config ==> config[NameKey(d)] != name
    ensures existing.Some? ==> name !in existing.value
  {
    var names := Collect(devices, config, existing);
    name := FindFree(names);
    NamesInUseAreTaken(devices, config, existing);
    SomeEthName(name, Taken(devices, config, existing));
  }

  /** Every name fixed by a device, recorded for one without a dot in its name, or on an interface is avoided. */
  lemma NamesInUseAreTaken(devices: map<string, Device>, config: map<string, string>, existing: Option<seq<string>>)
    ensures forall d :: d in devices && "name" in devices[d] && devices[d]["name"] != "" ==>
              devices[d]["name"] in Taken(devices, config, existing)
    ensures forall d :: '.' !in d && NameKey(d) in config ==> config[NameKey(d)] in Taken(devices, config, existing)
    ensures existing.Some? ==> forall s :: s in existing.value ==> s in Taken(devices, config, existing)
  {
    forall d | d in devices && "name" in devices[d] && devices[d]["name"] != ""
      ensures devices[d]["name"] in Taken(devices, config, existing)
    {
      assert Get(devices[d], "name") in StaticNames(devices, devices.Keys);
    }
    forall d | '.' !in d && NameKey(d) in config
      ensures config[NameKey(d)] in Taken(devices, config, existing)
    {
      RecordedNameAvoided(devices, config, existing, d);
    }
  }

  lemma SomeEthName(name: string, taken: set<string>)
    requires IsFirstFree(name, taken)
    ensures name !in taken && exists n: nat :: name == "eth" + Itoa(n)
  {
    var n: nat :| n <= |taken| && name == EthName(n) && IsFree(n, taken);
    assert name == "eth" + Itoa(n);
  }

  /** Nothing but the names in use is avoided: any free name with a smaller number would have been taken. */
  lemma OnlyNamesInUseAreAvoided(devices: map<string, Device>, config: map<string, string>, existing: Option<seq<string>>,
                                 s: string)
    requires forall d :: d in devices && "name" in devices[d] ==> devices[d]["name"] != s || s == ""
    requires forall k :: k in config && config[k] == s ==> forall d :: k != NameKey(d)
    requires existing.Some? ==> s !in existing.value
    ensures s !in Taken(devices, config, existing)
  {
    forall k | k in config && IsNameKey(k)
      ensures config[k] != s
    {
      var d := NameKeysAreNameKeys(k);
      assert k == NameKey(d);
    }
  }

  /** The answer is determined: at most one name is the first free one. */
  lemma FirstFreeIsUnique(a: string, b: string, taken: set<string>)
    requires IsFirstFree(a, taken) && IsFirstFree(b, taken)
    ensures a == b
  {
    var m: nat :| m <= |taken| && a == EthName(m) && IsFree(m, taken);
    var n: nat :| n <= |taken| && b == EthName(n) && IsFree(n, taken);
    assert m >= n;
    assert n >= m;
  }

  /** The name recorded for a device is avoided, when there is no dot in the device's name. */
  lemma RecordedNameAvoided(devices: map<string, Device>, config: map<string, string>, existing: Option<seq<string>>,
                            device: string)
    requires '.' !in device
    ensures NameKey(device) in config ==> config[NameKey(device)] in Taken(devices, config, existing)
  {
    NameKeyIff(device);
  }

  /** With a dot in the device's name the recorded name is handed out again. */
  lemma DottedDeviceIsMissed(device: string)
    requires '.' in device
    ensures IsFirstFree("eth0", Taken(map[], map[NameKey(device) := "eth0"], None))
  {
    NameKeyIff(device);
    var taken := Taken(map[], map[NameKey(device) := "eth0"], None);
    assert Digits(0) == ['0'];
    assert EthName(0) == "eth0";
    assert taken == {};
    assert IsFree(0, taken);
  }
}
