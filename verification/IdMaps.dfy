/**
 Id maps: how an id moves into a container and out again, the test for conflicting entries and what it misses, and the
 raw entries laid over a container's map.
 */
module IdMaps {
  import opened Prelude

  // ----- id maps ---------------------------------------------------------------------------------------------------

  datatype Kind = Uid | Gid

  datatype Direction = In | Out

  datatype Entry = Entry(isuid: bool, isgid: bool, hostid: int, nsid: int, maprange: int)

  /** A missing map and an empty one are the same to the daemon: both are the empty list. */
  type Idmap = seq<Entry>

  predicate IsOf(e: Entry, kind: Kind) {
    if kind.Uid? then e.isuid else e.isgid
  }

  predicate InRange(start: int, count: int, id: int) {
    start <= id < start + count
  }

  predicate Applies(e: Entry, kind: Kind, how: Direction, id: int) {
    IsOf(e, kind) && InRange(if how.In? then e.nsid else e.hostid, e.maprange, id)
  }

  function Move(e: Entry, how: Direction, id: int): int {
    if how.In? then id - e.nsid + e.hostid else id - e.hostid + e.nsid
  }

  /** What the map makes of an id: -1 stands for "no entry applies", and an entry that yields -1 is passed over. */
  function Convert(m: Idmap, kind: Kind, how: Direction, id: int): int {
    if m == [] then -1
    else if Applies(m[0], kind, how, id) && Move(m[0], how, id) != -1 then Move(m[0], how, id)
    else Convert(m[1..], kind, how, id)
  }

  /** doShiftIntoNs: one pass over the entries for the uid and the gid together. */
  method ShiftIds(m: Idmap, uid: int, gid: int, how: Direction) returns (u: int, g: int)
    ensures u == Convert(m, Uid, how, uid)
    ensures g == Convert(m, Gid, how, gid)
  {
    u, g := -1, -1;
    for i := 0 to |m|
      invariant Convert(m, Uid, how, uid) == if u != -1 then u else Convert(m[i..], Uid, how, uid)
      invariant Convert(m, Gid, how, gid) == if g != -1 then g else Convert(m[i..], Gid, how, gid)
    {
      var e := m[i];
      assert m[i..][0] == e && m[i..][1..] == m[i + 1..];
      if e.isuid && u == -1 && Applies(e, Uid, how, uid) {
        u := Move(e, how, uid);
      }
      if e.isgid && g == -1 && Applies(e, Gid, how, gid) {
        g := Move(e, how, gid);
      }
    }
  }

  /** Changing an owner to -1 leaves it as it is. */
  function NewId(m: Idmap, kind: Kind, how: Direction, id: int): int {
    var c := Convert(m, kind, how, id);
    if c == -1 then id else c
  }

  predicate Overlap(a: int, n: int, b: int, k: int) {
    n > 0 && k > 0 && a < b + k && b < a + n
  }

  predicate SameKind(e: Entry, f: Entry) {
    (e.isuid && f.isuid) || (e.isgid && f.isgid)
  }

  /** Both entries move ids by the same amount: where they overlap they say the same. */
  predicate SameMove(e: Entry, f: Entry) {
    e.hostid - e.nsid == f.hostid - f.nsid
  }

  predicate Clash(e: Entry, f: Entry) {
    && SameKind(e, f) && !SameMove(e, f)
    && (Overlap(e.hostid, e.maprange, f.hostid, f.maprange) || Overlap(e.nsid, e.maprange, f.nsid, f.maprange))
  }

  /** No id of either side is mapped in two ways, and no id is negative. */
  predicate WellFormed(m: Idmap) {
    && (forall e :: e in m ==> e.hostid >= 0 && e.nsid >= 0)
    && (forall e, f :: e in m && f in m ==> !Clash(e, f))
  }

  lemma {:induction false} Match(m: Idmap, kind: Kind, how: Direction, id: int) returns (k: nat)
    requires WellFormed(m) && Convert(m, kind, how, id) != -1
    ensures k < |m| && Applies(m[k], kind, how, id) && Convert(m, kind, how, id) == Move(m[k], how, id)
  {
    if Applies(m[0], kind, how, id) {
      k := 0;
    } else {
      k := Match(m[1..], kind, how, id);
      k := k + 1;
    }
  }

  /** All entries that apply to an id say the same, wherever they stand in the list. */
  lemma {:induction false} OnlyMatch(m: Idmap, kind: Kind, how: Direction, id: int, k: nat)
    requires WellFormed(m) && k < |m| && Applies(m[k], kind, how, id)
    ensures Convert(m, kind, how, id) == Move(m[k], how, id) >= 0
  {
    if k > 0 {
      assert !Clash(m[0], m[k]);
      OnlyMatch(m[1..], kind, how, id, k - 1);
    }
  }

  /** Moving `y` out gives `x` exactly when the map moves `x` in to `y`, or they are one id outside every host range. */
  lemma OutGives(m: Idmap, kind: Kind, x: int, y: int)
    requires WellFormed(m) && x >= 0 && y >= 0
    ensures NewId(m, kind, Out, y) == x
            <==> Convert(m, kind, In, x) == y || (x == y && Convert(m, kind, Out, x) == -1)
  {
    if Convert(m, kind, Out, y) != -1 {
      var k := Match(m, kind, Out, y);
      OnlyMatch(m, kind, In, Move(m[k], Out, y), k);
    }
    if Convert(m, kind, In, x) != -1 {
      var k := Match(m, kind, In, x);
      OnlyMatch(m, kind, Out, Move(m[k], In, x), k);
    }
  }

  /** The map loses no track of this id: it maps it, or no host id of the map is the same number. */
  predicate Traced(m: Idmap, kind: Kind, id: int) {
    Convert(m, kind, In, id) != -1 || Convert(m, kind, Out, id) == -1
  }

  lemma ConvertedIsAnId(m: Idmap, kind: Kind, how: Direction, id: int)
    requires WellFormed(m) && id >= 0
    ensures NewId(m, kind, how, id) >= 0
  {
    if Convert(m, kind, how, id) != -1 {
      var k := Match(m, kind, how, id);
    }
  }

  /** Unshifting undoes shifting on exactly the traced ids. */
  lemma OutUndoesInIff(m: Idmap, kind: Kind, id: int)
    requires WellFormed(m) && id >= 0
    ensures NewId(m, kind, Out, NewId(m, kind, In, id)) == id <==> Traced(m, kind, id)
  {
    ConvertedIsAnId(m, kind, In, id);
    OutGives(m, kind, id, NewId(m, kind, In, id));
  }

  // ----- the conflict test for raw maps ----------------------------------------------------------------------------

  predicate IsBetween(x: int, low: int, high: int) {
    low <= x < high
  }

  /** The four comparisons of IdmapEntry.Intersects on one pair of ranges. */
  predicate Detected(a: int, n: int, b: int, k: int) {
    || IsBetween(a, b, b + k - 1)
    || IsBetween(b, a, a + n - 1)
    || IsBetween(a + n - 1, b, b + k - 1)
    || IsBetween(b + k - 1, a, a + n - 1)
  }

  predicate Intersects(e: Entry, f: Entry) {
    && SameKind(e, f)
    && (Detected(e.hostid, e.maprange, f.hostid, f.maprange) || Detected(e.nsid, e.maprange, f.nsid, f.maprange))
  }

  /** One of the ranges is a single id, the last one of the other. */
  predicate OnlyTheLastId(a: int, n: int, b: int, k: int) {
    (n == 1 && k >= 1 && a == b + k - 1) || (k == 1 && n >= 1 && b == a + n - 1)
  }

  /** The comparisons miss an overlap exactly when it is a single-id range on the other's last id. */
  lemma OverlapMissedIff(a: int, n: int, b: int, k: int)
    ensures Overlap(a, n, b, k) && !Detected(a, n, b, k) <==> OnlyTheLastId(a, n, b, k)
  {
    if Overlap(a, n, b, k) && !Detected(a, n, b, k) {
      assert n == 1 || k == 1;
    }
  }

  /** The test for intersection misses that the two map an id in two ways. */
  predicate MissedBy(e: Entry, f: Entry) {
    && SameKind(e, f) && !SameMove(e, f)
    && (OnlyTheLastId(e.hostid, e.maprange, f.hostid, f.maprange) || OnlyTheLastId(e.nsid, e.maprange, f.nsid, f.maprange))
  }

  /** Two entries the test lets pass clash exactly in its gap. */
  lemma PassedClashIff(e: Entry, f: Entry)
    requires !Intersects(e, f)
    ensures Clash(e, f) <==> MissedBy(e, f)
  {
    OverlapMissedIff(e.hostid, e.maprange, f.hostid, f.maprange);
    OverlapMissedIff(e.nsid, e.maprange, f.nsid, f.maprange);
  }

  predicate Accepts(m: Idmap, e: Entry) {
    forall i :: 0 <= i < |m| ==> !Intersects(e, m[i])
  }

  /** IdmapSet.Append: refused when some entry intersects. */
  method Append(m: Idmap, e: Entry) returns (r: Option<Idmap>)
    ensures r == if Accepts(m, e) then Some(m + [e]) else None
  {
    var i := 0;
    while i < |m|
      invariant 0 <= i <= |m|
      invariant forall k :: 0 <= k < i ==> !Intersects(e, m[k])
    {
      if Intersects(e, m[i]) {
        return None;
      }
      i := i + 1;
    }
    return Some(m + [e]);
  }

  /** An accepted entry keeps the map free of clashes exactly when it falls in none of the gaps of the test. */
  lemma AppendKeepsWellFormedIff(m: Idmap, e: Entry)
    requires WellFormed(m) && e.hostid >= 0 && e.nsid >= 0 && Accepts(m, e)
    ensures WellFormed(m + [e]) <==> forall f :: f in m ==> !MissedBy(e, f)
  {
    var n := m + [e];
    assert forall f :: f in n <==> f in m || f == e;
    forall f | f in m
      ensures Clash(e, f) <==> MissedBy(e, f)
      ensures Clash(e, f) <==> Clash(f, e)
    {
      PassedClashIff(e, f);
    }
    if WellFormed(n) {
      assert forall f :: f in m ==> !Clash(e, f);
    }
  }

  // ----- laying a raw entry over a map -----------------------------------------------------------------------------

  /** IdmapEntry.HostidsIntersect; ranges that touch count as intersecting. */
  predicate HostidsIntersect(e: Entry, f: Entry) {
    && SameKind(e, f)
    && (|| IsBetween(e.hostid, f.hostid, f.hostid + f.maprange)
        || IsBetween(f.hostid, e.hostid, e.hostid + e.maprange)
        || IsBetween(e.hostid + e.maprange, f.hostid, f.hostid + f.maprange)
        || IsBetween(f.hostid + f.maprange, e.hostid, e.hostid + e.maprange))
  }

  /** The host ranges do not overlap, but one ends where the other begins. */
  predicate HostsTouch(e: Entry, f: Entry) {
    e.hostid + e.maprange == f.hostid || f.hostid + f.maprange == e.hostid
  }

  /** Two non-empty ranges are taken to intersect without a common host id exactly when they touch. */
  lemma RefusedWithoutCommonHostIff(e: Entry, f: Entry)
    requires SameKind(e, f) && e.maprange >= 1 && f.maprange >= 1
    ensures HostidsIntersect(e, f) <==> Overlap(e.hostid, e.maprange, f.hostid, f.maprange) || HostsTouch(e, f)
    ensures HostsTouch(e, f) ==> !Overlap(e.hostid, e.maprange, f.hostid, f.maprange)
  {
  }

  /** What is left of an entry below the new one. */
  function Lower(e: Entry, new': Entry): Entry {
    e.(maprange := new'.nsid - e.nsid)
  }

  /** What is left of it above. */
  function Upper(e: Entry, new': Entry): Entry {
    var lower := new'.nsid - e.nsid;
    e.(hostid := e.hostid + lower + new'.maprange, nsid := new'.nsid + new'.maprange,
       maprange := e.maprange - new'.maprange - lower)
  }

  function NonEmpty(e: Entry): seq<Entry> {
    if e.maprange > 0 then [e] else []
  }

  function Parts(e: Entry, new': Entry): seq<Entry> {
    NonEmpty(Lower(e, new')) + [new'] + NonEmpty(Upper(e, new'))
  }

  /** The host ids of the new entry are already mapped by an entry it intersects. */
  predicate Refuses(m: Idmap, new': Entry) {
    exists e :: e in m && Intersects(e, new') && HostidsIntersect(e, new')
  }

  /** Every entry the new one intersects is broken apart around it. */
  function Broken(m: Idmap, new': Entry): Idmap {
    if m == [] then []
    else
      var last := m[|m| - 1];
      Broken(m[..|m| - 1], new') + if Intersects(last, new') then Parts(last, new') else [last]
  }

  predicate Touches(m: Idmap, new': Entry) {
    exists e :: e in m && Intersects(e, new')
  }

  function Laid(m: Idmap, new': Entry): Idmap {
    if Touches(m, new') then Broken(m, new') else m + [new']
  }

  lemma BreakNext(m: Idmap, k: nat, new': Entry)
    requires k < |m|
    ensures Broken(m[..k + 1], new')
         == Broken(m[..k], new') + if Intersects(m[k], new') then Parts(m[k], new') else [m[k]]
    ensures Touches(m[..k + 1], new') <==> Touches(m[..k], new') || Intersects(m[k], new')
    ensures Refuses(m[..k + 1], new')
            <==> Refuses(m[..k], new') || (Intersects(m[k], new') && HostidsIntersect(m[k], new'))
    ensures Refuses(m[..k + 1], new') ==> Refuses(m, new')
  {
    assert m[..k + 1][..k] == m[..k];
    assert m[..k + 1] == m[..k] + [m[k]];
  }

  /** IdmapSet.AddSafe; an error leaves the map alone. */
  method AddSafe(m: Idmap, new': Entry) returns (r: Option<Idmap>)
    ensures r == if Refuses(m, new') then None else Some(Laid(m, new'))
    ensures (forall e :: e in m ==> !Intersects(e, new')) ==> r == Some(m + [new'])
  {
    var result: Idmap := [];
    var added := false;
    for k := 0 to |m|
      invariant !Refuses(m[..k], new') && (added <==> Touches(m[..k], new'))
      invariant result == Broken(m[..k], new') && (!added ==> result == m[..k])
    {
      var e := m[k];
      BreakNext(m, k, new');
      if !Intersects(e, new') {
        result := result + [e];
        continue;
      }
      if HostidsIntersect(e, new') {
        return None;
      }
      added := true;
      result := result + Parts(e, new');
    }
    assert m[..|m|] == m;
    if !added {
      result := result + [new'];
    }
    return Some(result);
  }

  /** An entry of the result other than the new one comes from an entry of the map, whole or in part. */
  predicate Piece(f: Entry, e: Entry, new': Entry) {
    if Intersects(e, new') then f in NonEmpty(Lower(e, new')) + NonEmpty(Upper(e, new')) else f == e
  }

  predicate Accounted(f: Entry, m: Idmap, new': Entry) {
    (f == new' && Touches(m, new')) || exists e :: e in m && Piece(f, e, new')
  }

  lemma {:induction false} BrokenHas(m: Idmap, new': Entry)
    ensures forall f :: f in Broken(m, new') ==> Accounted(f, m, new')
    ensures forall e, f :: e in m && Piece(f, e, new') ==> f in Broken(m, new')
    ensures Touches(m, new') ==> new' in Broken(m, new')
  {
    if m != [] {
      var front, last := m[..|m| - 1], m[|m| - 1];
      BrokenHas(front, new');
      assert m == front + [last];
      forall f | f in Broken(m, new')
        ensures Accounted(f, m, new')
      {
        if f in Broken(front, new') {
          assert Accounted(f, front, new');
          if !(f == new' && Touches(front, new')) {
            var e :| e in front && Piece(f, e, new');
            assert e in m;
          }
        } else if f == new' && Intersects(last, new') {
          assert last in m;
        } else {
          assert last in m && Piece(f, last, new');
        }
      }
    }
  }

  lemma LaidHas(m: Idmap, new': Entry)
    ensures new' in Laid(m, new')
    ensures forall f :: f in Laid(m, new') ==> f == new' || exists e :: e in m && Piece(f, e, new')
    ensures forall e, f :: e in m && Piece(f, e, new') ==> f in Laid(m, new')
  {
    BrokenHas(m, new');
    if !Touches(m, new') {
      forall f | f in m
        ensures Piece(f, f, new')
      {
      }
    }
  }

  /** A piece moves ids as its entry does, holds no other ids, and none of the new entry's when it was broken off. */
  lemma PieceIsPart(f: Entry, e: Entry, new': Entry)
    requires Piece(f, e, new') && new'.maprange >= 0 && (Intersects(e, new') ==> !HostidsIntersect(e, new'))
    ensures SameMove(f, e) && f.isuid == e.isuid && f.isgid == e.isgid
    ensures f == e || (f.maprange > 0 && e.nsid <= f.nsid && f.nsid + f.maprange <= e.nsid + e.maprange)
    ensures Intersects(e, new') ==> !Clash(f, new')
    ensures Intersects(e, new') ==> !Overlap(f.nsid, f.maprange, new'.nsid, new'.maprange)
  {
  }

  /** An id outside the new entry keeps a piece of the entry that holds it. */
  lemma OutsideKeepsPiece(e: Entry, new': Entry, kind: Kind, id: int) returns (f: Entry)
    requires Applies(e, kind, In, id) && new'.maprange >= 0
    requires !Intersects(e, new') || !InRange(new'.nsid, new'.maprange, id)
    ensures Piece(f, e, new') && Applies(f, kind, In, id) && Move(f, In, id) == Move(e, In, id)
  {
    if !Intersects(e, new') {
      f := e;
    } else if id < new'.nsid {
      f := Lower(e, new');
    } else {
      f := Upper(e, new');
    }
  }

  lemma PiecesDoNotClash(f: Entry, g: Entry, d: Entry, e: Entry, new': Entry)
    requires Piece(f, d, new') && Piece(g, e, new') && new'.maprange >= 0 && !Clash(d, e)
    requires Intersects(d, new') ==> !HostidsIntersect(d, new')
    requires Intersects(e, new') ==> !HostidsIntersect(e, new')
    ensures !Clash(f, g)
  {
    PieceIsPart(f, d, new');
    PieceIsPart(g, e, new');
  }

  /**
   Laying an entry over a map that does not refuse it keeps the map free of clashes exactly when the test for
   intersection misses no clash with it.
   */
  lemma AddSafeKeepsWellFormedIff(m: Idmap, new': Entry)
    requires WellFormed(m) && new'.hostid >= 0 && new'.nsid >= 0 && new'.maprange >= 0 && !Refuses(m, new')
    ensures WellFormed(Laid(m, new')) <==> forall e :: e in m ==> Intersects(e, new') || !MissedBy(e, new')
  {
    LaidHas(m, new');
    var r := Laid(m, new');
    forall e | e in m && !Intersects(e, new')
      ensures Clash(e, new') <==> MissedBy(e, new')
      ensures e in r
    {
      PassedClashIff(e, new');
      assert Piece(e, e, new');
    }
    if forall e :: e in m ==> Intersects(e, new') || !MissedBy(e, new') {
      forall f | f in r
        ensures f.hostid >= 0 && f.nsid >= 0 && !Clash(f, new') && !Clash(new', f)
      {
        if f != new' {
          var e :| e in m && Piece(f, e, new');
          PieceIsPart(f, e, new');
        }
      }
      forall f, g | f in r && g in r
        ensures !Clash(f, g)
      {
        if f != new' && g != new' {
          var d :| d in m && Piece(f, d, new');
          var e :| e in m && Piece(g, e, new');
          PiecesDoNotClash(f, g, d, e, new');
        }
      }
    }
  }

  /** Some entry maps the id, and is whole or was broken elsewhere. */
  predicate Survives(m: Idmap, new': Entry, kind: Kind, id: int) {
    exists e :: e in m && Applies(e, kind, In, id) && (!Intersects(e, new') || !InRange(new'.nsid, new'.maprange, id))
  }

  lemma EntryDecides(m: Idmap, kind: Kind, id: int, e: Entry)
    requires WellFormed(m) && e in m && Applies(e, kind, In, id)
    ensures Convert(m, kind, In, id) == Move(e, In, id)
  {
    var k :| 0 <= k < |m| && m[k] == e;
    OnlyMatch(m, kind, In, id, k);
  }

  /**
   The new entry takes precedence for its own kinds, every other id keeps what it had, and an id inside the new entry
   loses a mapping of a kind the new entry is not of, if it came from an entry that was broken for another kind.
   */
  lemma AddSafeGivesPrecedence(m: Idmap, new': Entry, kind: Kind, id: int)
    requires WellFormed(m) && new'.maprange >= 0 && !Refuses(m, new') && WellFormed(Laid(m, new'))
    ensures Convert(Laid(m, new'), kind, In, id)
         == if Applies(new', kind, In, id) then Move(new', In, id)
            else if Survives(m, new', kind, id) then Convert(m, kind, In, id)
            else -1
  {
    LaidHas(m, new');
    var r := Laid(m, new');
    if Applies(new', kind, In, id) {
      EntryDecides(r, kind, id, new');
    } else if Survives(m, new', kind, id) {
      var e :| e in m && Applies(e, kind, In, id) && (!Intersects(e, new') || !InRange(new'.nsid, new'.maprange, id));
      var f := OutsideKeepsPiece(e, new', kind, id);
      EntryDecides(m, kind, id, e);
      EntryDecides(r, kind, id, f);
    } else {
      forall f | f in r
        ensures !Applies(f, kind, In, id)
      {
        if f != new' {
          var e :| e in m && Piece(f, e, new');
          PieceIsPart(f, e, new');
          assert Applies(f, kind, In, id) ==> Applies(e, kind, In, id);
        }
      }
      NoneApplies(r, kind, In, id);
    }
  }

  lemma {:induction false} NoneApplies(m: Idmap, kind: Kind, how: Direction, id: int)
    requires forall f :: f in m ==> !Applies(f, kind, how, id)
    ensures Convert(m, kind, how, id) == -1
  {
    if m != [] {
      NoneApplies(m[1..], kind, how, id);
    }
  }

  /** In plain numbers: a uid entry moves the uids of its range, into the container and out of it, and no gids. */
  lemma UidEntryMoves(m: Idmap, e: Entry, id: int)
    requires WellFormed(m) && e in m && e.isuid
    ensures e.nsid <= id < e.nsid + e.maprange ==> Convert(m, Uid, In, id) == e.hostid + (id - e.nsid)
    ensures e.hostid <= id < e.hostid + e.maprange ==> Convert(m, Uid, Out, id) == e.nsid + (id - e.hostid)
  {
    var k :| 0 <= k < |m| && m[k] == e;
    if e.nsid <= id < e.nsid + e.maprange {
      OnlyMatch(m, Uid, In, id, k);
    }
    if e.hostid <= id < e.hostid + e.maprange {
      OnlyMatch(m, Uid, Out, id, k);
    }
  }

  lemma GidEntryMoves(m: Idmap, e: Entry, id: int)
    requires WellFormed(m) && e in m && e.isgid
    ensures e.nsid <= id < e.nsid + e.maprange ==> Convert(m, Gid, In, id) == e.hostid + (id - e.nsid)
    ensures e.hostid <= id < e.hostid + e.maprange ==> Convert(m, Gid, Out, id) == e.nsid + (id - e.hostid)
  {
    var k :| 0 <= k < |m| && m[k] == e;
    if e.nsid <= id < e.nsid + e.maprange {
      OnlyMatch(m, Gid, In, id, k);
    }
    if e.hostid <= id < e.hostid + e.maprange {
      OnlyMatch(m, Gid, Out, id, k);
    }
  }

  /** What no entry of the kind holds is not moved. */
  lemma UnmappedStays(m: Idmap, id: int)
    ensures (forall e :: e in m && e.isuid ==> !(e.nsid <= id < e.nsid + e.maprange)) ==> NewId(m, Uid, In, id) == id
    ensures (forall e :: e in m && e.isuid ==> !(e.hostid <= id < e.hostid + e.maprange)) ==> NewId(m, Uid, Out, id) == id
    ensures (forall e :: e in m && e.isgid ==> !(e.nsid <= id < e.nsid + e.maprange)) ==> NewId(m, Gid, In, id) == id
    ensures (forall e :: e in m && e.isgid ==> !(e.hostid <= id < e.hostid + e.maprange)) ==> NewId(m, Gid, Out, id) == id
  {
    forall kind, how | forall e :: e in m ==> !Applies(e, kind, how, id)
      ensures NewId(m, kind, how, id) == id
    {
      NoneApplies(m, kind, how, id);
    }
  }

  /** The map of an unprivileged container before its raw lines: one entry for each kind. */
  function Plain(hostid: int, size: int): Idmap {
    [Entry(true, false, hostid, 0, size), Entry(false, true, hostid, 0, size)]
  }

  /** findIdmap lays the raw entries over the plain map in turn, and ignores those that are refused. */
  method AddRaw(m: Idmap, raw: seq<Entry>) returns (r: Idmap)
    ensures r == WithRaw(m, raw)
  {
    r := m;
    for k := 0 to |raw|
      invariant r == WithRaw(m, raw[..k])
    {
      var next := AddSafe(r, raw[k]);
      if next.Some? {
        r := next.value;
      }
      assert raw[..k + 1][..k] == raw[..k];
    }
    assert raw[..|raw|] == raw;
  }

  function WithRaw(m: Idmap, raw: seq<Entry>): Idmap {
    if raw == [] then m
    else
      var before := WithRaw(m, raw[..|raw| - 1]);
      if Refuses(before, raw[|raw| - 1]) then before else Laid(before, raw[|raw| - 1])
  }

  /** Entry by entry: a refused one leaves what was laid before it. */
  lemma RefusedLineIsIgnored(m: Idmap, raw: seq<Entry>, new': Entry)
    ensures WithRaw(m, []) == m
    ensures Refuses(WithRaw(m, raw), new') ==> WithRaw(m, raw + [new']) == WithRaw(m, raw)
    ensures !Refuses(WithRaw(m, raw), new') ==> WithRaw(m, raw + [new']) == Laid(WithRaw(m, raw), new')
  {
    assert (raw + [new'])[..|raw|] == raw;
  }

  /**
   A raw line for a single id of both kinds, from a host id well away from the container's range, gives a well-formed
   map exactly when it is not for the last id of the container.
   */
  lemma RawLineIsWellFormedIff(hostid: int, size: int, host: int, id: int)
    requires hostid >= 0 && size >= 2 && host >= 0 && 0 <= id < size
    requires host + 1 < hostid || host > hostid + size
    ensures WellFormed(WithRaw(Plain(hostid, size), [Entry(true, true, host, id, 1)])) <==> id != size - 1
  {
    var m, new' := Plain(hostid, size), Entry(true, true, host, id, 1);
    assert [new'][..0] == [];
    assert WithRaw(m, []) == m;
    assert m[0] in m && m[1] in m;
    forall e | e in m
      ensures Intersects(e, new') <==> id != size - 1
      ensures MissedBy(e, new') <==> id == size - 1
      ensures !HostidsIntersect(e, new')
    {
    }
    AddSafeKeepsWellFormedIff(m, new');
  }

  /** A raw line for one uid moves that uid, keeps the other uids, and touches no gid. */
  lemma RawUidLine(hostid: int, size: int, host: int, id: int, x: int)
    requires hostid >= 0 && host >= 0 && 0 <= id < size - 1 && 0 <= x < size
    requires host + 1 < hostid || host > hostid + size
    ensures var m := WithRaw(Plain(hostid, size), [Entry(true, false, host, id, 1)]);
            && Convert(m, Uid, In, x) == (if x == id then host else hostid + x)
            && Convert(m, Gid, In, x) == hostid + x
  {
    var m, new' := Plain(hostid, size), Entry(true, false, host, id, 1);
    assert [new'][..0] == [] && WithRaw(m, []) == m;
    assert m[0] in m && m[1] in m;
    assert Intersects(m[0], new') && !Intersects(m[1], new') && !HostidsIntersect(m[0], new');
    AddSafeKeepsWellFormedIff(m, new');
    AddSafeGivesPrecedence(m, new', Uid, x);
    AddSafeGivesPrecedence(m, new', Gid, x);
    UidEntryMoves(m, m[0], x);
    GidEntryMoves(m, m[1], x);
  }

  /** The map keeps track of every id the container's files use. */
  ghost predicate Suits(m: Idmap, ids: set<int>) {
    WellFormed(m) && forall kind, id :: id in ids ==> Traced(m, kind, id)
  }

  /** Such a map with a raw line for a single id keeps track of every id of the container. */
  lemma RawMapSuits(hostid: int, size: int, host: int, id: int, ids: set<int>)
    requires hostid >= 0 && size >= 2 && host >= 0 && 0 <= id < size - 1
    requires host + 1 < hostid || host > hostid + size
    requires forall x :: x in ids ==> 0 <= x < size
    ensures Suits(WithRaw(Plain(hostid, size), [Entry(true, true, host, id, 1)]), ids)
  {
    var m, new' := Plain(hostid, size), Entry(true, true, host, id, 1);
    RawLineIsWellFormedIff(hostid, size, host, id);
    assert [new'][..0] == [] && WithRaw(m, []) == m;
    assert !Refuses(m, new') && WellFormed(m);
    forall kind, x | x in ids
      ensures Convert(Laid(m, new'), kind, In, x) != -1
    {
      var e := m[if kind.Uid? then 0 else 1];
      assert e in m && Applies(e, kind, In, x);
      EntryDecides(m, kind, x, e);
      AddSafeGivesPrecedence(m, new', kind, x);
    }
  }
}
