/** CPU set strings such as "0-3,8": parseCpuset, and the comma-joined form the balancer prints. */
module Cpuset {
  import opened Prelude
  import opened Text

  /** The ids low, low + 1, .. high; none when high < low. */
  function Span(low: int, high: int): (ids: seq<int>)
    ensures |ids| == if low <= high then high - low + 1 else 0
    ensures forall k :: 0 <= k < |ids| ==> ids[k] == low + k
    decreases high - low
  {
    if low > high then [] else [low] + Span(low + 1, high)
  }

  function ParseChunk(chunk: string): Option<seq<int>> {
    if '-' in chunk then
      var (low, high) := Cut(chunk, '-');
      if Atoi(low).Some? && Atoi(high).Some? then Some(Span(Atoi(low).value, Atoi(high).value)) else None
    else
      match Atoi(chunk)
      case Some(nr) => Some([nr])
      case None => None
  }

  function ParseChunks(chunks: seq<string>): Option<seq<int>> {
    if chunks == [] then Some([])
    else
      match ParseChunks(chunks[..|chunks| - 1])
      case None => None
      case Some(ids) =>
        match ParseChunk(chunks[|chunks| - 1])
        case None => None
        case Some(more) => Some(ids + more)
  }

  function Parse(cpu: string): Option<seq<int>> {
    ParseChunks(Split(cpu, ','))
  }

  /** A chunk that does not parse spoils every list it is in. */
  lemma {:induction false} BadChunk(chunks: seq<string>, i: nat)
    requires i < |chunks| && ParseChunk(chunks[i]).None?
    ensures ParseChunks(chunks).None?
    decreases |chunks|
  {
    if i < |chunks| - 1 {
      BadChunk(chunks[..|chunks| - 1], i);
    }
  }

  /** A chunk with nothing in it, or with anything but digits, signs and a dash, does not parse. */
  lemma OnlyNumbersParse(chunk: string)
    ensures ParseChunk(chunk).Some? ==> chunk != [] && forall c :: c in chunk ==> IsDigit(c) || c == '-' || c == '+'
  {
    if ParseChunk(chunk).Some? {
      if '-' in chunk {
        var (low, high) := Cut(chunk, '-');
        CutJoins(chunk, '-');
        AtoiReadsNumbers(low, 0);
        AtoiReadsNumbers(high, 0);
        DigitsAfterSign(low);
        DigitsAfterSign(high);
      } else {
        AtoiReadsNumbers(chunk, 0);
        DigitsAfterSign(chunk);
      }
    }
  }

  lemma DigitsAfterSign(s: string)
    requires s != [] && (IsDigit(s[0]) || s[0] in "+-") && AllDigits(s[1..])
    ensures forall c :: c in s ==> IsDigit(c) || c == '-' || c == '+'
  {
    forall c | c in s
      ensures IsDigit(c) || c == '-' || c == '+'
    {
      var i :| 0 <= i < |s| && s[i] == c;
      if i > 0 {
        assert s[1..][i - 1] == c;
      }
    }
  }

  lemma {:induction false} CutJoins(s: string, c: char)
    requires c in s
    ensures s == Cut(s, c).0 + [c] + Cut(s, c).1
  {
    if s[0] != c {
      CutJoins(s[1..], c);
      assert s == [s[0]] + s[1..];
    }
  }

  lemma NextChunk(chunks: seq<string>, n: nat, ids: seq<int>, more: seq<int>)
    requires n < |chunks| && ParseChunks(chunks[..n]) == Some(ids) && ParseChunk(chunks[n]) == Some(more)
    ensures ParseChunks(chunks[..n + 1]) == Some(ids + more)
  {
    assert chunks[..n + 1][..n] == chunks[..n];
  }

  /** The inner loop of parseCpuset. */
  method AppendSpan(before: seq<int>, low: int, high: int) returns (cpus: seq<int>)
    ensures cpus == before + Span(low, high)
  {
    cpus := before;
    var i := low;
    while i <= high
      invariant low <= i && (i <= high + 1 || i == low)
      invariant cpus == before + Span(low, i - 1)
    {
      assert Span(low, i) == Span(low, i - 1) + [i];
      cpus := cpus + [i];
      i := i + 1;
    }
    assert Span(low, i - 1) == Span(low, high);
  }

  /** parseCpuset: chunk by chunk, id by id. */
  method ParseCpuset(cpu: string) returns (r: Option<seq<int>>)
    ensures r == Parse(cpu)
  {
    var cpus: seq<int> := [];
    var chunks := Split(cpu, ',');
    for n := 0 to |chunks|
      invariant ParseChunks(chunks[..n]) == Some(cpus)
    {
      var chunk := chunks[n];
      ghost var before := cpus;
      if ParseChunk(chunk).None? {
        BadChunk(chunks, n);
      }
      if '-' in chunk {
        var fields := Cut(chunk, '-');
        var low, high := Atoi(fields.0), Atoi(fields.1);
        if low.None? || high.None? {
          return None;
        }
        cpus := AppendSpan(cpus, low.value, high.value);
      } else {
        var nr := Atoi(chunk);
        if nr.None? {
          return None;
        }
        cpus := cpus + [nr.value];
      }
      NextChunk(chunks, n, before, ParseChunk(chunk).value);
    }
    assert chunks[..|chunks|] == chunks;
    return Some(cpus);
  }

  // ----- printing --------------------------------------------------------------------------------------------------

  /** One entry of a printed CPU list, as the kernel writes them. */
  datatype Entry = One(id: int) | Run(low: int, high: int) {
    function Print(): string {
      match this
      case One(id) => Itoa(id)
      case Run(low, high) => Itoa(low) + ['-'] + Itoa(high)
    }

    function Ids(): seq<int> {
      match this
      case One(id) => [id]
      case Run(low, high) => Span(low, high)
    }

    predicate InRange() {
      match this
      case One(id) => 0 <= id <= MAX_INT
      case Run(low, high) => 0 <= low <= MAX_INT && 0 <= high <= MAX_INT
    }
  }

  function Expand(es: seq<Entry>): seq<int> {
    if es == [] then [] else Expand(es[..|es| - 1]) + es[|es| - 1].Ids()
  }

  function PrintAll(es: seq<Entry>): (parts: seq<string>)
    ensures |parts| == |es| && forall i :: 0 <= i < |es| ==> parts[i] == es[i].Print()
  {
    seq(|es|, i requires 0 <= i < |es| => es[i].Print())
  }

  lemma PlainDigits(n: nat, c: char)
    requires !IsDigit(c)
    ensures c !in Itoa(n)
  {
  }

  lemma NoComma(e: Entry)
    ensures ',' !in e.Print()
  {
    match e {
      case One(id) =>
        assert ',' !in Itoa(id) by { if id >= 0 { PlainDigits(id, ','); } else { PlainDigits(-id, ','); } }
      case Run(low, high) =>
        assert ',' !in Itoa(low) by { if low >= 0 { PlainDigits(low, ','); } else { PlainDigits(-low, ','); } }
        assert ',' !in Itoa(high) by { if high >= 0 { PlainDigits(high, ','); } else { PlainDigits(-high, ','); } }
    }
  }

  lemma ParsePrintedEntry(e: Entry)
    requires e.InRange()
    ensures ParseChunk(e.Print()) == Some(e.Ids())
  {
    match e {
      case One(id) =>
        PlainDigits(id, '-');
        AtoiItoa(id);
      case Run(low, high) =>
        PlainDigits(low, '-');
        AtoiItoa(low);
        AtoiItoa(high);
        CutAtSeparator(Itoa(low), Itoa(high), '-');
    }
  }

  lemma {:induction false} ParsePrintedEntries(es: seq<Entry>)
    requires forall i :: 0 <= i < |es| ==> es[i].InRange()
    ensures ParseChunks(PrintAll(es)) == Some(Expand(es))
  {
    if es != [] {
      var front := es[..|es| - 1];
      ParsePrintedEntries(front);
      assert PrintAll(es)[..|es| - 1] == PrintAll(front);
      ParsePrintedEntry(es[|es| - 1]);
    }
  }

  /** Parsing a printed list of ids and runs gives the ids in order, each run contributing low .. high ascending. */
  lemma ParsePrinted(es: seq<Entry>)
    requires es != [] && forall i :: 0 <= i < |es| ==> es[i].InRange()
    ensures Parse(Join(PrintAll(es), ',')) == Some(Expand(es))
  {
    forall i | 0 <= i < |es|
      ensures ',' !in PrintAll(es)[i]
    {
      NoComma(es[i]);
    }
    SplitJoin(PrintAll(es), ',');
    ParsePrintedEntries(es);
  }

  /** The comma-joined decimal form the balancer writes to cpuset.cpus and parses again. */
  function JoinIds(ids: seq<int>): string {
    Join(seq(|ids|, i requires 0 <= i < |ids| => Itoa(ids[i])), ',')
  }

  function Ones(ids: seq<int>): (es: seq<Entry>)
    ensures |es| == |ids| && forall i :: 0 <= i < |ids| ==> es[i] == One(ids[i])
  {
    seq(|ids|, i requires 0 <= i < |ids| => One(ids[i]))
  }

  lemma {:induction false} ExpandOnes(ids: seq<int>)
    ensures Expand(Ones(ids)) == ids
  {
    if ids != [] {
      ExpandOnes(ids[..|ids| - 1]);
      assert Ones(ids)[..|ids| - 1] == Ones(ids[..|ids| - 1]);
    }
  }

  /** Parsing undoes joining exactly for the non-empty lists of ids that are at least 0 and fit 64 bits. */
  lemma JoinThenParse(ids: seq<int>)
    ensures Parse(JoinIds(ids)) == Some(ids) <==> ids != [] && forall i :: 0 <= i < |ids| ==> 0 <= ids[i] <= MAX_INT
    ensures ids == [] ==> Parse(JoinIds(ids)).None?
  {
    var es := Ones(ids);
    var parts := PrintAll(es);
    assert JoinIds(ids) == Join(parts, ',') by {
      assert seq(|ids|, i requires 0 <= i < |ids| => Itoa(ids[i])) == parts;
    }
    if ids == [] {
      assert Split("", ',') == [""];
      BadChunk([""], 0);
    } else if forall i :: 0 <= i < |ids| ==> 0 <= ids[i] <= MAX_INT {
      ParsePrinted(es);
      ExpandOnes(ids);
    } else {
      var i :| 0 <= i < |ids| && !(0 <= ids[i] <= MAX_INT);
      forall k | 0 <= k < |es|
        ensures ',' !in parts[k]
      {
        NoComma(es[k]);
      }
      SplitJoin(parts, ',');
      BadId(ids[i]);
      BadChunk(parts, i);
    }
  }

  lemma BadId(id: int)
    requires !(0 <= id <= MAX_INT)
    ensures ParseChunk(Itoa(id)).None?
  {
    AtoiItoa(id);
    if id < 0 {
      CutAtSeparator("", Digits(-id), '-');
      assert "" + ['-'] + Digits(-id) == Itoa(id);
    } else {
      PlainDigits(id, '-');
    }
  }

  /** Whatever parses, parses to ids that are at least 0 and fit 64 bits. */
  lemma {:induction false} ParsedInRange(chunks: seq<string>)
    requires ParseChunks(chunks).Some?
    ensures forall i :: 0 <= i < |ParseChunks(chunks).value| ==> 0 <= ParseChunks(chunks).value[i] <= MAX_INT
  {
    if chunks != [] {
      ParsedInRange(chunks[..|chunks| - 1]);
      ChunkInRange(chunks[|chunks| - 1]);
    }
  }

  lemma ChunkInRange(chunk: string)
    requires ParseChunk(chunk).Some?
    ensures forall i :: 0 <= i < |ParseChunk(chunk).value| ==> 0 <= ParseChunk(chunk).value[i] <= MAX_INT
  {
    if '-' in chunk {
      CutPrefix(chunk, '-');
      Unsigned(Cut(chunk, '-').0);
    } else {
      Unsigned(chunk);
    }
  }

  lemma Unsigned(s: string)
    requires '-' !in s && Atoi(s).Some?
    ensures 0 <= Atoi(s).value <= MAX_INT
  {
    assert s[0] != '-';
  }

  lemma {:induction false} CutPrefix(s: string, c: char)
    requires c in s
    ensures c !in Cut(s, c).0
  {
    if s[0] != c {
      CutPrefix(s[1..], c);
    }
  }
}
