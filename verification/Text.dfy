/** The string functions the daemon leans on: decimal printing and parsing, splitting and joining. */
module Text {
  import opened Prelude

  // the range of a 64-bit int
  const MAX_INT := 0x7fff_ffff_ffff_ffff
  const MIN_INT := -0x8000_0000_0000_0000

  predicate IsDigit(c: char) { '0' <= c <= '9' }

  predicate AllDigits(s: string) { forall i :: 0 <= i < |s| ==> IsDigit(s[i]) }

  function Digits(n: nat): (s: string)
    ensures s != [] && AllDigits(s)
  {
    if n < 10 then [('0' as int + n) as char] else Digits(n / 10) + [('0' as int + n % 10) as char]
  }

  function Value(s: string): nat
    requires AllDigits(s)
  {
    if s == [] then 0 else 10 * Value(s[..|s| - 1]) + (s[|s| - 1] as int - '0' as int)
  }

  lemma {:induction false} ValueOfDigits(n: nat)
    ensures Value(Digits(n)) == n
  {
    if n >= 10 {
      ValueOfDigits(n / 10);
      assert Digits(n)[..|Digits(n)| - 1] == Digits(n / 10);
    }
  }

  /** One more digit stands to the right of the others. */
  lemma DigitsGrowRight(n: nat, d: nat)
    requires d < 10
    ensures Digits(d) == ["0123456789"[d]]
    ensures n > 0 ==> Digits(10 * n + d) == Digits(n) + ["0123456789"[d]]
  {
  }

  /** Decimal printing, as the format verbs %d and %v do it. */
  function Itoa(n: int): (s: string)
    ensures s != []
  {
    if n < 0 then "-" + Digits(-n) else Digits(n)
  }

  /** strconv.Atoi: an optional sign, at least one digit, and a value that fits 64 bits. */
  function Atoi(s: string): Option<int> {
    var signed := s != [] && (s[0] == '-' || s[0] == '+');
    var body := if signed then s[1..] else s;
    if body == [] || !AllDigits(body) then None
    else
      var v: int := if signed && s[0] == '-' then -(Value(body) as int) else Value(body);
      if MIN_INT <= v <= MAX_INT then Some(v) else None
  }

  /** Parsing undoes printing exactly on the integers that fit 64 bits. */
  lemma AtoiItoa(n: int)
    ensures Atoi(Itoa(n)) == if MIN_INT <= n <= MAX_INT then Some(n) else None
  {
    ValueOfDigits(if n < 0 then -n else n);
    if n < 0 {
      assert Itoa(n)[1..] == Digits(-n);
    } else {
      assert IsDigit(Itoa(n)[0]);
    }
  }

  /** Only a sign and digits parse, and a plus sign makes no difference. */
  lemma AtoiReadsNumbers(s: string, n: nat)
    ensures Atoi(s).Some? ==> s != [] && (IsDigit(s[0]) || (s[0] in "+-" && |s| > 1)) && AllDigits(s[1..])
    ensures Atoi("+" + Itoa(n)) == if n <= MAX_INT then Some(n) else None
  {
    ValueOfDigits(n);
    assert ("+" + Itoa(n))[1..] == Digits(n);
    if Atoi(s).Some? && IsDigit(s[0]) {
      assert forall i :: 0 <= i < |s[1..]| ==> s[1..][i] == s[i + 1];
    }
  }

  lemma ItoaSigned(n: nat)
    ensures Itoa(n) == Digits(n)
    ensures n > 0 ==> Itoa(-(n as int)) == "-" + Itoa(n)
  {
  }

  lemma ItoaInjective(m: nat, n: nat)
    requires Itoa(m) == Itoa(n)
    ensures m == n
  {
    ValueOfDigits(m);
    ValueOfDigits(n);
  }

  /** strings.Split on one character. */
  function Split(s: string, c: char): (parts: seq<string>)
    ensures parts != []
  {
    if s == [] then [""]
    else if s[0] == c then [""] + Split(s[1..], c)
    else
      var rest := Split(s[1..], c);
      [[s[0]] + rest[0]] + rest[1..]
  }

  /** strings.Join with one character. */
  function Join(parts: seq<string>, c: char): string {
    if parts == [] then ""
    else if |parts| == 1 then parts[0]
    else parts[0] + [c] + Join(parts[1..], c)
  }

  /** One more part stands behind the others and a separator. */
  lemma {:induction false} JoinOneMore(parts: seq<string>, last: string, c: char)
    ensures Join([last], c) == last
    ensures parts != [] ==> Join(parts + [last], c) == Join(parts, c) + [c] + last
    decreases |parts|
  {
    if |parts| > 1 {
      JoinOneMore(parts[1..], last, c);
      assert (parts + [last])[1..] == parts[1..] + [last];
    } else if |parts| == 1 {
      assert (parts + [last])[1..] == [last];
    }
  }

  lemma {:induction false} SplitPrefix(p: string, rest: string, c: char)
    requires c !in p
    ensures Split(p + rest, c) == [p + Split(rest, c)[0]] + Split(rest, c)[1..]
    decreases |p|
  {
    if p == [] {
      assert p + rest == rest;
      assert p + Split(rest, c)[0] == Split(rest, c)[0];
    } else {
      SplitPrefix(p[1..], rest, c);
      assert (p + rest)[1..] == p[1..] + rest;
      assert [p[0]] + (p[1..] + Split(rest, c)[0]) == p + Split(rest, c)[0];
    }
  }

  /** Splitting undoes joining, for a non-empty list of parts without the separator. */
  lemma {:induction false} SplitJoin(parts: seq<string>, c: char)
    requires parts != [] && forall i :: 0 <= i < |parts| ==> c !in parts[i]
    ensures Split(Join(parts, c), c) == parts
  {
    if |parts| == 1 {
      SplitPrefix(parts[0], "", c);
      assert parts[0] + "" == parts[0];
      assert parts == [parts[0]];
    } else {
      var rest := [c] + Join(parts[1..], c);
      assert Join(parts, c) == parts[0] + rest;
      SplitPrefix(parts[0], rest, c);
      SplitJoin(parts[1..], c);
      assert rest[1..] == Join(parts[1..], c);
      assert Split(rest, c) == [""] + parts[1..];
      assert parts[0] + "" == parts[0];
    }
  }

  /** strings.SplitN with a limit of two: what precedes the first separator, and all that follows it. */
  function Cut(s: string, c: char): (string, string)
    requires c in s
  {
    if s[0] == c then ("", s[1..])
    else
      var (before, after) := Cut(s[1..], c);
      ([s[0]] + before, after)
  }

  lemma {:induction false} CutAtSeparator(p: string, rest: string, c: char)
    requires c !in p
    ensures Cut(p + [c] + rest, c) == (p, rest)
  {
    if p == [] {
      assert p + [c] + rest == [c] + rest;
    } else {
      CutAtSeparator(p[1..], rest, c);
      assert (p + [c] + rest)[1..] == p[1..] + [c] + rest;
      assert [p[0]] + p[1..] == p;
    }
  }
}
