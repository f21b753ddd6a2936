/** The string keys of voting points, printed and scanned with "%d-%d-%d": isaac/ballotbox.go. */
module Keys {
  import opened Base

  predicate IsDigit(c: char) {
    '0' <= c <= '9'
  }

  function DigitValue(c: char): (d: nat)
    requires IsDigit(c)
    ensures d < 10
  {
    c as int - '0' as int
  }

  function PrintDigit(d: nat): (c: char)
    requires d < 10
    ensures IsDigit(c) && DigitValue(c) == d
  {
    (d + '0' as int) as char
  }

  function PrintNat(n: nat): (s: string) {
    if n < 10 then [PrintDigit(n)] else PrintNat(n / 10) + [PrintDigit(n % 10)]
  }

  function PrintInt(n: int): (s: string) {
    if n < 0 then "-" + PrintNat(-n) else PrintNat(n)
  }

  /** The number of leading digits. */
  function DigitRun(s: string): (n: nat)
    ensures n <= |s|
    ensures forall i :: 0 <= i < n ==> IsDigit(s[i])
    ensures n < |s| ==> !IsDigit(s[n])
  {
    if s == "" || !IsDigit(s[0]) then 0 else 1 + DigitRun(s[1..])
  }

  predicate AllDigits(s: string) {
    forall i :: 0 <= i < |s| ==> IsDigit(s[i])
  }

  function Value(s: string): (n: nat)
    requires AllDigits(s)
  {
    if s == "" then 0 else 10 * Value(s[..|s| - 1]) + DigitValue(s[|s| - 1])
  }

  /** An unsigned "%d": as many digits as there are, no sign, and the value must fit. */
  function ScanUnsigned(s: string, limit: nat): (r: Option<(nat, string)>)
    ensures r.Some? ==> r.value.0 < limit
  {
    var n := DigitRun(s);
    if n == 0 || Value(s[..n]) >= limit then None else Some((Value(s[..n]), s[n..]))
  }

  /** A signed "%d" into an int64. */
  function ScanSigned(s: string): (r: Option<(int, string)>)
    ensures r.Some? ==> -INT64_LIMIT <= r.value.0 < INT64_LIMIT
  {
    if s != "" && s[0] == '-' then
      var (n, rest) :- ScanUnsigned(s[1..], INT64_LIMIT + 1);
      Some((-(n as int), rest))
    else
      var (n, rest) :- ScanUnsigned(if s != "" && s[0] == '+' then s[1..] else s, INT64_LIMIT);
      Some((n, rest))
  }

  /** A literal "-" of the format. */
  function ScanDash(s: string): (r: Option<string>) {
    if s != "" && s[0] == '-' then Some(s[1..]) else None
  }

  /** fmt.Sscanf(key, "%d-%d-%d", ...) into an int64, a uint64 and a uint8. */
  function ScanKey(s: string): (r: Option<Point>) {
    var (height, afterHeight) :- ScanSigned(s);
    var roundText :- ScanDash(afterHeight);
    var (round, afterRound) :- ScanUnsigned(roundText, UINT_MODULUS);
    var stageText :- ScanDash(afterRound);
    var (stage, _) :- ScanUnsigned(stageText, 256);
    Some(Point(height, round, stage))
  }

  /** fmt.Sprintf("%d-%d-%d", height, round, stage). */
  function VrsKey(p: Point): (s: string) {
    PrintInt(p.height) + "-" + PrintNat(p.round) + "-" + PrintNat(p.stage)
  }

  lemma {:induction false} PrintedNat(n: nat)
    ensures |PrintNat(n)| >= 1 && AllDigits(PrintNat(n)) && Value(PrintNat(n)) == n
  {
    if n >= 10 {
      PrintedNat(n / 10);
      var s := PrintNat(n);
      assert s[..|s| - 1] == PrintNat(n / 10);
    } else {
      var s := PrintNat(n);
      assert s[..0] == "";
    }
  }

  lemma {:induction false} RunOfDigits(s: string, rest: string)
    requires AllDigits(s) && (rest == "" || !IsDigit(rest[0]))
    ensures DigitRun(s + rest) == |s|
  {
    if s == "" {
      assert s + rest == rest;
    } else {
      RunOfDigits(s[1..], rest);
      assert (s + rest)[1..] == s[1..] + rest;
    }
  }

  lemma ScanPrintedNat(n: nat, rest: string, limit: nat)
    requires n < limit && (rest == "" || !IsDigit(rest[0]))
    ensures ScanUnsigned(PrintNat(n) + rest, limit) == Some((n, rest))
  {
    var s := PrintNat(n);
    PrintedNat(n);
    RunOfDigits(s, rest);
    assert (s + rest)[..|s|] == s && (s + rest)[|s|..] == rest;
  }

  lemma ScanNegative(n: nat, rest: string)
    requires n <= INT64_LIMIT && (rest == "" || !IsDigit(rest[0]))
    ensures ScanSigned("-" + PrintNat(n) + rest) == Some((-(n as int), rest))
  {
    ScanPrintedNat(n, rest, INT64_LIMIT + 1);
    DashFirst(PrintNat(n), rest);
  }

  lemma DashFirst(s: string, rest: string)
    ensures ("-" + s + rest) != "" && ("-" + s + rest)[0] == '-' && ("-" + s + rest)[1..] == s + rest
  {
  }

  lemma ScanNonNegative(n: nat, rest: string)
    requires n < INT64_LIMIT && (rest == "" || !IsDigit(rest[0]))
    ensures ScanSigned(PrintNat(n) + rest) == Some((n, rest))
  {
    var s := PrintNat(n);
    PrintedNat(n);
    ScanPrintedNat(n, rest, INT64_LIMIT);
    assert (s + rest)[0] == s[0] && IsDigit(s[0]);
  }

  lemma ScanPrintedInt(n: Int64, rest: string)
    requires rest == "" || !IsDigit(rest[0])
    ensures ScanSigned(PrintInt(n) + rest) == Some((n, rest))
  {
    var m: int := n;
    if m < 0 {
      ScanNegative(-m, rest);
    } else {
      ScanNonNegative(m, rest);
    }
  }

  /** Scanning a printed key gives back its point, for every height (also a negative one, whose sign
      is the separator), round and stage. */
  lemma KeyRoundTrip(p: Point)
    ensures ScanKey(VrsKey(p)) == Some(p)
  {
    var g := PrintNat(p.stage);
    var rg := PrintNat(p.round) + ("-" + g);
    assert VrsKey(p) == PrintInt(p.height) + ("-" + rg);
    ScanPrintedInt(p.height, "-" + rg);
    assert ("-" + rg)[1..] == rg;
    ScanPrintedNat(p.round, "-" + g, UINT_MODULUS);
    assert ("-" + g)[1..] == g;
    ScanPrintedNat(p.stage, "", 256);
    assert g + "" == g;
  }

  /** Different points have different keys. */
  lemma KeyInjective(p: Point, q: Point)
    requires VrsKey(p) == VrsKey(q)
    ensures p == q
  {
    KeyRoundTrip(p);
    KeyRoundTrip(q);
  }
}
