/** The parts of `std::string` and of the number parsers that the proxy relies on.  Bytes and
    characters are both `char`. */
module Text {
  import opened CacheEntries

  const CRLF := "\r\n"
  const HEADER_END := "\r\n\r\n"

  /** `pattern` occurs in `s` at position `i`. */
  predicate At(s: string, pattern: string, i: nat) {
    i + |pattern| <= |s| && s[i..i + |pattern|] == pattern
  }

  /** `s.find(pattern, start)`: the first occurrence at or after `start`. */
  function FindFrom(s: string, pattern: string, start: nat): (r: Option<nat>)
    requires start <= |s|
    ensures r.Some? ==> start <= r.value && At(s, pattern, r.value)
    ensures r.Some? ==> forall i :: start <= i < r.value ==> !At(s, pattern, i)
    ensures r.None? ==> forall i :: start <= i ==> !At(s, pattern, i)
    decreases |s| - start
  {
    if At(s, pattern, start) then Some(start)
    else if start == |s| then None
    else FindFrom(s, pattern, start + 1)
  }

  function Find(s: string, pattern: string): (r: Option<nat>)
    ensures r.Some? ==> At(s, pattern, r.value) && forall i: nat :: i < r.value ==> !At(s, pattern, i)
    ensures r.None? ==> forall i: nat :: !At(s, pattern, i)
  {
    FindFrom(s, pattern, 0)
  }

  predicate Contains(s: string, pattern: string) { Find(s, pattern).Some? }

  /** The position of the first occurrence is determined by its defining property. */
  lemma FindIs(s: string, pattern: string, k: nat)
    requires At(s, pattern, k) && forall i: nat :: i < k ==> !At(s, pattern, i)
    ensures Find(s, pattern) == Some(k)
  {
    assert Find(s, pattern).Some?;
  }

  lemma FindFromIs(s: string, pattern: string, start: nat, k: nat)
    requires start <= k && start <= |s| && At(s, pattern, k)
    requires forall i: nat :: start <= i < k ==> !At(s, pattern, i)
    ensures FindFrom(s, pattern, start) == Some(k)
  {
    var r := FindFrom(s, pattern, start);
    hide FindFrom, At;
    assert r.Some?;
  }

  /** A pattern in two parts occurs where its parts do. */
  lemma AtParts(s: string, a: string, b: string, i: nat)
    ensures At(s, a + b, i) <==> At(s, a, i) && At(s, b, i + |a|)
  {
    var n, m := i + |a|, i + |a| + |b|;
    if m <= |s| {
      assert s[i..m] == s[i..n] + s[n..m];
      assert s[i..m][..|a|] == s[i..n] && s[i..m][|a|..] == s[n..m];
      assert (a + b)[..|a|] == a && (a + b)[|a|..] == b;
    }
  }

  /** Reading further never moves an occurrence already found. */
  lemma FindInLonger(s: string, t: string, pattern: string)
    requires Contains(s, pattern)
    ensures Find(s + t, pattern) == Find(s, pattern)
  {
    var k := Find(s, pattern).value;
    forall i: nat | i <= k ensures At(s + t, pattern, i) <==> At(s, pattern, i) {
      assert (s + t)[..|s|] == s;
      assert i + |pattern| <= |s| ==> (s + t)[i..i + |pattern|] == s[i..i + |pattern|];
    }
    FindIs(s + t, pattern, k);
  }

  lemma LineFeedAt(s: string, i: nat)
    ensures At(s, "\n", i) <==> i < |s| && s[i] == '\n'
  {
    if i < |s| { assert s[i..i + 1] == [s[i]]; }
  }

  /** The first line feed of a text splits it. */
  lemma FirstLineFeed(s: string)
    ensures match Find(s, "\n")
            case None => '\n' !in s
            case Some(i) => i < |s| && '\n' !in s[..i] && s == s[..i] + "\n" + s[i + 1..]
  {
    forall i: nat ensures At(s, "\n", i) <==> i < |s| && s[i] == '\n' { LineFeedAt(s, i); }
    hide At;
  }

  /** One `getline`: the text up to the next line feed, and what remains in the stream. */
  function NextLine(s: string): (r: (string, string))
    requires s != ""
    ensures |r.1| < |s| && '\n' !in r.0
    ensures s == r.0 + "\n" + r.1 || (s == r.0 && r.1 == "")
  {
    FirstLineFeed(s);
    match Find(s, "\n")
    case None => (s, "")
    case Some(i) => (s[..i], s[i + 1..])
  }

  // ---------------------------------------------------------------- stoi and stol

  predicate IsSpace(c: char) { c in {' ', '\t', '\n', '\U{0B}', '\U{0C}', '\r'} }

  predicate IsDigit(c: char) { '0' <= c <= '9' }

  function SkipSpaces(s: string): string {
    if s != "" && IsSpace(s[0]) then SkipSpaces(s[1..]) else s
  }

  function LeadingDigits(s: string): string {
    if s != "" && IsDigit(s[0]) then [s[0]] + LeadingDigits(s[1..]) else ""
  }

  function Decimal(digits: string): nat
    requires forall c :: c in digits ==> IsDigit(c)
  {
    if digits == "" then 0
    else
      var last := digits[|digits| - 1];
      assert IsDigit(last);
      10 * Decimal(digits[..|digits| - 1]) + (last as int - '0' as int)
  }

  lemma {:induction false} LeadingDigitsAreDigits(s: string)
    ensures forall c :: c in LeadingDigits(s) ==> IsDigit(c)
  {
    if s != "" && IsDigit(s[0]) { LeadingDigitsAreDigits(s[1..]); }
  }

  /** `stoi`/`stol`: spaces, an optional sign and digits; what follows is ignored.  None when there
      is no digit or the value does not fit, where the library throws. */
  function ParseInt(s: string, lo: int, hi: int): (r: Option<int>)
    ensures r.Some? ==> lo <= r.value < hi
  {
    var t := SkipSpaces(s);
    var signed := t != "" && t[0] in {'+', '-'};
    var digits := LeadingDigits(if signed then t[1..] else t);
    LeadingDigitsAreDigits(if signed then t[1..] else t);
    if digits == "" then None
    else
      var magnitude: int := Decimal(digits);
      var n := if signed && t[0] == '-' then -magnitude else magnitude;
      if lo <= n < hi then Some(n) else None
  }

  const TWO_TO_THE_31 := 0x8000_0000

  function Stoi(s: string): (r: Option<int>)
    ensures r.Some? ==> -TWO_TO_THE_31 <= r.value < TWO_TO_THE_31
  {
    ParseInt(s, -TWO_TO_THE_31, TWO_TO_THE_31)
  }

  function Stol(s: string): (r: Option<int64>) {
    match ParseInt(s, -TWO_TO_THE_63, TWO_TO_THE_63)
    case Some(n) => Some(n)
    case None => None
  }
}
