/** What `stoi` and `stol` make of a text: spaces, a sign and digits give the number they write, and
    nothing else does. */
module Numbers {
  import opened CacheEntries
  import opened Text

  /** A number as digits. */
  function DecimalText(n: nat): string {
    (if n < 10 then "" else DecimalText(n / 10)) + [(n % 10 + '0' as int) as char]
  }

  predicate AllDigits(s: string) { forall c :: c in s ==> IsDigit(c) }

  predicate AllSpaces(s: string) { forall c :: c in s ==> IsSpace(c) }

  /** The text does not begin with a digit. */
  predicate NoDigit(s: string) { s == "" || !IsDigit(s[0]) }

  lemma {:induction false} DecimalParsed(n: nat)
    ensures DecimalText(n) != "" && AllDigits(DecimalText(n)) && Decimal(DecimalText(n)) == n
  {
    var front := if n < 10 then "" else DecimalText(n / 10);
    if n >= 10 {
      DecimalParsed(n / 10);
    }
    assert DecimalText(n)[..|front|] == front;
  }

  lemma {:induction false} DigitsThen(digits: string, tail: string)
    requires AllDigits(digits) && NoDigit(tail)
    ensures LeadingDigits(digits + tail) == digits
  {
    if digits == "" {
      assert digits + tail == tail;
    } else {
      assert digits[0] in digits && (digits + tail)[1..] == digits[1..] + tail;
      DigitsThen(digits[1..], tail);
      assert [digits[0]] + digits[1..] == digits;
    }
  }

  lemma {:induction false} SpacesThen(spaces: string, s: string)
    requires AllSpaces(spaces) && (s == "" || !IsSpace(s[0]))
    ensures SkipSpaces(spaces + s) == s
  {
    if spaces == "" {
      assert spaces + s == s;
    } else {
      assert spaces[0] in spaces && (spaces + s)[1..] == spaces[1..] + s;
      SpacesThen(spaces[1..], s);
    }
  }

  /** Spaces, a sign or none, digits and anything that does not go on with a digit: the number that the
      digits write, if it is in range. */
  lemma NumberRead(spaces: string, sign: string, digits: string, tail: string, lo: int, hi: int)
    requires AllSpaces(spaces) && sign in {"", "+", "-"} && AllDigits(digits) && digits != "" && NoDigit(tail)
    ensures var m: int := Decimal(digits);
            var n := if sign == "-" then -m else m;
            ParseInt(spaces + (sign + (digits + tail)), lo, hi) == if lo <= n < hi then Some(n) else None
  {
    var t := sign + (digits + tail);
    assert digits[0] in digits && (digits + tail)[0] == digits[0];
    if sign == "" {
      assert t == digits + tail;
    } else {
      assert t[0] == sign[0] && t[1..] == digits + tail;
    }
    SpacesThen(spaces, t);
    DigitsThen(digits, tail);
    hide SkipSpaces, LeadingDigits, Decimal;
  }

  /** Without a digit behind the spaces and the sign there is no number. */
  lemma NoNumberRead(spaces: string, sign: string, tail: string, lo: int, hi: int)
    requires AllSpaces(spaces) && sign in {"", "+", "-"} && NoDigit(tail)
    requires sign == "" && tail != "" ==> !IsSpace(tail[0]) && tail[0] !in {'+', '-'}
    ensures ParseInt(spaces + (sign + tail), lo, hi) == None
  {
    var t := sign + tail;
    if sign == "" {
      assert t == tail;
    } else {
      assert t[0] == sign[0] && t[1..] == tail;
    }
    SpacesThen(spaces, t);
    hide SkipSpaces, Decimal;
  }

  /** A written number in range is read back, whatever follows it that is no digit. */
  lemma DecimalIsRead(n: nat, tail: string, lo: int, hi: int)
    requires lo <= n < hi && NoDigit(tail)
    ensures ParseInt(DecimalText(n) + tail, lo, hi) == Some(n)
  {
    DecimalParsed(n);
    NumberRead("", "", DecimalText(n), tail, lo, hi);
    assert "" + ("" + (DecimalText(n) + tail)) == DecimalText(n) + tail;
    hide ParseInt, DecimalText, Decimal;
  }

  lemma DecimalStoi(n: nat)
    requires n < 0x8000_0000
    ensures Stoi(DecimalText(n)) == Some(n)
  {
    assert DecimalText(n) + "" == DecimalText(n);
    DecimalIsRead(n, "", -TWO_TO_THE_31, TWO_TO_THE_31);
    hide ParseInt, DecimalText;
  }
}
