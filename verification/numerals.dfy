/**
 * Decimal text and numbers: Rust's `Display` of integers, `i128::from_str`,
 * `BigUint::from_str`, and the `str` helpers the literal parsers use
 * (`split_once`, `trim_end_matches('0')`).
 */
module Numerals {
  import opened Prelude

  predicate IsDigit(c: char)
  {
    '0' <= c <= '9'
  }

  predicate AllDigits(s: string)
  {
    forall i :: 0 <= i < |s| ==> IsDigit(s[i])
  }

  function DigitChar(d: nat): (c: char)
    requires d < 10
    ensures IsDigit(c) && c as int - '0' as int == d
  {
    ('0' as int + d) as char
  }

  /** The number a string of decimal digits spells, most significant digit first. */
  function DigitsValue(s: string): nat
    requires AllDigits(s)
  {
    if s == [] then 0 else 10 * DigitsValue(s[..|s| - 1]) + (s[|s| - 1] as int - '0' as int)
  }

  /** `Display` of an unsigned integer: its decimal digits, no leading zero. */
  function NatToString(n: nat): (s: string)
    ensures s != [] && AllDigits(s)
    ensures DigitsValue(s) == n
    ensures s[0] == '0' ==> n == 0
  {
    if n < 10 then [DigitChar(n)]
    else
      var s := NatToString(n / 10) + [DigitChar(n % 10)];
      assert s[..|s| - 1] == NatToString(n / 10);
      s
  }

  /** `Display` of a signed integer: a '-' before the digits of a negative number. */
  function IntToString(n: int): (s: string)
    ensures s != []
    ensures n >= 0 ==> s == NatToString(n)
    ensures n < 0 ==> s == "-" + NatToString(-n)
  {
    if n < 0 then "-" + NatToString(-n) else NatToString(n)
  }

  /**
   * `i128::from_str`: an optional '+' or '-', then one or more decimal
   * digits; anything else is an error (the i128 range is not modelled).
   */
  function ParseI128(s: string): (r: Option<int>)
    ensures r.Some? ==> s != []
    ensures r.Some? && s[0] != '-' ==> r.value >= 0
  {
    if s == [] then None
    else if s[0] == '+' || s[0] == '-' then
      var digits := s[1..];
      if digits != [] && AllDigits(digits) then
        Some(if s[0] == '-' then -(DigitsValue(digits) as int) else DigitsValue(digits))
      else None
    else if AllDigits(s) then Some(DigitsValue(s))
    else None
  }

  /** The two ways `BigUint::from_str` can fail. */
  datatype ParseBigIntError = Empty | InvalidDigit

  /** The digits of `s` with every '_' left out. */
  function WithoutUnderscores(s: string): (r: string)
    ensures |r| <= |s|
    ensures forall i :: 0 <= i < |s| && s[i] != '_' ==> s[i] in r
    ensures forall c :: c in r ==> c in s && c != '_'
    ensures |r| == |s| - Count(s, '_')
  {
    if s == [] then []
    else
      assert s == [s[0]] + s[1..];
      (if s[0] == '_' then [] else [s[0]]) + WithoutUnderscores(s[1..])
  }

  predicate DigitOrUnderscore(c: char)
  {
    IsDigit(c) || c == '_'
  }

  /** Only digits and '_' separators. */
  predicate DigitsAndUnderscores(s: string)
  {
    forall i :: 0 <= i < |s| ==> DigitOrUnderscore(s[i])
  }

  /**
   * `BigUint::from_str` (radix 10): one leading '+' is dropped unless a
   * second '+' follows it; the rest must be non-empty, must not start with
   * '_', and must hold only digits and '_' separators.
   */
  function ParseBigUint(s: string): (r: Result<nat, ParseBigIntError>)
    ensures r.Ok? ==> exists i :: 0 <= i < |s| && IsDigit(s[i])
  {
    var t := if |s| >= 1 && s[0] == '+' && !(|s| >= 2 && s[1] == '+') then s[1..] else s;
    if t == [] then Err(Empty)
    else if t[0] == '_' then Err(InvalidDigit)
    else if DigitsAndUnderscores(t) then
      var digits := WithoutUnderscores(t);
      assert IsDigit(t[0]) && t[0] in digits;
      assert AllDigits(digits) by {
        forall i | 0 <= i < |digits| ensures IsDigit(digits[i]) {
          assert digits[i] in t;
        }
      }
      assert t == s[|s| - |t|..];
      assert s[|s| - |t|] == t[0];
      Ok(DigitsValue(digits))
    else Err(InvalidDigit)
  }

  /** `str::split_once(c)`: the text before and after the first `c`, if any. */
  function SplitOnce(s: string, c: char): (r: Option<(string, string)>)
    ensures r.None? <==> c !in s
    ensures r.Some? ==> s == r.value.0 + [c] + r.value.1 && c !in r.value.0
  {
    if s == [] then None
    else if s[0] == c then Some(([], s[1..]))
    else match SplitOnce(s[1..], c)
      case None => None
      case Some((before, after)) => Some(([s[0]] + before, after))
  }

  /** `str::trim_end_matches('0')`: `s` without its trailing zeros. */
  function TrimTrailingZeros(s: string): (r: string)
    ensures |r| <= |s| && r == s[..|r|]
    ensures r == [] || r[|r| - 1] != '0'
    ensures forall i :: |r| <= i < |s| ==> s[i] == '0'
  {
    if s == [] || s[|s| - 1] != '0' then s else TrimTrailingZeros(s[..|s| - 1])
  }

  // ---------------------------------------------------------------------
  // Round trips between numbers and their text

  /** The text of a signed integer parses back to it. */
  lemma IntToStringParses(n: int)
    ensures ParseI128(IntToString(n)) == Some(n)
  {
    var s := IntToString(n);
    if n < 0 {
      assert s[1..] == NatToString(-n);
    } else {
      assert IsDigit(s[0]);
    }
  }

  /** The text of an unsigned integer parses back to it. */
  lemma NatToStringParses(n: nat)
    ensures ParseBigUint(NatToString(n)) == Ok(n)
  {
    var s := NatToString(n);
    assert IsDigit(s[0]);
    assert DigitsAndUnderscores(s);
    NoUnderscores(s);
  }

  lemma {:induction false} NoUnderscores(s: string)
    requires AllDigits(s)
    ensures WithoutUnderscores(s) == s
  {
    if s != [] {
      NoUnderscores(s[1..]);
    }
  }

  /** Removing the separators from two pieces of text and joining them is removing them from the whole. */
  lemma {:induction false} WithoutUnderscoresConcat(a: string, b: string)
    ensures WithoutUnderscores(a + b) == WithoutUnderscores(a) + WithoutUnderscores(b)
  {
    if a == [] {
      assert a + b == b;
    } else {
      assert (a + b)[1..] == a[1..] + b;
      WithoutUnderscoresConcat(a[1..], b);
    }
  }

  /** `BigUint::from_str("1_000")` is 1000: the separators are dropped before the digits are read. */
  lemma SeparatorsIgnored()
    ensures ParseBigUint("1_000") == Ok(1000)
  {
    ThousandWithoutSeparator();
    ThousandDigits();
    assert DigitsAndUnderscores("1_000");
  }

  /** One leading '+' is dropped when no second '+' follows it. */
  lemma PlusSignDropped(t: string)
    requires t != [] && t[0] != '+'
    ensures ParseBigUint("+" + t) == ParseBigUint(t)
  {
    assert ("+" + t)[1..] == t;
  }

  /** One separator between two runs of digits is dropped and the runs are joined. */
  lemma SeparatorBetween(a: string, b: string)
    requires AllDigits(a) && AllDigits(b)
    ensures WithoutUnderscores(a + "_" + b) == a + b
  {
    assert "_"[1..] == [];
    assert WithoutUnderscores("_") == [];
    WithoutUnderscoresConcat(a, "_");
    NoUnderscores(a);
    assert a + [] == a;
    var joined := a + "_";
    assert WithoutUnderscores(joined) == a;
    WithoutUnderscoresConcat(joined, b);
    NoUnderscores(b);
  }

  lemma ThousandWithoutSeparator()
    ensures WithoutUnderscores("1_000") == "1000"
  {
    SeparatorBetween("1", "000");
    assert "1" + "_" + "000" == "1_000";
    assert "1" + "000" == "1000";
  }

  lemma ThousandDigits()
    ensures DigitsValue("1000") == 1000
  {
    assert "1000"[..3] == "100" && "100"[..2] == "10" && "10"[..1] == "1";
  }

  // ---------------------------------------------------------------------
  // Counting characters

  /** How many times `c` occurs in `s`. */
  function Count(s: string, c: char): (n: nat)
    ensures n <= |s|
  {
    if s == [] then 0 else (if s[0] == c then 1 else 0) + Count(s[1..], c)
  }

  lemma {:induction false} CountConcat(a: string, b: string, c: char)
    ensures Count(a + b, c) == Count(a, c) + Count(b, c)
  {
    if a == [] {
      assert a + b == b;
    } else {
      assert (a + b)[1..] == a[1..] + b;
      CountConcat(a[1..], b, c);
    }
  }

  /** A character that does not occur is counted zero times. */
  lemma {:induction false} CountAbsent(s: string, c: char)
    requires c !in s
    ensures Count(s, c) == 0
  {
    if s != [] {
      assert s[0] != c;
      assert c !in s[1..];
      CountAbsent(s[1..], c);
    }
  }

  /** The text of an integer holds only digits and a leading '-'. */
  lemma NumberChars(n: int)
    ensures forall c :: c in IntToString(n) ==> IsDigit(c) || c == '-'
    ensures forall c :: c in NatToString(if n < 0 then -n else n) ==> IsDigit(c)
  {
    var d := NatToString(if n < 0 then -n else n);
    forall c | c in d ensures IsDigit(c) {
      var i :| 0 <= i < |d| && d[i] == c;
    }
  }
}
