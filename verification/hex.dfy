/**
 * Rendering of natural numbers the way Rust's `{:x}` format specifier does it:
 * lower-case hexadecimal digits, no `0x` prefix, no leading zeros, and "0" for zero.
 * A parser for exactly that canonical form is given as the rendering's inverse.
 */
module HexFormat {
  import opened Results

  /** The characters `{:x}` may produce. */
  predicate IsHexDigit(c: char) {
    '0' <= c <= '9' || 'a' <= c <= 'f'
  }

  predicate AllHexDigits(s: string) {
    forall i | 0 <= i < |s| :: IsHexDigit(s[i])
  }

  /** The strings `{:x}` can produce: non-empty, hex digits only, no leading zero unless the whole string is "0". */
  predicate IsCanonical(s: string) {
    && |s| >= 1
    && AllHexDigits(s)
    && (s[0] == '0' ==> |s| == 1)
  }

  /** The digit character for a value below 16. */
  function DigitChar(d: nat): (c: char)
    requires d < 16
    ensures IsHexDigit(c)
    ensures DigitValue(c) == d
  {
    if d < 10 then (48 + d) as char else (87 + d) as char
  }

  /** The value of one hexadecimal digit character. */
  function DigitValue(c: char): (d: nat)
    requires IsHexDigit(c)
    ensures d < 16
    ensures d == 0 <==> c == '0'
  {
    if c <= '9' then c as int - 48 else c as int - 87
  }

  lemma DigitCharOfValue(c: char)
    requires IsHexDigit(c)
    ensures DigitChar(DigitValue(c)) == c
  {
  }

  /** `format!("{:x}", n)`. */
  function Hex(n: nat): (s: string)
    ensures IsCanonical(s)
    ensures s == "0" <==> n == 0
    decreases n
  {
    if n < 16 then [DigitChar(n)]
    else
      var front := Hex(n / 16);
      assert front != "0";
      assert front[0] != '0' by {
        assert |front| == 1 ==> front == [front[0]];
      }
      front + [DigitChar(n % 16)]
  }

  /** The base-16 value of a string of hex digits, most significant digit first. */
  function Value(s: string): nat
    requires AllHexDigits(s)
  {
    if |s| == 0 then 0 else Value(s[..|s| - 1]) * 16 + DigitValue(s[|s| - 1])
  }

  /** Parses a canonical `{:x}` rendering; anything else (empty, prefixed, padded, upper-case) is rejected. */
  function ParseHex(s: string): Option<nat> {
    if IsCanonical(s) then Some(Value(s)) else None
  }

  lemma {:induction false} ValueOfHex(n: nat)
    ensures Value(Hex(n)) == n
    decreases n
  {
    if n >= 16 {
      var s := Hex(n);
      ValueOfHex(n / 16);
      assert s[..|s| - 1] == Hex(n / 16);
    }
  }

  lemma {:induction false} ValuePositive(s: string)
    requires |s| >= 1 && AllHexDigits(s) && s[0] != '0'
    ensures Value(s) > 0
    decreases |s|
  {
    if |s| > 1 {
      ValuePositive(s[..|s| - 1]);
    }
  }

  lemma {:induction false} HexOfValue(s: string)
    requires IsCanonical(s)
    ensures Hex(Value(s)) == s
    decreases |s|
  {
    var c := s[|s| - 1];
    DigitCharOfValue(c);
    if |s| > 1 {
      var front := s[..|s| - 1];
      var v := Value(front);
      var d := DigitValue(c);
      ValuePositive(front);
      HexOfValue(front);
      assert (v * 16 + d) / 16 == v && (v * 16 + d) % 16 == d;
      assert s == front + [c];
    } else {
      assert s == [c];
    }
  }

  /** Parsing is the exact inverse of rendering: a string parses to n iff it is n's `{:x}` rendering. */
  lemma ParseHexIsInverse(s: string, n: nat)
    ensures ParseHex(s) == Some(n) <==> s == Hex(n)
  {
    if ParseHex(s) == Some(n) {
      HexOfValue(s);
    }
    if s == Hex(n) {
      ValueOfHex(n);
    }
  }

  /** Distinct numbers render differently. */
  lemma HexInjective(m: nat, n: nat)
    requires Hex(m) == Hex(n)
    ensures m == n
  {
    ValueOfHex(m);
    ValueOfHex(n);
  }

  /** A rendering never contains the `.` that separates filename components. */
  lemma HexHasNoDot(n: nat)
    ensures '.' !in Hex(n)
  {
  }

  lemma HexExamples()
    ensures Hex(0) == "0"
    ensures Hex(1) == "1"
    ensures Hex(255) == "ff"
    ensures Hex(4096) == "1000"
  {
  }
}
