/** Printing and parsing numbers: digit loops that fill a stack buffer from its end, and
    the wrapping parser they round-trip with. */
module Decimal {
  import opened Words

  // ---------------------------------------------------------------------
  // Numerals
  // ---------------------------------------------------------------------

  predicate Base(base: int) { base == 10 || base == 16 }

  /** The character of a remainder: '0' to '9', then 'A' to 'F'. */
  function DigitChar(d: int): char
    requires -9 <= d < 16
  {
    if d > 9 then (d + 0x37) as char else (d + 0x30) as char
  }

  /** The numeral of n, most significant digit first. */
  function Numeral(n: nat, base: int): string
    requires Base(base)
    decreases n
  {
    if n < base then [DigitChar(n)] else Numeral(n / base, base) + [DigitChar(n % base)]
  }

  function Power(base: int, e: nat): nat
    requires Base(base)
  {
    if e == 0 then 1 else base * Power(base, e - 1)
  }

  lemma {:induction false} NumeralLength(n: nat, base: int, e: nat)
    requires Base(base) && e > 0 && n < Power(base, e)
    ensures 1 <= |Numeral(n, base)| <= e
  {
    if n >= base {
      assert Power(base, e) == base * Power(base, e - 1);
      assert e > 1;
      NumeralLength(n / base, base, e - 1);
    }
  }

  /** 2^64 has twenty decimal and sixteen hexadecimal digits. */
  lemma WordDigits()
    ensures TWO_64 <= Power(10, 20) && TWO_64 <= Power(16, 16)
  {
    assert Power(10, 4) == 10_000;
    PowerAdds(10, 4, 4);
    PowerAdds(10, 8, 8);
    PowerAdds(10, 16, 4);
    assert Power(16, 4) == 0x1_0000;
    PowerAdds(16, 4, 4);
    PowerAdds(16, 8, 8);
  }

  lemma {:induction false} PowerAdds(base: int, a: nat, b: nat)
    requires Base(base)
    ensures Power(base, a + b) == Power(base, a) * Power(base, b)
  {
    if b > 0 {
      PowerAdds(base, a, b - 1);
      Exchange(Power(base, a), base, Power(base, b - 1));
    }
  }

  lemma Exchange(a: int, b: int, c: int)
    ensures a * (b * c) == b * (a * c)
  {
  }

  /** A numeral starts with a zero only for zero, and never with a sign. */
  lemma {:induction false} NoLeadingZero(n: nat, base: int)
    requires Base(base)
    ensures Numeral(n, base) != [] && Numeral(n, base)[0] != '-'
    ensures Numeral(n, base)[0] == '0' <==> n == 0
  {
    if n >= base {
      NoLeadingZero(n / base, base);
    }
  }

  /** The number a string spells in a base, when its characters are worth what `worth` says. */
  function Spelled(s: string, base: int, worth: char -> int): int {
    if s == [] then 0 else Spelled(s[..|s| - 1], base, worth) * base + worth(s[|s| - 1])
  }

  /** What a digit of base 10 or 16 is worth. */
  function DigitWorth(c: char): int {
    if '0' <= c <= '9' then c as int - '0' as int else c as int - 'A' as int + 10
  }

  /** A numeral spells its number for whoever values the digits of the base rightly. */
  lemma {:induction false} SpelledNumeral(n: nat, base: int, worth: char -> int)
    requires Base(base) && forall d | 0 <= d < base :: worth(DigitChar(d)) == d
    ensures Spelled(Numeral(n, base), base, worth) == n
  {
    var s := Numeral(n, base);
    if n >= base {
      SpelledNumeral(n / base, base, worth);
      assert s[..|s| - 1] == Numeral(n / base, base);
    } else {
      assert s[..0] == [];
    }
  }

  /** A numeral consists of digits of its base and spells the number, in both bases. */
  lemma {:induction false} NumeralSpells(n: nat, base: int)
    requires Base(base)
    ensures Spelled(Numeral(n, base), base, DigitWorth) == n
    ensures forall c <- Numeral(n, base) :: ('0' <= c <= '9' || 'A' <= c <= 'F') && 0 <= DigitWorth(c) < base
  {
    SpelledNumeral(n, base, DigitWorth);
    if n >= base {
      NumeralSpells(n / base, base);
    }
  }

  // ---------------------------------------------------------------------
  // Printing
  // ---------------------------------------------------------------------

  /** The digit loop, backward from index `last`, at least one digit:
      writes the numeral so that it ends there, and stays inside the buffer. */
  method WriteDigits(x: array<char>, last: nat, value: nat, base: int) returns (i: int)
    requires Base(base) && last < x.Length && value < Power(base, last + 1)
    modifies x
    ensures -1 <= i < last && x[i + 1..last + 1] == Numeral(value, base)
    ensures forall k | last < k < x.Length :: x[k] == old(x[k])
  {
    hide Numeral, Power, DigitChar, Base;
    var val: nat := value;
    i := last;
    ghost var tail: string := [];
    assert Numeral(val, base) + tail == Numeral(value, base);
    while true
      invariant 0 <= i <= last && val < Power(base, i + 1)
      invariant tail == x[i + 1..last + 1] && Numeral(val, base) + tail == Numeral(value, base)
      invariant forall k | last < k < x.Length :: x[k] == old(x[k])
      decreases i
    {
      DigitStep(val, base, i);
      var d, rest := val % base, val / base;
      ghost var before := tail;
      x[i] := DigitChar(d);
      tail := [DigitChar(d)] + before;
      assert x[i + 1..last + 1] == before && x[i..last + 1] == tail;
      if rest > 0 {
        assert Numeral(rest, base) + [DigitChar(d)] + before == Numeral(rest, base) + tail;
      }
      val := rest;
      i := i - 1;
      if val == 0 {
        return;
      }
    }
  }

  /** One round: a digit of the numeral, and a quotient with one digit less. */
  lemma DigitStep(val: nat, base: int, i: nat)
    requires Base(base) && val < Power(base, i + 1)
    ensures base > 0 && 0 <= val % base < 16 && val / base >= 0 && val / base < Power(base, i)
    ensures val / base > 0 ==> i > 0 && Numeral(val, base) == Numeral(val / base, base) + [DigitChar(val % base)]
    ensures val / base == 0 ==> Numeral(val, base) == [DigitChar(val % base)]
  {
    assert Power(base, i + 1) == base * Power(base, i);
    if i == 0 { assert Power(base, 1) == base; }
  }

  /** UInt64.ToString and ToStringHex: a 21-character buffer with the terminator at 20. */
  method PrintUnsigned(value: u64, base: int) returns (s: string)
    requires Base(base)
    ensures s == Numeral(value, base)
  {
    var x := new char[21];
    x[20] := '\0';
    WordDigits();
    PowerGrows(base);
    var i := WriteDigits(x, 19, value, base);
    i := i + 1;
    return x[i..20];
  }

  lemma PowerGrows(base: int)
    requires Base(base)
    ensures TWO_64 <= Power(base, 20) <= Power(base, 21)
  {
    WordDigits();
    PowerAdds(16, 16, 4);
    assert Power(16, 4) == 0x1_0000;
    assert Power(base, 21) == base * Power(base, 20);
  }

  /** What Int64.ToString prints. The most negative value cannot be negated, and its loop
      stops after one remainder of -8, whose character is '('. */
  function SignedNumeral(x: i64): string {
    if x == -TWO_63 then "-(" else if x < 0 then "-" + Numeral(-x, 10) else Numeral(x, 10)
  }

  /** Int64.ToString: a 22-character buffer; negative values are negated in 64 bits first. */
  method PrintSigned(value: i64) returns (s: string)
    ensures s == SignedNumeral(value)
  {
    hide Numeral, Power;
    var val: int := value;
    var isNeg := val < 0;
    var x := new char[22];
    x[21] := '\0';
    if isNeg {
      NegatedBits(value);
      var bits: int := Wrap64(val);
      bits := Wrap64(0xFFFF_FFFF_FFFF_FFFF - bits + 1);
      val := Signed64(bits);
    }
    var i: int;
    if val >= 0 {
      PowerGrows(10);
      i := WriteDigits(x, 20, val, 10);
      NumeralLength(val, 10, 20);
    } else {
      var d := TruncMod(val, 10);
      assert d == -8 && TruncDiv(val, 10) < 0;
      x[20] := DigitChar(d);
      i := 19;
    }
    if isNeg {
      ghost var digits := x[i + 1..21];
      x[i] := '-';
      assert x[i..21] == "-" + digits;
    } else {
      i := i + 1;
    }
    return x[i..21];
  }

  /** Subtracting the bits from all ones and adding one negates, except for the most negative value. */
  lemma NegatedBits(v: i64)
    requires v < 0
    ensures var bits: int := Wrap64(v);
            Signed64(Wrap64(0xFFFF_FFFF_FFFF_FFFF - bits + 1)) == if v == -TWO_63 then -TWO_63 else -v
  {
    WrapNegative(v);
    var w: int := v;
    var n := -w;
    assert Wrap64(n) == n;
    assert Signed64(n) == if n < TWO_63 then n else n - TWO_64;
  }

  lemma WrapNegative(v: i64)
    requires v < 0
    ensures Wrap64(v) == v + TWO_64
  {
  }

  // ---------------------------------------------------------------------
  // Parsing
  // ---------------------------------------------------------------------

  /** What the parser takes a character to be worth, digit or not: its code minus that of 0. */
  function CodeWorth(c: char): int { c as int - 0x30 }

  /** The number a string of characters spells to the parser. */
  function Value(s: string): int { Spelled(s, 10, CodeWorth) }

  /** Whatever the characters are, each counts by its place: the first of n + 1 characters for its worth
      times 10^n. */
  lemma {:induction false} ValueByPlaces(c: char, s: string)
    ensures Value([]) == 0 && Value([c] + s) == (c as int - '0' as int) * Power(10, |s|) + Value(s)
  {
    if s == [] {
      assert ([c] + s)[..0] == [];
    } else {
      var init, last := s[..|s| - 1], s[|s| - 1];
      ValueByPlaces(c, init);
      assert ([c] + s)[..|s|] == [c] + init;
      TimesTen(c as int - '0' as int, Power(10, |init|), Value(init));
    }
  }

  lemma TimesTen(a: int, b: int, v: int)
    ensures (a * b + v) * 10 == a * (10 * b) + v * 10
  {
  }

  /** What Convert.ToInt64 returns for a non-empty string: everything modulo 2^64. */
  function Parsed(s: string): i64
    requires s != []
  {
    if s[0] == '-' then Signed64(-Value(s[1..])) else Signed64(Value(s))
  }

  /** Wrapping at every step is wrapping once. */
  lemma WrapStep(a: int, d: int)
    ensures Signed64(Signed64(Signed64(a) * 10) + d) == Signed64(a * 10 + d)
  {
    SignedCongruent(a);
    var q := (Signed64(a) - a) / TWO_64;
    assert Signed64(a) == a + TWO_64 * q;
    SameSigned(Signed64(a) * 10, a * 10, 10 * q);
    SignedCongruent(a * 10);
    var p := (Signed64(a * 10) - a * 10) / TWO_64;
    assert Signed64(a * 10) == a * 10 + TWO_64 * p;
    SameSigned(Signed64(a * 10) + d, a * 10 + d, p);
  }

  lemma SignedCongruent(a: int)
    ensures (Signed64(a) - a) % TWO_64 == 0
  {
  }

  lemma SameSigned(a: int, b: int, q: int)
    requires a == b + TWO_64 * q
    ensures Signed64(a) == Signed64(b)
  {
    assert a % TWO_64 == b % TWO_64;
  }

  /** Convert.ToInt64; None is the index error on the empty string. */
  method ToInt64(s: string) returns (r: Option<i64>)
    ensures r == if s == [] then None else Some(Parsed(s))
  {
    if s == [] {
      return None;
    }
    var start, neg := 0, false;
    if s[0] == '-' {
      start, neg := 1, true;
    }
    var val: int := 0;
    assert s[start..start] == [];
    for i := start to |s|
      invariant val == Signed64(Value(s[start..i]))
    {
      assert s[start..i + 1][..i - start] == s[start..i];
      WrapStep(Value(s[start..i]), s[i] as int - 0x30);
      val := Signed64(val * 10);
      val := Signed64(val + (s[i] as int - 0x30));
    }
    assert s[start..|s|] == s[start..];
    NegateWrapped(Value(s[start..]), val);
    if neg {
      return Some(Signed64(-val));
    }
    assert s[0..] == s;
    return Some(val);
  }

  lemma NegateWrapped(a: int, b: int)
    requires b == Signed64(a)
    ensures Signed64(-b) == Signed64(-a)
  {
    SignedCongruent(a);
    var q := (b - a) / TWO_64;
    assert b == a + TWO_64 * q;
    SameSigned(-b, -a, -q);
  }

  // ---------------------------------------------------------------------
  // Round trips
  // ---------------------------------------------------------------------

  lemma ValueOfNumeral(n: nat)
    ensures Value(Numeral(n, 10)) == n
  {
    SpelledNumeral(n, 10, CodeWorth);
  }

  /** Convert.ToUInt64 of the printed value is the value, for every 64-bit word, although
      the parser's arithmetic is signed and wraps. */
  lemma UnsignedRoundTrip(u: u64)
    ensures Numeral(u, 10) != [] && Wrap64(Parsed(Numeral(u, 10))) == u
  {
    hide Numeral, Value, Signed64, Wrap64;
    NoLeadingZero(u, 10);
    ValueOfNumeral(u);
    BackFromSigned(u);
  }

  lemma BackFromSigned(u: u64)
    ensures Wrap64(Signed64(u)) == u
  {
  }

  /** Printing and parsing a signed value gives it back exactly when it is not the most negative one. */
  lemma SignedRoundTripIff(x: i64)
    ensures SignedNumeral(x) != []
    ensures Parsed(SignedNumeral(x)) == x <==> x != -TWO_63
  {
    if x == -TWO_63 {
      MostNegative();
    } else if x < 0 {
      NegativeBack(x);
    } else {
      hide Numeral, Value;
      NoLeadingZero(x, 10);
      ValueOfNumeral(x);
    }
  }

  lemma MostNegative()
    ensures Parsed("-(") == 8
  {
    assert "-("[1..] == "(";
    assert Value("(") == -8 by { assert "("[..0] == []; }
  }

  lemma NegativeBack(x: i64)
    requires -TWO_63 < x < 0
    ensures SignedNumeral(x) != [] && Parsed(SignedNumeral(x)) == x
  {
    hide Numeral, Value;
    ValueOfNumeral(-x);
    assert ("-" + Numeral(-x, 10))[1..] == Numeral(-x, 10);
  }
}
