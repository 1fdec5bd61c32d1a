/** Digit conversion (`uint_to_str` in `src/freestanding/src/printf.c`) and positional parsing. */
module Digits {
  import opened Capability

  const DEC_DIGITS: string := "0123456789"
  const HEX_DIGITS: string := "0123456789abcdef"

  predicate IsBase(base: nat) { base == 10 || base == 16 }

  function Table(base: nat): (t: string)
    requires IsBase(base)
    ensures |t| == base
  {
    if base == 10 then DEC_DIGITS else HEX_DIGITS
  }

  // Arithmetic by the base, with the two bases spelled out so that it stays linear.
  function Quot(v: nat, base: nat): nat {
    if base == 10 then v / 10 else v / 16
  }

  function Rem(v: nat, base: nat): nat {
    if base == 10 then v % 10 else v % 16
  }

  function Scale(v: nat, base: nat): nat {
    if base == 10 then 10 * v else 16 * v
  }

  /** The character for one digit. */
  function DigitChar(d: nat): char
    requires d < 16
  {
    if d < 10 then ('0' as int + d) as char else ('a' as int + (d - 10)) as char
  }

  /** The value of one digit character; every other character counts as zero. */
  function DigitValue(c: char): nat {
    if '0' <= c <= '9' then c as int - '0' as int
    else if 'a' <= c <= 'f' then 10 + (c as int - 'a' as int)
    else 0
  }

  /** The digits of a number, most significant first, without leading zeros. */
  function Numeral(val: nat, base: nat): string
    requires IsBase(base)
  {
    if val < base then [DigitChar(val)] else Numeral(Quot(val, base), base) + [DigitChar(Rem(val, base))]
  }

  predicate IsDigit(c: char, base: nat) {
    '0' <= c <= '9' || (base == 16 && 'a' <= c <= 'f')
  }

  predicate AllDigits(s: string, base: nat) {
    forall i :: 0 <= i < |s| ==> IsDigit(s[i], base)
  }

  /** Positional value of a digit string. */
  function Value(s: string, base: nat): nat {
    if s == [] then 0 else Scale(Value(s[..|s| - 1], base), base) + DigitValue(s[|s| - 1])
  }

  /** Digit strings that `Numeral` can produce: not empty and no leading zero except for zero. */
  predicate Canonical(s: string, base: nat) {
    s != [] && AllDigits(s, base) && (s[0] == '0' ==> |s| == 1)
  }

  /** The tables of the source hold the digit characters in order. */
  lemma TableDigit(d: nat, base: nat)
    requires IsBase(base) && d < base
    ensures Table(base)[d] == DigitChar(d)
  {
  }

  lemma DigitCharValue(d: nat, base: nat)
    requires IsBase(base) && d < base
    ensures IsDigit(DigitChar(d), base) && DigitValue(DigitChar(d)) == d
    ensures DigitChar(d) == '0' <==> d == 0
  {
  }

  lemma DigitValueChar(c: char, base: nat)
    requires IsBase(base) && IsDigit(c, base)
    ensures DigitValue(c) < base && DigitChar(DigitValue(c)) == c
  {
  }

  /** Parsing undoes printing, and what is printed is canonical. */
  lemma {:induction false} NumeralValue(val: nat, base: nat)
    requires IsBase(base)
    ensures Value(Numeral(val, base), base) == val
    ensures Canonical(Numeral(val, base), base)
    ensures Numeral(val, base)[0] == '0' <==> val == 0
  {
    DigitCharValue(Rem(val, base), base);
    if val < base {
      DigitCharValue(val, base);
      assert Numeral(val, base)[..0] == [];
    } else {
      NumeralValue(Quot(val, base), base);
      var s := Numeral(val, base);
      assert s[..|s| - 1] == Numeral(Quot(val, base), base);
    }
  }

  lemma ValueStep(t: string, c: char, base: nat)
    ensures Value(t + [c], base) == Scale(Value(t, base), base) + DigitValue(c)
  {
    assert (t + [c])[..|t|] == t;
  }

  lemma NumeralStep(v: nat, d: nat, base: nat)
    requires IsBase(base) && d < base && v > 0
    ensures Numeral(Scale(v, base) + d, base) == Numeral(v, base) + [DigitChar(d)]
  {
    var w := Scale(v, base) + d;
    assert w >= base && Quot(w, base) == v && Rem(w, base) == d;
  }

  lemma ValueNumeralStep(t: string, c: char, base: nat)
    requires IsBase(base) && IsDigit(c, base)
    requires Value(t, base) > 0 && Numeral(Value(t, base), base) == t
    ensures Numeral(Value(t + [c], base), base) == t + [c]
    ensures Value(t + [c], base) > 0
  {
    ValueStep(t, c, base);
    DigitValueChar(c, base);
    NumeralStep(Value(t, base), DigitValue(c), base);
  }

  lemma ValueNumeralBase(c: char, base: nat)
    requires IsBase(base) && IsDigit(c, base)
    ensures Value([c], base) == DigitValue(c) && Numeral(Value([c], base), base) == [c]
    ensures c != '0' ==> Value([c], base) > 0
  {
    assert [c][..0] == [];
    DigitValueChar(c, base);
  }

  /** Printing undoes parsing on canonical digit strings. */
  lemma {:induction false} ValueNumeral(s: string, base: nat)
    requires IsBase(base) && Canonical(s, base)
    ensures Numeral(Value(s, base), base) == s
    ensures s[0] != '0' ==> Value(s, base) > 0
  {
    var n := |s| - 1;
    var t := s[..n];
    assert s == t + [s[n]];
    if n == 0 {
      ValueNumeralBase(s[0], base);
    } else {
      ValueNumeral(t, base);
      ValueNumeralStep(t, s[n], base);
    }
  }

  function Pow(base: nat, k: nat): nat {
    if k == 0 then 1 else Scale(Pow(base, k - 1), base)
  }

  lemma {:induction false} NumeralLength(val: nat, base: nat, k: nat)
    requires IsBase(base) && k >= 1 && val < Pow(base, k)
    ensures 1 <= |Numeral(val, base)| <= k
  {
    if val >= base {
      assert k > 1 by { assert Pow(base, 1) == Scale(Pow(base, 0), base); }
      NumeralLength(Quot(val, base), base, k - 1);
    }
  }

  lemma PowBounds()
    ensures Pow(16, 16) == U64 && Pow(10, 20) >= U64
    ensures Pow(16, 8) == U32 && Pow(16, 4) == 0x10000
    ensures Pow(10, 20) == 100000000000000000000
  {
    assert Pow(16, 4) == 0x10000;
    assert Pow(16, 8) == U32 by { assert Pow(16, 6) == 256 * Pow(16, 4); }
    assert Pow(16, 12) == 0x10000 * U32 by { assert Pow(16, 10) == 256 * Pow(16, 8); }
    assert Pow(16, 16) == U64 by { assert Pow(16, 14) == 256 * Pow(16, 12); }
    assert Pow(10, 4) == 10000;
    assert Pow(10, 8) == 100000000 by { assert Pow(10, 6) == 1000000; }
    assert Pow(10, 12) == 1000000000000 by { assert Pow(10, 10) == 10000000000; }
    assert Pow(10, 16) == 10000000000000000 by { assert Pow(10, 14) == 100000000000000; }
    assert Pow(10, 20) == 100000000000000000000 by { assert Pow(10, 18) == 1000000000000000000; }
  }

  /** A 64-bit value has at most 20 decimal or 16 hexadecimal digits. */
  lemma NumeralLength64(val: nat, base: nat)
    requires IsBase(base) && val < U64
    ensures 1 <= |Numeral(val, base)| <= (if base == 10 then 20 else 16)
  {
    PowBounds();
    NumeralLength(val, base, if base == 10 then 20 else 16);
  }

  /** Leading zeros do not change the value of a digit string. */
  lemma {:induction false} LeadingZeros(k: nat, s: string, base: nat)
    ensures Value(seq(k, _ => '0') + s, base) == Value(s, base)
    decreases k + |s|
  {
    var z := seq(k, _ => '0');
    var t := z + s;
    if s == [] {
      assert t == z;
      if k > 0 {
        assert z[..k - 1] == seq(k - 1, _ => '0') + s;
        LeadingZeros(k - 1, s, base);
      }
    } else {
      assert t[..|t| - 1] == z + s[..|s| - 1];
      LeadingZeros(k, s[..|s| - 1], base);
    }
  }

  lemma NumeralZero(base: nat)
    requires IsBase(base)
    ensures Numeral(0, base) == "0"
  {
  }

  // The loop's own arithmetic, whose divisor is the length of the digit table.
  function Quotient(v: nat, base: nat): nat requires base > 0 { v / base }
  function Remainder(v: nat, base: nat): (r: nat) requires base > 0 ensures r < base { v % base }

  /** What one turn of the digit loop does to the number still to be printed. */
  lemma DigitTurn(v: nat, digits: string)
    requires IsBase(|digits|) && digits == Table(|digits|) && v > 0
    ensures Quotient(v, |digits|) < v
    ensures Numeral(v, |digits|) ==
            (if Quotient(v, |digits|) > 0 then Numeral(Quotient(v, |digits|), |digits|) else [])
            + [digits[Remainder(v, |digits|)]]
  {
    TableDigit(Rem(v, |digits|), |digits|);
    assert Remainder(v, |digits|) == Rem(v, |digits|) && Quotient(v, |digits|) == Quot(v, |digits|);
  }

  /** The text in front of the digits: `0x` for the prefix `x`, otherwise the character itself. */
  function PrefixText(prefix: string): string {
    if prefix != [] && prefix[0] == 'x' then "0x" else prefix
  }

  /** `--buf; *buf = c`: one more character in front of the text built so far. */
  method PutFront(buf: array<char>, end: nat, c: char) returns (start: nat)
    requires 0 < end <= buf.Length
    modifies buf
    ensures start == end - 1 && buf[start..] == [c] + old(buf[end..])
  {
    start := end - 1;
    buf[start] := c;
  }

  /** The digit loop of `uint_to_str`. */
  method PutDigits(buf: array<char>, val: nat, digits: string) returns (start: nat)
    requires buf.Length == 64 && val < U64
    requires IsBase(|digits|) && digits == Table(|digits|)
    modifies buf
    ensures 44 <= start < 64 && buf[start..] == Numeral(val, |digits|)
  {
    hide Numeral, Table, Quotient;
    ghost var numeral := Numeral(val, |digits|);
    NumeralLength64(val, |digits|);
    start := 64;
    if val == 0 {
      start := PutFront(buf, start, '0');
      NumeralZero(|digits|);
    } else {
      var v: nat := val;
      while v > 0
        invariant 0 <= start <= 64
        invariant numeral == (if v > 0 then Numeral(v, |digits|) else []) + buf[start..]
      {
        DigitTurn(v, digits);
        var rem := Remainder(v, |digits|);
        start := PutFront(buf, start, digits[rem]);
        v := Quotient(v, |digits|);
      }
    }
  }

  /** `uint_to_str`: fills the scratch buffer backwards from its end and returns the first index used. */
  method UintToStr(buf: array<char>, val: nat, digits: string, prefix: string) returns (start: nat)
    requires buf.Length == 64 && val < U64
    requires IsBase(|digits|) && digits == Table(|digits|)
    requires |prefix| <= 1
    modifies buf
    ensures 42 <= start < 64
    ensures buf[start..] == PrefixText(prefix) + Numeral(val, |digits|)
  {
    start := PutDigits(buf, val, digits);
    if prefix != [] {
      if prefix[0] == 'x' {
        start := PutFront(buf, start, 'x');
        start := PutFront(buf, start, '0');
      } else {
        start := PutFront(buf, start, prefix[0]);
      }
    }
  }
}
