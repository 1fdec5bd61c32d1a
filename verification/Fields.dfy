/**
 * The text of one converted argument: what the modifiers between `%` and the conversion letter mean,
 * and how numbers and strings are padded. A reader takes the padding off again.
 */
module Fields {
  import opened Capability
  import opened Digits
  import opened Strings

  // ---------------------------------------------------------------- Modifiers

  /** The decimal digits among the modifiers, in order. */
  function WidthDigits(mods: string): string {
    if mods == [] then []
    else
      var c := mods[|mods| - 1];
      WidthDigits(mods[..|mods| - 1]) + if '0' <= c <= '9' then [c] else []
  }

  lemma WidthDigitsStep(mods: string, c: char)
    ensures WidthDigits(mods + [c]) == WidthDigits(mods) + if '0' <= c <= '9' then [c] else []
  {
    assert (mods + [c])[..|mods|] == mods;
  }

  /** The field width is the decimal number that these digits spell. */
  function Width(mods: string): nat { Value(WidthDigits(mods), 10) }

  /** A leading zero among the digits asks for zero padding. */
  predicate ZeroPad(mods: string) {
    WidthDigits(mods) != [] && WidthDigits(mods)[0] == '0'
  }

  predicate LeftAlign(mods: string) { '-' in mods }
  predicate Alternate(mods: string) { '#' in mods }
  predicate SignPlus(mods: string) { '+' in mods }
  predicate SignSpace(mods: string) { ' ' in mods }
  predicate SizeLong(mods: string) { 'l' in mods || 'z' in mods || 't' in mods }

  // ---------------------------------------------------------------- Fields

  /** Every argument occupies one slot that can be read as a pointer or as an integer. */
  type Slot = Ptr

  function UnsignedArg(slot: Slot, long: bool): nat {
    slot.cap.address % (if long then U64 else U32)
  }

  function SignedArg(slot: Slot, long: bool): int {
    if long then Signed(slot.cap.address % U64, U64) else Signed(slot.cap.address % U32, U32)
  }

  /** `v` is the signed number that the low 64 or 32 bits of `address` hold. */
  predicate HoldsSigned(long: bool, address: int, v: int) {
    if long
    then -0x8000_0000_0000_0000 <= v < 0x8000_0000_0000_0000 && (address - v) % 0x1_0000_0000_0000_0000 == 0
    else -0x8000_0000 <= v < 0x8000_0000 && (address - v) % 0x1_0000_0000 == 0
  }

  /** The same for unsigned numbers. */
  predicate HoldsUnsigned(long: bool, address: int, v: nat) {
    if long then v < 0x1_0000_0000_0000_0000 && (address - v) % 0x1_0000_0000_0000_0000 == 0
    else v < 0x1_0000_0000 && (address - v) % 0x1_0000_0000 == 0
  }

  /** Integer arguments are the numbers that their slots hold, sign extended from 32 bits where they are short. */
  lemma SignedArgIs(slot: Slot, long: bool, v: int)
    requires HoldsSigned(long, slot.cap.address, v)
    ensures SignedArg(slot, long) == v
  {
    var range := if long then U64 else U32;
    LowBits(slot.cap.address, v, range);
  }

  /** A number is known from its low bits. */
  lemma LowBits(a: int, v: int, range: int)
    requires (range == U32 || range == U64) && -range <= v < range && (a - v) % range == 0
    ensures a % range == if v < 0 then v + range else v
  {
  }

  lemma UnsignedArgIs(slot: Slot, long: bool, v: nat)
    requires HoldsUnsigned(long, slot.cap.address, v)
    ensures UnsignedArg(slot, long) == v
  {
  }

  function Fill(c: char, n: int): (s: string)
    ensures |s| == if n < 0 then 0 else n
    ensures forall i :: 0 <= i < |s| ==> s[i] == c
  {
    if n <= 0 then [] else seq(n, _ => c)
  }

  /** `body` in a field of the given width; `fill` goes in front, spaces go behind. */
  function Pad(body: string, width: nat, left: bool, fill: char): string {
    if left then body + Fill(' ', width - |body|) else Fill(fill, width - |body|) + body
  }

  function StringArg(slot: Slot): string {
    if slot.cap.IsNull() then "(null)"
    else if !slot.cap.Deref() then "(invalid)"
    else CString(slot.bytes)
  }

  function UnsignedBody(slot: Slot, long: bool, hex: bool, prefixed: bool): string {
    (if hex && prefixed then "0x" else "") + Numeral(UnsignedArg(slot, long), if hex then 16 else 10)
  }

  function UnsignedField(mods: string, slot: Slot, long: bool, hex: bool): string {
    Pad(UnsignedBody(slot, long, hex, Alternate(mods)), Width(mods), LeftAlign(mods),
        if ZeroPad(mods) then '0' else ' ')
  }

  function Sign(mods: string, v: int): string {
    if v < 0 then "-" else if SignPlus(mods) then "+" else if SignSpace(mods) then " " else ""
  }

  function Abs(v: int): nat { if v < 0 then -v else v }

  /** Signed output ignores the width as soon as it carries a sign character. */
  function SignedField(mods: string, slot: Slot): string {
    var v := SignedArg(slot, SizeLong(mods));
    var body := Numeral(Abs(v), 10);
    if Sign(mods, v) != "" then Sign(mods, v) + body
    else Pad(body, Width(mods), LeftAlign(mods), if ZeroPad(mods) then '0' else ' ')
  }

  function Hex16(v: nat): string { Pad(Numeral(v, 16), 16, false, '0') }

  function TagText(tag: bool): string { if tag then "1" else "0" }

  // ---------------------------------------------------------------- Lengths

  function Max(a: int, b: int): int { if a < b then b else a }

  /** `%u`, `%x` and `%p` fill the field exactly; digits and prefix may exceed it. */
  lemma UnsignedFieldLength(mods: string, slot: Slot, long: bool, hex: bool)
    ensures |UnsignedField(mods, slot, long, hex)| ==
            Max(Width(mods), |UnsignedBody(slot, long, hex, Alternate(mods))|)
    ensures 1 <= |UnsignedBody(slot, long, hex, Alternate(mods))| <= 20
  {
    NumeralLength64(UnsignedArg(slot, long), if hex then 16 else 10);
  }

  /** `%d` does so only when no sign character is printed. */
  lemma SignedFieldLength(mods: string, slot: Slot)
    ensures var v := SignedArg(slot, SizeLong(mods));
            var sign := |Sign(mods, v)|;
            |SignedField(mods, slot)| ==
            if sign > 0 then 1 + |Numeral(Abs(v), 10)| else Max(Width(mods), |Numeral(v, 10)|)
    ensures 1 <= |Numeral(Abs(SignedArg(slot, SizeLong(mods))), 10)| <= 20
  {
    NumeralLength64(Abs(SignedArg(slot, SizeLong(mods))), 10);
  }

  // ---------------------------------------------------------------- Reading fields back

  function TrimLeft(s: string): string {
    if s != [] && s[0] == ' ' then TrimLeft(s[1..]) else s
  }

  function TrimRight(s: string): string {
    if s != [] && s[|s| - 1] == ' ' then TrimRight(s[..|s| - 1]) else s
  }

  function Trim(s: string): string { TrimRight(TrimLeft(s)) }

  /** Skips a `0x` prefix together with any zeros in front of it. */
  function AfterX(s: string): string {
    if 'x' !in s then s else if s[0] == 'x' then s[1..] else AfterX(s[1..])
  }

  function ReadUnsigned(s: string, base: nat): nat {
    Value(AfterX(Trim(s)), base)
  }

  function ReadSigned(s: string): int {
    var t := Trim(s);
    if t != [] && t[0] == '-' then -(Value(t[1..], 10) as int)
    else if t != [] && t[0] == '+' then Value(t[1..], 10)
    else Value(t, 10)
  }

  predicate Solid(s: string) { s != [] && s[0] != ' ' && s[|s| - 1] != ' ' }

  lemma {:induction false} TrimLeftFill(n: nat, s: string)
    requires s != [] && s[0] != ' '
    ensures TrimLeft(Fill(' ', n) + s) == s
  {
    var t := Fill(' ', n) + s;
    if n == 0 {
      assert t == s;
    } else {
      assert t[1..] == Fill(' ', n - 1) + s;
      TrimLeftFill(n - 1, s);
    }
  }

  lemma {:induction false} TrimRightFill(n: nat, s: string)
    requires s != [] && s[|s| - 1] != ' '
    ensures TrimRight(s + Fill(' ', n)) == s
  {
    var t := s + Fill(' ', n);
    if n == 0 {
      assert t == s;
    } else {
      assert t[..|t| - 1] == s + Fill(' ', n - 1);
      TrimRightFill(n - 1, s);
    }
  }

  lemma TrimNothing(s: string)
    requires s != []
    ensures s[0] != ' ' ==> TrimLeft(s) == s
    ensures s[|s| - 1] != ' ' ==> TrimRight(s) == s
  {
  }

  /** Trimming a padded body leaves the body, behind whatever zeros were put in front of it. */
  lemma TrimPad(body: string, width: nat, left: bool, fill: char) returns (k: nat)
    requires Solid(body) && (fill == ' ' || fill == '0')
    ensures Trim(Pad(body, width, left, fill)) == Fill('0', k) + body
    ensures k == if left || fill == ' ' then 0 else Max(0, width - |body|)
  {
    hide TrimLeft, TrimRight;
    k := if left || fill == ' ' then 0 else Max(0, width - |body|);
    var m: nat := Max(0, width - |body|);
    assert Fill('0', 0) + body == body;
    TrimNothing(body);
    if left {
      assert Pad(body, width, left, fill) == body + Fill(' ', m);
      TrimNothing(body + Fill(' ', m));
      TrimRightFill(m, body);
    } else if fill == ' ' {
      TrimLeftFill(m, body);
    } else {
      assert Pad(body, width, left, fill) == Fill('0', m) + body;
      TrimNothing(Fill('0', m) + body);
    }
  }

  lemma {:induction false} AfterXFill(k: nat, s: string)
    requires 'x' !in s
    ensures AfterX(Fill('0', k) + ("0x" + s)) == s
    decreases k
  {
    var t := Fill('0', k) + ("0x" + s);
    if k == 0 {
      assert t == ['0', 'x'] + s;
      assert t[1] == 'x' && t[1..][1..] == s;
    } else {
      assert t[k + 1] == 'x';
      assert t[1..] == Fill('0', k - 1) + ("0x" + s);
      AfterXFill(k - 1, s);
    }
  }

  lemma DigitsHave(s: string, base: nat)
    requires IsBase(base) && Canonical(s, base)
    ensures 'x' !in s && Solid(s) && s[0] != '-' && s[0] != '+'
  {
  }

  /** For every flag set and width, the field of `%u`, `%x` or `%p` parses to the argument. */
  lemma UnsignedFieldReads(mods: string, slot: Slot, long: bool, hex: bool)
    ensures ReadUnsigned(UnsignedField(mods, slot, long, hex), if hex then 16 else 10)
            == UnsignedArg(slot, long)
  {
    hide Numeral, Value, Width, LeftAlign, ZeroPad, Trim;
    var base := if hex then 16 else 10;
    var v := UnsignedArg(slot, long);
    var num := Numeral(v, base);
    NumeralValue(v, base);
    DigitsHave(num, base);
    var body := UnsignedBody(slot, long, hex, Alternate(mods));
    assert body == (if hex && Alternate(mods) then "0x" else "") + num;
    var k := TrimPad(body, Width(mods), LeftAlign(mods), if ZeroPad(mods) then '0' else ' ');
    if hex && Alternate(mods) {
      AfterXFill(k, num);
    } else {
      assert body == num;
      ZerosRead(num, base, k);
    }
  }

  /** Zeros in front of a numeral do not matter. */
  lemma ZerosRead(num: string, base: nat, k: nat)
    requires IsBase(base) && Canonical(num, base)
    ensures AfterX(Fill('0', k) + num) == Fill('0', k) + num
    ensures Value(Fill('0', k) + num, base) == Value(num, base)
  {
    hide Value;
    DigitsHave(num, base);
    assert 'x' !in Fill('0', k) + num;
    assert Fill('0', k) == seq(k, _ => '0');
    LeadingZeros(k, num, base);
  }

  lemma UnsignedTextReads(num: string, k: nat)
    requires Canonical(num, 10)
    ensures var t := Fill('0', k) + num; t != [] && t[0] != '-' && t[0] != '+' && Value(t, 10) == Value(num, 10)
  {
    DigitsHave(num, 10);
    assert Fill('0', k) == seq(k, _ => '0');
    LeadingZeros(k, num, 10);
  }

  lemma SignTextReads(sign: char, num: string)
    requires Canonical(num, 10) && (sign == '-' || sign == '+' || sign == ' ')
    ensures ReadSigned([sign] + num) == if sign == '-' then -(Value(num, 10) as int) else Value(num, 10)
  {
    DigitsHave(num, 10);
    var t := [sign] + num;
    assert t[1..] == num;
    if sign == ' ' {
      assert TrimLeft(t) == num;
    }
  }

  /** The same for `%d` and `%i`, including the least value, whose negation wraps around. */
  lemma SignedFieldReads(mods: string, slot: Slot)
    ensures ReadSigned(SignedField(mods, slot)) == SignedArg(slot, SizeLong(mods))
  {
    hide Numeral, Value, Width, LeftAlign, ZeroPad, Trim;
    var v := SignedArg(slot, SizeLong(mods));
    var num := Numeral(Abs(v), 10);
    NumeralValue(Abs(v), 10);
    var sign := Sign(mods, v);
    if sign == "" {
      DigitsHave(num, 10);
      var k := TrimPad(num, Width(mods), LeftAlign(mods), if ZeroPad(mods) then '0' else ' ');
      UnsignedTextReads(num, k);
    } else {
      SignTextReads(sign[0], num);
    }
  }
}
